// The open nodes of all tasks, in the table of 500 that the kernel keeps.
module Descriptors {
  import opened Finite
  import opened FileTable
  import opened FileLaws

  // What a device says about a path; the structure behind a node is new.
  datatype Lookup = NotFound | FoundDirectory(inode: nat) | FoundFile(inode: nat)

  // Ids below id of this task are as many as its descriptors at most.
  function IdsOf(t: seq<Node>, procID: nat): set<int> { set n | n in t && n.procID == procID :: n.id }

  lemma {:induction false} IdsSize(t: seq<Node>, procID: nat)
    ensures |IdsOf(t, procID)| <= |t|
  {
    if t != [] {
      var front, n := t[..|t| - 1], t[|t| - 1];
      IdsSize(front, procID);
      assert IdsOf(t, procID) <= IdsOf(front, procID) + {n.id};
      SubsetSize(IdsOf(t, procID), IdsOf(front, procID) + {n.id});
    }
  }

  lemma {:induction false} RangeSize(id: nat) returns (s: set<int>)
    ensures |s| == id && forall j :: j in s <==> 1 <= j <= id
  {
    if id == 0 {
      s := {};
    } else {
      s := RangeSize(id - 1);
      s := s + {id as int};
    }
  }

  // Ids from 1 on cannot all be taken by fewer descriptors.
  lemma TakenIds(t: seq<Node>, procID: nat, id: nat)
    requires forall j :: 1 <= j <= id ==> IsOpen(t, procID, j)
    ensures id <= |t|
  {
    IdsSize(t, procID);
    var s := RangeSize(id);
    forall j | j in s ensures j in IdsOf(t, procID) {
      assert IsOpen(t, procID, j);
      assert t[Find(t, procID, j, 0)] in t;
    }
    SubsetSize(s, IdsOf(t, procID));
  }

  class OpenNodes {
    const openNodes: array<Node>
    var openNodeNumber: nat
    var live: set<nat>  // the structures behind nodes that kfree finds
    ghost var pipes: set<nat>

    ghost predicate Valid()
      reads this, openNodes
    {
      openNodes.Length == MAX_OPEN_NODES && openNodeNumber <= MAX_OPEN_NODES && Inv(State())
    }

    ghost function State(): Files
      reads this, openNodes
    {
      Files(if openNodeNumber <= openNodes.Length then openNodes[..openNodeNumber] else [], live, pipes)
    }

    constructor ()
      ensures Valid() && State() == Files([], {}, {})
    {
      openNodes := new Node[MAX_OPEN_NODES](i => Node(0, 0, File, 0));
      openNodeNumber, live, pipes := 0, {}, {};
    }

    // getUnusedOpenNodeId: 0 if the table is full, or else the least id from 1 on that the task does
    // not have: the endless search ends.
    method GetUnusedOpenNodeId(procID: nat) returns (id: int)
      requires openNodes.Length == MAX_OPEN_NODES && openNodeNumber <= MAX_OPEN_NODES
      ensures id == 0 <==> |State().table| == MAX_OPEN_NODES
      ensures id != 0 ==> 1 <= id <= |State().table| + 1 && !IsOpen(State().table, procID, id)
      ensures id != 0 ==> forall j :: 1 <= j < id ==> IsOpen(State().table, procID, j)
    {
      if openNodeNumber == MAX_OPEN_NODES {
        return 0;
      }
      ghost var t := State().table;
      id := 1;
      while true
        invariant 1 <= id <= |t| + 1 && forall j :: 1 <= j < id ==> IsOpen(t, procID, j)
        decreases |t| + 1 - id
      {
        var found, c := false, 0;
        while c < openNodeNumber
          invariant c <= openNodeNumber && (found <==> exists k :: 0 <= k < c && HasKey(t[k], procID, id))
        {
          if openNodes[c].id == id && openNodes[c].procID == procID {
            assert HasKey(t[c], procID, id);
            found := true;
          }
          c := c + 1;
        }
        if !found {
          return;
        }
        assert IsOpen(t, procID, id);
        TakenIds(t, procID, id);
        id := id + 1;
      }
    }

    // The last descriptor with this key, as most functions look it up; with unique keys, the only one.
    method FindNode(procID: nat, file: int) returns (k: nat)
      requires openNodes.Length == MAX_OPEN_NODES && openNodeNumber <= MAX_OPEN_NODES && UniqueKeys(State().table)
      ensures k == Find(State().table, procID, file, 0)
    {
      ghost var t := State().table;
      k := openNodeNumber;
      var c := 0;
      while c < openNodeNumber
        invariant c <= openNodeNumber
        invariant k < c ==> HasKey(t[k], procID, file)
        invariant k >= c ==> k == |t| && forall j :: 0 <= j < c ==> !HasKey(t[j], procID, file)
      {
        if openNodes[c].id == file && openNodes[c].procID == procID {
          assert HasKey(t[c], procID, file);
          k := c;
        }
        c := c + 1;
      }
      if k < openNodeNumber {
        FindIs(t, k);
      }
    }

    // A descriptor is added at the end.
    method Append(n: Node)
      requires openNodes.Length == MAX_OPEN_NODES && openNodeNumber < MAX_OPEN_NODES
      modifies this`openNodeNumber, openNodes
      ensures openNodeNumber == old(openNodeNumber) + 1 && State().table == old(State()).table + [n]
    {
      openNodes[openNodeNumber] := n;
      openNodeNumber := openNodeNumber + 1;
    }

    // Those behind position i move down by one.
    method Shift(i: nat)
      requires openNodes.Length == MAX_OPEN_NODES && i < openNodeNumber <= MAX_OPEN_NODES
      modifies this`openNodeNumber, openNodes
      ensures openNodeNumber == old(openNodeNumber) - 1 && State().table == RemoveAt(old(State()).table, i)
    {
      ghost var t := State().table;
      var c := i;
      while c + 1 < openNodeNumber
        invariant i <= c < openNodeNumber == |t|
        invariant forall j :: 0 <= j < openNodeNumber ==> openNodes[j] == t[if i <= j < c then j + 1 else j]
      {
        openNodes[c] := openNodes[c + 1];
        c := c + 1;
      }
      openNodeNumber := openNodeNumber - 1;
      assert State().table == RemoveAt(t, i);
    }

    // openFile. A full table is a panic. What is no file is not opened; the structure of a directory
    // stays allocated.
    method OpenFile(procID: nat, found: Lookup) returns (panic: bool, r: int)
      requires Valid() && (found != NotFound ==> found.inode !in live)
      modifies this`openNodeNumber, this`live, openNodes
      ensures Valid()
      ensures panic <==> |old(State()).table| == MAX_OPEN_NODES
      ensures panic || found == NotFound ==> r == -1 && State() == old(State())
      ensures !panic && found.FoundDirectory? ==> r == -1 && State() == old(State()).(live := old(live) + {found.inode})
      ensures !panic && found.FoundFile? ==>
        && r >= 1 && !IsOpen(old(State()).table, procID, r)
        && State() == Opened(old(State()), Node(r, procID, File, found.inode))
      ensures !panic && found.FoundFile? ==>
        && OnlyNew(old(State()).table, State().table, Node(r, procID, File, found.inode))
        && live == old(live) + {found.inode} && State().pipes == old(State()).pipes
        && forall k :: 1 <= k < r ==> IsOpen(old(State()).table, procID, k)
    {
      ghost var was := State();
      var id := GetUnusedOpenNodeId(procID);
      panic := id == 0;
      r := -1;
      if !panic {
        match found
        case NotFound =>
        case FoundDirectory(inode) => live := live + {inode};
        case FoundFile(inode) =>
          OpenedKeeps(was, Node(id, procID, File, inode));
          Appended(was.table, Node(id, procID, File, inode));
          Append(Node(id, procID, File, inode));
          live := live + {inode};
          r := id;
      }
    }

    // kfree of a structure behind a node. It panics if the structure is not allocated.
    method FreeStructure(inode: nat) returns (panic: bool)
      modifies this`live
      ensures panic <==> inode !in old(live)
      ensures live == old(live) - {inode}
    {
      panic := inode !in live;
      live := live - {inode};
    }

    // closeFile. Freeing a device's structure that another close has freed is a panic.
    method CloseFile(procID: nat, file: int) returns (panic: bool)
      requires Valid()
      modifies this`openNodeNumber, this`live, this`pipes, openNodes
      ensures panic <==> ClosePanics(old(State()), procID, file)
      ensures !panic ==> Valid() && State() == Close(old(State()), procID, file)
      ensures !panic ==> ClosedOne(old(State()).table, State().table, procID, file)
    {
      ghost var was := State();
      CloseKeeps(was, procID, file);
      CloseEvery(was, procID, file);
      panic := false;
      var c := 0;
      while c < openNodeNumber && !(openNodes[c].id == file && openNodes[c].procID == procID)
        invariant c <= openNodeNumber && State() == was
        invariant forall j :: 0 <= j < c ==> !HasKey(was.table[j], procID, file)
      {
        c := c + 1;
      }
      if c == openNodeNumber {
        return;
      }
      FindFirst(was.table, c, procID, file);
      var pointer := openNodes[c];
      Shift(c);
      if pointer.kind != Pipe {
        panic := FreeStructure(pointer.inode);
      } else {
        panic := CloseEnd(pointer.inode);
      }
    }

    // What remains of a pipe whose descriptor has left the table: if there is one descriptor more, the pipe
    // and this descriptor go along.
    method CloseEnd(p: nat) returns (panic: bool)
      requires openNodes.Length == MAX_OPEN_NODES && openNodeNumber <= MAX_OPEN_NODES
      modifies this`openNodeNumber, this`live, this`pipes, openNodes
      ensures var t := old(State()).table;
        && (panic <==> Sharers(t, |t|, p) == 1 && p !in old(live))
        && State() == if Sharers(t, |t|, p) == 1
                      then Files(RemoveAt(t, LastSharer(t, |t|, p)), old(live) - {p}, old(pipes) - {p})
                      else old(State())
      ensures openNodeNumber <= MAX_OPEN_NODES
    {
      var found, ci := Partners(p);
      panic := false;
      if found == 1 {
        panic := FreeStructure(p);
        pipes := pipes - {p};
        Shift(ci);
      }
    }

    // How many descriptors lead to the pipe, and the last of them.
    method Partners(p: nat) returns (found: nat, ci: nat)
      requires openNodes.Length == MAX_OPEN_NODES && openNodeNumber <= MAX_OPEN_NODES
      ensures var t := State().table; found == Sharers(t, |t|, p) && ci == LastSharer(t, |t|, p)
      ensures found > 0 ==> ci < openNodeNumber
    {
      ghost var t := State().table;
      found, ci := 0, 0;
      var c := 0;
      while c < openNodeNumber
        invariant c <= openNodeNumber && found == Sharers(t, c, p) && ci == LastSharer(t, c, p)
        invariant found > 0 ==> ci < c
      {
        if openNodes[c].inode == p {
          found := found + 1;
          ci := c;
        }
        c := c + 1;
      }
    }

    // pipe, with the address p that the new pipe gets. It panics if there is no room for both ends.
    method MakePipe(procID: nat, p: nat) returns (panic: bool, r0: int, r1: int)
      requires Valid() && p !in live
      modifies this`openNodeNumber, this`live, this`pipes, openNodes
      ensures panic <==> |old(State()).table| + 2 > MAX_OPEN_NODES
      ensures !panic ==> State() == Piped(old(State()), procID, r0, r1, p) && 1 <= r0 < r1
      ensures !panic ==> (Valid() <==> Unheld(old(State()), p))
      ensures !panic ==> !IsOpen(old(State()).table, procID, r0) && !IsOpen(old(State()).table, procID, r1)
      ensures !panic ==>
        var n0, n1 := Node(r0, procID, Pipe, p), Node(r1, procID, Pipe, p);
        && LeadsTo(State().table, n0) && LeadsTo(State().table, n1)
        && (forall q: nat, k: int :: !HasKey(n0, q, k) && !HasKey(n1, q, k) ==>
          SameKey(old(State()).table, State().table, q, k))
        && live == old(live) + {p} && State().pipes == old(State()).pipes + {p}
    {
      ghost var was := State();
      panic, r0, r1 := true, 0, 0;
      r0 := GetUnusedOpenNodeId(procID);
      if r0 == 0 {
        return;
      }
      Append(Node(r0, procID, Pipe, p));
      r1 := GetUnusedOpenNodeId(procID);
      if r1 == 0 {
        return;
      }
      Append(Node(r1, procID, Pipe, p));
      panic, live, pipes := false, live + {p}, pipes + {p};
      OpenAppended(was.table, Node(r0, procID, Pipe, p));
      AppendedTwo(was.table, Node(r0, procID, Pipe, p), Node(r1, procID, Pipe, p));
      PipedKeeps(was, procID, r0, r1, p);
    }

    // copyNodeDescriptor. With a full table it would write behind the end of it.
    method CopyNodeDescriptor(procID: nat, id: int, newProcID: nat, newId: int) returns (overrun: bool)
      requires openNodes.Length == MAX_OPEN_NODES && openNodeNumber <= MAX_OPEN_NODES && UniqueKeys(State().table)
      modifies this`openNodeNumber, openNodes
      ensures overrun <==> IsOpen(old(State()).table, procID, id) && |old(State()).table| == MAX_OPEN_NODES
      ensures overrun || !IsOpen(old(State()).table, procID, id) ==> State().table == old(State()).table
      ensures !overrun && IsOpen(old(State()).table, procID, id) ==>
        var t := old(State()).table;
        State().table == t + [t[Find(t, procID, id, 0)].(procID := newProcID, id := newId)]
      ensures openNodeNumber <= MAX_OPEN_NODES
    {
      var k := FindNode(procID, id);
      overrun := k < openNodeNumber && openNodeNumber == MAX_OPEN_NODES;
      if k < openNodeNumber && !overrun {
        Append(openNodes[k].(procID := newProcID, id := newId));
      }
    }

    // One round of fork's loop.
    method ForkOne(procID: nat, child: nat, c: nat, ghost was: Files, ghost n: nat, ghost n': nat)
      returns (overrun: bool)
      requires openNodes.Length == MAX_OPEN_NODES && c < openNodeNumber <= MAX_OPEN_NODES
      requires UniqueKeys(was.table) && procID != child
      requires forall i :: 0 <= i < |was.table| ==> was.table[i].procID != child
      requires n <= n' <= |was.table| && n' == (if c < |was.table| then n + 1 else n)
      requires n == (if c < |was.table| then c else |was.table|)
      requires State() == was.(table := was.table + CopiesFor(was.table, n, procID, child))
      modifies this`openNodeNumber, openNodes
      ensures overrun <==> |was.table| + |CopiesFor(was.table, n', procID, child)| > MAX_OPEN_NODES
      ensures !overrun ==> old(openNodeNumber) <= openNodeNumber <= MAX_OPEN_NODES
      ensures !overrun ==> State() == was.(table := was.table + CopiesFor(was.table, n', procID, child))
    {
      CopiesNext(was.table, State().table, c, n, n', procID, child);
      overrun := false;
      if openNodes[c].procID == procID {
        overrun := CopyNodeDescriptor(procID, openNodes[c].id, child, openNodes[c].id);
      }
    }

    // fork's loop over the table, which grows while the loop is at it: it ends, and has copied exactly
    // the parent's descriptors, if there is room.
    method ForkDescriptors(procID: nat, child: nat) returns (overrun: bool)
      requires Valid() && procID != child && forall i :: 0 <= i < |State().table| ==> State().table[i].procID != child
      modifies this`openNodeNumber, openNodes
      ensures overrun <==> |Forked(old(State()), procID, child).table| > MAX_OPEN_NODES
      ensures !overrun ==> Valid() && State() == Forked(old(State()), procID, child)
      ensures !overrun ==> Copied(old(State()).table, State().table, procID, child)
    {
      ForkEvery(State(), procID, child);
      ghost var was, t := State(), State().table;
      var c := 0;
      ghost var n := 0;
      overrun := false;
      while c < openNodeNumber
        invariant c <= openNodeNumber <= MAX_OPEN_NODES && n == (if c < |t| then c else |t|)
        invariant State() == was.(table := t + CopiesFor(t, n, procID, child))
        decreases 2 * |t| - c
      {
        ghost var n' := if c < |t| then n + 1 else n;
        overrun := ForkOne(procID, child, c, was, n, n');
        if overrun {
          CopiesGrow(t, n', |t|, procID, child);
          return;
        }
        c, n := c + 1, n';
      }
      assert |State().table| == openNodeNumber && n == |t|;
      ForkedKeeps(was, procID, child);
    }

    // The first descriptor of the task is closed, if there is one.
    method CloseFirst(procID: nat) returns (t: bool, panic: bool)
      requires Valid()
      modifies this`openNodeNumber, this`live, this`pipes, openNodes
      ensures panic ==> CloseAllPanics(old(State()), procID)
      ensures !panic ==> Valid() && CloseAll(State(), procID) == CloseAll(old(State()), procID)
      ensures !panic ==> (CloseAllPanics(State(), procID) <==> CloseAllPanics(old(State()), procID))
      ensures t && !panic ==> openNodeNumber < old(openNodeNumber)
      ensures !t ==> !panic && State() == CloseAll(State(), procID) && !CloseAllPanics(State(), procID)
    {
      var c := FindTask(procID);
      t, panic := c < openNodeNumber, false;
      CloseAllStep(State(), procID, c);
      if t {
        panic := CloseFile(openNodes[c].procID, openNodes[c].id);
      }
    }

    // The position of the task's first descriptor.
    method FindTask(procID: nat) returns (c: nat)
      requires openNodes.Length == MAX_OPEN_NODES && openNodeNumber <= MAX_OPEN_NODES
      ensures c == FirstOf(State().table, procID, 0)
    {
      c := 0;
      while c < openNodeNumber && openNodes[c].procID != procID
        invariant c <= openNodeNumber && FirstOf(State().table, procID, c) == FirstOf(State().table, procID, 0)
      {
        c := c + 1;
      }
    }

    // closeAllNodeDescriptors: the first descriptor of the task is closed until there is none. It does
    // without a panic exactly if no file of the task dangles and no two of them share a structure.
    method CloseAllNodeDescriptors(procID: nat) returns (panic: bool)
      requires Valid()
      modifies this`openNodeNumber, this`live, this`pipes, openNodes
      ensures panic <==> !FilesSound(old(State()).table, old(live), procID)
      ensures !panic ==> Valid() && State() == CloseAll(old(State()), procID)
      ensures !panic ==> forall i :: 0 <= i < |State().table| ==> State().table[i].procID != procID
      ensures !panic ==> ClosedAll(old(State()).table, State().table, procID)
    {
      CloseAllEvery(State(), procID);
      ghost var last, panics := CloseAll(State(), procID), CloseAllPanics(State(), procID);
      CloseAllKeeps(State(), procID);
      CloseAllPanicsIff(State(), procID);
      var t := true;
      panic := false;
      while t
        invariant Valid() && CloseAll(State(), procID) == last && (CloseAllPanics(State(), procID) <==> panics)
        invariant !t ==> State() == last && !panics
        decreases t, openNodeNumber
      {
        t, panic := CloseFirst(procID);
        if panic {
          return;
        }
      }
    }

    method MoveNodeDescriptor(procID: nat, id: int, newProcID: nat, newId: int)
      requires Valid()
      modifies openNodes
      ensures State() == Moved(old(State()), procID, id, newProcID, newId)
      ensures old(IsOpen(State().table, procID, id)) ==>
        (UniqueKeys(State().table) <==>
          !old(IsOpen(State().table, newProcID, newId)) || (newProcID == procID && newId == id))
    {
      ghost var was := State();
      var k := FindNode(procID, id);
      if k < openNodeNumber {
        MovedUniqueIff(was, procID, id, newProcID, newId);
        openNodes[k] := openNodes[k].(id := newId, procID := newProcID);
        assert State().table == was.table[k := was.table[k].(procID := newProcID, id := newId)];
      }
    }

    // movFileDescriptorTo.
    method MovFileDescriptorTo(procID: nat, file: int, newFile: int) returns (panic: bool, r: int)
      requires Valid()
      modifies this`openNodeNumber, this`live, this`pipes, openNodes
      ensures panic <==> ClosePanics(old(State()), procID, newFile)
      ensures !panic ==> Valid() && r == newFile && State() == Renamed(old(State()), procID, file, newFile)
    {
      ghost var was := State();
      RenamedKeeps(was, procID, file, newFile);
      Closed(was, procID, newFile);
      r := newFile;
      panic := CloseFile(procID, newFile);
      if panic {
        return;
      }
      Rename(procID, file, newFile);
    }

    // The loop that gives the descriptor its new id.
    method Rename(procID: nat, file: int, newFile: int)
      requires openNodes.Length == MAX_OPEN_NODES && openNodeNumber <= MAX_OPEN_NODES && UniqueKeys(State().table)
      modifies openNodes
      ensures State() == Moved(old(State()), procID, file, procID, newFile)
    {
      ghost var mid := State();
      var c := 0;
      ghost var k := Find(mid.table, procID, file, 0);
      while c < openNodeNumber
        invariant c <= openNodeNumber == |mid.table|
        invariant State() == if k < c then Moved(mid, procID, file, procID, newFile) else mid
      {
        if openNodes[c].id == file && openNodes[c].procID == procID {
          assert HasKey(mid.table[c], procID, file);
          openNodes[c] := openNodes[c].(id := newFile);
        }
        c := c + 1;
      }
    }
  }

  // One round of closing all.
  lemma CloseAllStep(s: Files, procID: nat, i: nat)
    requires Inv(s) && i == FirstOf(s.table, procID, 0)
    ensures i == |s.table| ==> CloseAll(s, procID) == s && !CloseAllPanics(s, procID)
    ensures i < |s.table| ==> s.table[i].procID == procID
    ensures i < |s.table| ==>
      var id := s.table[i].id;
      && CloseAll(s, procID) == CloseAll(Close(s, procID, id), procID) && |Close(s, procID, id).table| < |s.table|
      && (CloseAllPanics(s, procID) <==> ClosePanics(s, procID, id) || CloseAllPanics(Close(s, procID, id), procID))
  {
    if i < |s.table| {
      FindIs(s.table, i);
    }
  }

  // While fork's loop runs, keys are unique, and behind the old table are only the child's.
  lemma CopiesSoFar(t: seq<Node>, n: nat, procID: nat, child: nat)
    requires UniqueKeys(t) && n <= |t| && procID != child && forall i :: 0 <= i < |t| ==> t[i].procID != child
    ensures var t' := t + CopiesFor(t, n, procID, child);
      UniqueKeys(t') && forall i :: |t| <= i < |t'| ==> t'[i].procID == child
  {
    var t' := t + CopiesFor(t, n, procID, child);
    CopiesUnique(t, n, procID, child);
    forall i | |t| <= i < |t'| ensures t'[i].procID == child {
      var j := CopyOf(t, n, procID, child, i - |t|);
    }
  }

  // The table with the copies of the first n, seen at position c: if the parent's descriptor stands
  // there, it is found by its key, and its copy comes next.
  lemma CopiesNext(t: seq<Node>, now: seq<Node>, c: nat, n: nat, n': nat, procID: nat, child: nat)
    requires UniqueKeys(t) && procID != child && forall i :: 0 <= i < |t| ==> t[i].procID != child
    requires n == (if c < |t| then c else |t|) && n' == (if c < |t| then n + 1 else n)
    requires now == t + CopiesFor(t, n, procID, child) && c < |now|
    ensures UniqueKeys(now)
    ensures t + CopiesFor(t, n', procID, child)
         == if now[c].procID == procID then now + [now[c].(procID := child)] else now
    ensures now[c].procID == procID ==> Find(now, procID, now[c].id, 0) == c
  {
    CopiesSoFar(t, n, procID, child);
    if now[c].procID == procID {
      FindIs(now, c);
      assert c < |t| && CopiesFor(t, n', procID, child) == CopiesFor(t, n, procID, child) + [t[c].(procID := child)];
    }
  }

  lemma {:induction false} CopiesGrow(t: seq<Node>, m: nat, n: nat, procID: nat, child: nat)
    requires m <= n <= |t|
    ensures |CopiesFor(t, m, procID, child)| <= |CopiesFor(t, n, procID, child)|
  {
    if m < n { CopiesGrow(t, m, n - 1, procID, child); }
  }

  // One descriptor more does not close any, and opens its own.
  lemma OpenAppended(t: seq<Node>, n: Node)
    ensures IsOpen(t + [n], n.procID, n.id)
    ensures forall p: nat, k: int :: IsOpen(t, p, k) ==> IsOpen(t + [n], p, k)
  {
    assert (t + [n])[|t|] == n;
    forall p: nat, k: int | IsOpen(t, p, k) ensures IsOpen(t + [n], p, k) {
      assert (t + [n])[Find(t, p, k, 0)] == t[Find(t, p, k, 0)];
    }
  }
}

// The table of open nodes as a value: what every operation makes of it, and what all of them keep.
module FileTable {
  const MAX_OPEN_NODES := 500

  datatype Kind = File | Directory | Pipe

  // A descriptor of a task. The inode is the address of the structure behind it: the device's, or the pipe.
  datatype Node = Node(id: int, procID: nat, kind: Kind, inode: nat)

  // The open nodes, and the structures behind them that are allocated; pipes are those that are pipes.
  datatype Files = Files(table: seq<Node>, live: set<nat>, pipes: set<nat>)

  // --- Finding ------------------------------------------------------------------------------

  predicate HasKey(n: Node, procID: nat, id: int) { n.procID == procID && n.id == id }

  // The first descriptor with this id of this task from i on; |t| if there is none.
  function Find(t: seq<Node>, procID: nat, id: int, i: nat): (k: nat)
    requires i <= |t|
    ensures i <= k <= |t| && (k < |t| ==> HasKey(t[k], procID, id))
    ensures forall j :: i <= j < k ==> !HasKey(t[j], procID, id)
    decreases |t| - i
  {
    if i == |t| || HasKey(t[i], procID, id) then i else Find(t, procID, id, i + 1)
  }

  predicate IsOpen(t: seq<Node>, procID: nat, id: int) { Find(t, procID, id, 0) < |t| }

  ghost predicate UniqueKeys(t: seq<Node>) {
    forall i, j :: 0 <= i < j < |t| ==> !HasKey(t[j], t[i].procID, t[i].id)
  }

  lemma FindIs(t: seq<Node>, i: nat)
    requires UniqueKeys(t) && i < |t|
    ensures Find(t, t[i].procID, t[i].id, 0) == i
  {}

  // How many of the first n descriptors have this inode.
  function Sharers(t: seq<Node>, n: nat, p: nat): nat
    requires n <= |t|
  {
    if n == 0 then 0 else Sharers(t, n - 1, p) + if t[n - 1].inode == p then 1 else 0
  }

  // The last of the first n descriptors that has it; 0 if there is none.
  function LastSharer(t: seq<Node>, n: nat, p: nat): (k: nat)
    requires n <= |t|
    ensures Sharers(t, n, p) > 0 ==> k < n && t[k].inode == p
  {
    if n == 0 then 0 else if t[n - 1].inode == p then n - 1 else LastSharer(t, n - 1, p)
  }

  function RemoveAt(t: seq<Node>, i: nat): (r: seq<Node>)
    requires i < |t|
    ensures |r| == |t| - 1 && forall j :: 0 <= j < |r| ==> r[j] == t[if j < i then j else j + 1]
  {
    t[..i] + t[i + 1..]
  }

  lemma {:induction false} SharersSame(a: seq<Node>, b: seq<Node>, n: nat, p: nat)
    requires n <= |a| && n <= |b| && forall j :: 0 <= j < n ==> a[j].inode == b[j].inode
    ensures Sharers(a, n, p) == Sharers(b, n, p)
  {
    if n > 0 { SharersSame(a, b, n - 1, p); }
  }

  lemma {:induction false} SharersRemoved(t: seq<Node>, r: seq<Node>, i: nat, n: nat, p: nat)
    requires i < n <= |t| && |r| == |t| - 1
    requires forall j {:trigger r[j]} :: 0 <= j < |r| ==> r[j] == t[if j < i then j else j + 1]
    ensures Sharers(r, n - 1, p) + (if t[i].inode == p then 1 else 0) == Sharers(t, n, p)
  {
    if i == n - 1 {
      SharersSame(t, r, n - 1, p);
    } else {
      SharersRemoved(t, r, i, n - 1, p);
      assert r[n - 2] == t[n - 1];
    }
  }

  lemma {:induction false} SharersSome(t: seq<Node>, n: nat, i: nat, p: nat)
    requires i < n <= |t| && t[i].inode == p
    ensures Sharers(t, n, p) > 0
    ensures LastSharer(t, n, p) >= i
  {
    if i < n - 1 { SharersSome(t, n - 1, i, p); }
  }

  // --- What is kept -------------------------------------------------------------------------

  // Exactly the pipes' descriptors lead to pipes, and every pipe has two descriptors at least.
  ghost predicate PipesOwned(s: Files) {
    && s.pipes <= s.live
    && (forall i :: 0 <= i < |s.table| ==> (s.table[i].kind.Pipe? <==> s.table[i].inode in s.pipes))
    && forall p :: p in s.pipes ==> Sharers(s.table, |s.table|, p) >= 2
  }

  ghost predicate Inv(s: Files) { |s.table| <= MAX_OPEN_NODES && UniqueKeys(s.table) && PipesOwned(s) }

  // No descriptor leads to a structure that has been freed.
  ghost predicate NoneDangling(s: Files) {
    forall i :: 0 <= i < |s.table| ==> s.table[i].inode in s.live
  }

  // --- close --------------------------------------------------------------------------------

  // closeFile: the descriptor goes. A device's structure is freed at once. A pipe is freed when
  // one descriptor of it would be left, and that one goes too.
  function Close(s: Files, procID: nat, id: int): Files {
    var t := s.table;
    var i := Find(t, procID, id, 0);
    if i == |t| then s
    else
      var n, r := t[i], RemoveAt(t, i);
      if !n.kind.Pipe? then Files(r, s.live - {n.inode}, s.pipes)
      else if Sharers(r, |r|, n.inode) == 1 then
        Files(RemoveAt(r, LastSharer(r, |r|, n.inode)), s.live - {n.inode}, s.pipes - {n.inode})
      else Files(r, s.live, s.pipes)
  }

  // A device's structure that is not allocated any more is freed a second time: kfree does not find it
  // and panics.
  predicate ClosePanics(s: Files, procID: nat, id: int) {
    var i := Find(s.table, procID, id, 0);
    i < |s.table| && !s.table[i].kind.Pipe? && s.table[i].inode !in s.live
  }

  lemma RemovedUnique(t: seq<Node>, i: nat)
    requires UniqueKeys(t) && i < |t|
    ensures UniqueKeys(RemoveAt(t, i))
  {}

  lemma CloseFileOwned(s: Files, i: nat)
    requires PipesOwned(s) && i < |s.table| && !s.table[i].kind.Pipe?
    ensures PipesOwned(Files(RemoveAt(s.table, i), s.live - {s.table[i].inode}, s.pipes))
  {
    var t, r := s.table, RemoveAt(s.table, i);
    forall p | p in s.pipes ensures Sharers(r, |r|, p) >= 2 {
      SharersRemoved(t, r, i, |t|, p);
    }
    assert t[i].inode !in s.pipes;
  }

  lemma ClosePipeOwned(s: Files, i: nat)
    requires PipesOwned(s) && i < |s.table| && s.table[i].kind.Pipe?
    requires Sharers(RemoveAt(s.table, i), |s.table| - 1, s.table[i].inode) != 1
    ensures PipesOwned(Files(RemoveAt(s.table, i), s.live, s.pipes))
  {
    var t, r := s.table, RemoveAt(s.table, i);
    forall p | p in s.pipes ensures Sharers(r, |r|, p) >= 2 {
      SharersRemoved(t, r, i, |t|, p);
    }
  }

  // The table without two descriptors, the second counted after the first has gone.
  function Both(t: seq<Node>, i: nat, k: nat): seq<Node>
    requires i < |t| && k < |t| - 1
  {
    RemoveAt(RemoveAt(t, i), k)
  }

  lemma BothGone(t: seq<Node>, i: nat, k: nat, q: nat, p: nat)
    requires i < |t| && k < |t| - 1 && t[i].inode == q && RemoveAt(t, i)[k].inode == q
    ensures Sharers(Both(t, i, k), |t| - 2, p) + (if p == q then 2 else 0) == Sharers(t, |t|, p)
  {
    SharersRemoved(t, RemoveAt(t, i), i, |t|, p);
    SharersRemoved(RemoveAt(t, i), Both(t, i, k), k, |t| - 1, p);
  }

  lemma OrphanNode(t: seq<Node>, i: nat, k: nat, j: nat) returns (o: nat)
    requires i < |t| && k < |t| - 1 && j < |t| - 2
    ensures o < |t| && Both(t, i, k)[j] == t[o]
  {
    var j1 := if j < k then j else j + 1;
    o := if j1 < i then j1 else j1 + 1;
  }

  lemma CloseOrphanOwned(s: Files, i: nat, k: nat, q: nat)
    requires PipesOwned(s) && i < |s.table| && k < |s.table| - 1 && q == s.table[i].inode && q in s.pipes
    requires RemoveAt(s.table, i)[k].inode == q && Sharers(s.table, |s.table|, q) == 2
    ensures PipesOwned(Files(Both(s.table, i, k), s.live - {q}, s.pipes - {q}))
  {
    var t, last := s.table, Both(s.table, i, k);
    forall p | p in s.pipes - {q} ensures Sharers(last, |last|, p) >= 2 {
      BothGone(t, i, k, q, p);
    }
    BothGone(t, i, k, q, q);
    forall j | 0 <= j < |last| ensures last[j].kind.Pipe? <==> last[j].inode in s.pipes - {q} {
      var o := OrphanNode(t, i, k, j);
      if last[j].inode == q {
        SharersSome(last, |last|, j, q);
      }
    }
  }

  lemma OrphanKeeps(s: Files, i: nat, q: nat)
    requires Inv(s) && i < |s.table| && s.table[i].kind.Pipe? && q == s.table[i].inode
    requires Sharers(RemoveAt(s.table, i), |s.table| - 1, q) == 1
    ensures var r := RemoveAt(s.table, i);
      Inv(Files(RemoveAt(r, LastSharer(r, |r|, q)), s.live - {q}, s.pipes - {q}))
  {
    var r := RemoveAt(s.table, i);
    SharersRemoved(s.table, r, i, |s.table|, q);
    CloseOrphanOwned(s, i, LastSharer(r, |r|, q), q);
    RemovedUnique(s.table, i);
    RemovedUnique(r, LastSharer(r, |r|, q));
  }

  // Closing keeps keys unique and pipes owned, whoever closes what.
  lemma CloseKeeps(s: Files, procID: nat, id: int)
    requires Inv(s)
    ensures Inv(Close(s, procID, id))
  {
    var i, s' := Find(s.table, procID, id, 0), Close(s, procID, id);
    if i < |s.table| {
      var n, r := s.table[i], RemoveAt(s.table, i);
      RemovedUnique(s.table, i);
      if !n.kind.Pipe? {
        assert s' == Files(r, s.live - {n.inode}, s.pipes);
        CloseFileOwned(s, i);
      } else if Sharers(r, |r|, n.inode) == 1 {
        OrphanKeeps(s, i, n.inode);
      } else {
        assert s' == Files(r, s.live, s.pipes);
        ClosePipeOwned(s, i);
      }
    }
  }

  lemma {:induction false} NoSharer(t: seq<Node>, n: nat, p: nat)
    requires n <= |t|
    ensures Sharers(t, n, p) == 0 <==> forall j :: 0 <= j < n ==> t[j].inode != p
  {
    if n > 0 { NoSharer(t, n - 1, p); }
  }

  lemma FreedDangles(t: seq<Node>, r: seq<Node>, i: nat, live: set<nat>, q: nat)
    requires i < |t| && r == RemoveAt(t, i) && forall j :: 0 <= j < |t| ==> t[j].inode in live
    ensures (forall j :: 0 <= j < |r| ==> r[j].inode in live - {q}) <==> Sharers(r, |r|, q) == 0
  {
    NoSharer(r, |r|, q);
    forall j | 0 <= j < |r| ensures r[j].inode in live {
      assert r[j] == t[if j < i then j else j + 1];
    }
  }

  lemma OrphanFreed(s: Files, i: nat, k: nat, q: nat)
    requires NoneDangling(s) && i < |s.table| && k < |s.table| - 1 && q == s.table[i].inode
    requires RemoveAt(s.table, i)[k].inode == q && Sharers(s.table, |s.table|, q) == 2
    ensures NoneDangling(Files(Both(s.table, i, k), s.live - {q}, s.pipes - {q}))
  {
    var last := Both(s.table, i, k);
    BothGone(s.table, i, k, q, q);
    NoSharer(last, |last|, q);
    forall j | 0 <= j < |last| ensures last[j].inode in s.live - {q} {
      var o := OrphanNode(s.table, i, k, j);
    }
  }

  // When nothing dangles, closing leaves it so exactly if no other descriptor shares the closed file's
  // structure; after a fork another one does.
  lemma CloseDangles(s: Files, procID: nat, id: int)
    requires Inv(s) && NoneDangling(s) && IsOpen(s.table, procID, id)
    ensures var n := s.table[Find(s.table, procID, id, 0)];
      NoneDangling(Close(s, procID, id)) <==> n.kind.Pipe? || Sharers(s.table, |s.table|, n.inode) == 1
  {
    var t, i := s.table, Find(s.table, procID, id, 0);
    var n, r := t[i], RemoveAt(t, i);
    SharersRemoved(t, r, i, |t|, n.inode);
    if !n.kind.Pipe? {
      FreedDangles(t, r, i, s.live, n.inode);
    } else if Sharers(r, |r|, n.inode) == 1 {
      OrphanFreed(s, i, LastSharer(r, |r|, n.inode), n.inode);
    }
  }

  // A descriptor other than the one removed stays.
  lemma OtherStays(t: seq<Node>, i: nat, j: nat) returns (j': nat)
    requires UniqueKeys(t) && i < |t| && j < |t| && j != i
    ensures j' < |t| - 1 && RemoveAt(t, i)[j'] == t[j] && IsOpen(RemoveAt(t, i), t[j].procID, t[j].id)
    ensures j' == if j < i then j else j - 1
  {
    j' := if j < i then j else j - 1;
    assert RemoveAt(t, i)[j'] == t[j];
  }

  lemma {:induction false} OnlySharer(t: seq<Node>, n: nat, j: nat, p: nat)
    requires j < n <= |t| && Sharers(t, n, p) == 1
    ensures t[j].inode == p <==> j == LastSharer(t, n, p)
  {
    NoSharer(t, n - 1, p);
    if j < n - 1 && t[n - 1].inode != p { OnlySharer(t, n - 1, j, p); }
  }

  // Of the two others, the orphan goes and the rest stay.
  lemma OrphanGoes(r: seq<Node>, j: nat, q: nat)
    requires UniqueKeys(r) && j < |r| && Sharers(r, |r|, q) == 1
    ensures LastSharer(r, |r|, q) < |r|
    ensures !IsOpen(RemoveAt(r, LastSharer(r, |r|, q)), r[j].procID, r[j].id) <==> r[j].inode == q
  {
    var k := LastSharer(r, |r|, q);
    OnlySharer(r, |r|, j, q);
    if j != k {
      var j2 := OtherStays(r, k, j);
    } else {
      KeyGone(r, k);
    }
  }

  // Another descriptor survives a close unless it is the last partner on the same pipe.
  lemma LastPartner(s: Files, procID: nat, id: int, j: nat)
    requires Inv(s) && IsOpen(s.table, procID, id) && j < |s.table| && j != Find(s.table, procID, id, 0)
    ensures var n, m := s.table[Find(s.table, procID, id, 0)], s.table[j];
      !IsOpen(Close(s, procID, id).table, m.procID, m.id)
      <==> n.kind.Pipe? && m.inode == n.inode && Sharers(s.table, |s.table|, n.inode) == 2
  {
    var t, i, t' := s.table, Find(s.table, procID, id, 0), Close(s, procID, id).table;
    var n, r := t[i], RemoveAt(t, i);
    SharersRemoved(t, r, i, |t|, n.inode);
    RemovedUnique(t, i);
    var j1 := OtherStays(t, i, j);
    if n.kind.Pipe? && Sharers(r, |r|, n.inode) == 1 {
      assert t' == RemoveAt(r, LastSharer(r, |r|, n.inode));
      OrphanGoes(r, j1, n.inode);
    } else {
      assert t' == r;
    }
  }

  lemma KeyGone(t: seq<Node>, k: nat)
    requires UniqueKeys(t) && k < |t|
    ensures !IsOpen(RemoveAt(t, k), t[k].procID, t[k].id)
  {
    var r := RemoveAt(t, k);
    forall j | 0 <= j < |r| ensures !HasKey(r[j], t[k].procID, t[k].id) {
      assert r[j] == t[if j < k then j else j + 1];
    }
  }

  // --- The other operations -----------------------------------------------------------------

  // openFile and openDir, once the node is found.
  function Opened(s: Files, n: Node): Files {
    Files(s.table + [n], s.live + {n.inode}, s.pipes)
  }

  // pipe: a reading and a writing end.
  function Piped(s: Files, procID: nat, id1: int, id2: int, p: nat): Files {
    Files(s.table + [Node(id1, procID, Pipe, p)] + [Node(id2, procID, Pipe, p)], s.live + {p}, s.pipes + {p})
  }

  // The copies of a task's first n descriptors for another task.
  function CopiesFor(t: seq<Node>, n: nat, procID: nat, child: nat): (r: seq<Node>)
    requires n <= |t|
    ensures |r| <= n
  {
    if n == 0 then []
    else
      var r := CopiesFor(t, n - 1, procID, child);
      if t[n - 1].procID == procID then r + [t[n - 1].(procID := child)] else r
  }

  // fork's loop over the table.
  function Forked(s: Files, procID: nat, child: nat): Files {
    s.(table := s.table + CopiesFor(s.table, |s.table|, procID, child))
  }

  // moveNodeDescriptor.
  function Moved(s: Files, procID: nat, id: int, newProcID: nat, newId: int): Files {
    var i := Find(s.table, procID, id, 0);
    if i == |s.table| then s else s.(table := s.table[i := s.table[i].(procID := newProcID, id := newId)])
  }

  // movFileDescriptorTo: what had the new id is closed first.
  function Renamed(s: Files, procID: nat, id: int, newId: int): Files {
    Moved(Close(s, procID, newId), procID, id, procID, newId)
  }

  // closeAllNodeDescriptors.
  function CloseAll(s: Files, procID: nat): Files
    decreases |s.table|
  {
    var i := FirstOf(s.table, procID, 0);
    if i == |s.table| then s
    else
      assert HasKey(s.table[i], procID, s.table[i].id);
      CloseAll(Close(s, procID, s.table[i].id), procID)
  }

  // The first descriptor of a task.
  function FirstOf(t: seq<Node>, procID: nat, i: nat): (k: nat)
    requires i <= |t|
    ensures i <= k <= |t| && (k < |t| ==> t[k].procID == procID)
    ensures forall j :: i <= j < k ==> t[j].procID != procID
    decreases |t| - i
  {
    if i == |t| || t[i].procID == procID then i else FirstOf(t, procID, i + 1)
  }

  lemma {:induction false} CloseAllKeeps(s: Files, procID: nat)
    requires Inv(s)
    ensures Inv(CloseAll(s, procID))
    ensures forall i :: 0 <= i < |CloseAll(s, procID).table| ==> CloseAll(s, procID).table[i].procID != procID
    decreases |s.table|
  {
    var i := FirstOf(s.table, procID, 0);
    if i < |s.table| {
      assert HasKey(s.table[i], procID, s.table[i].id);
      CloseKeeps(s, procID, s.table[i].id);
      CloseAllKeeps(Close(s, procID, s.table[i].id), procID);
    }
  }

  // Whether one of these closes panics.
  predicate CloseAllPanics(s: Files, procID: nat)
    decreases |s.table|
  {
    var i := FirstOf(s.table, procID, 0);
    i < |s.table| &&
      assert HasKey(s.table[i], procID, s.table[i].id);
      (ClosePanics(s, procID, s.table[i].id) || CloseAllPanics(Close(s, procID, s.table[i].id), procID))
  }

  // A file or directory of the task.
  predicate FileOf(n: Node, procID: nat) { n.procID == procID && !n.kind.Pipe? }

  // The task's files have structures that are allocated, each its own.
  ghost predicate FilesSound(t: seq<Node>, live: set<nat>, procID: nat) {
    && (forall i :: 0 <= i < |t| && FileOf(t[i], procID) ==> t[i].inode in live)
    && forall i, j :: 0 <= i < j < |t| && FileOf(t[i], procID) && FileOf(t[j], procID) ==> t[i].inode != t[j].inode
  }

  // The files of r are those of t in their order, t[i] left out.
  lemma SoundWithout(t: seq<Node>, i: nat, live: set<nat>, procID: nat)
    requires i < |t| && FileOf(t[i], procID)
    ensures FilesSound(t, live, procID) <==>
      t[i].inode in live && FilesSound(RemoveAt(t, i), live - {t[i].inode}, procID)
  {
    var r, p := RemoveAt(t, i), t[i].inode;
    if FilesSound(t, live, procID) {
      forall j | 0 <= j < |r| && FileOf(r[j], procID) ensures r[j].inode in live - {p} {
        assert r[j] == t[if j < i then j else j + 1];
      }
    }
    if p in live && FilesSound(r, live - {p}, procID) {
      forall j | 0 <= j < |t| && FileOf(t[j], procID) && j != i ensures t[j].inode in live - {p} {
        assert t[j] == r[if j < i then j else j - 1];
      }
      forall j, k | 0 <= j < k < |t| && FileOf(t[j], procID) && FileOf(t[k], procID) ensures t[j].inode != t[k].inode {
        if j != i && k != i {
          assert t[j] == r[if j < i then j else j - 1] && t[k] == r[if k < i then k else k - 1];
        }
      }
    }
  }

  // A descriptor that is not a file of the task does not matter.
  lemma SoundBeside(t: seq<Node>, i: nat, live: set<nat>, procID: nat)
    requires i < |t| && !FileOf(t[i], procID)
    ensures FilesSound(t, live, procID) <==> FilesSound(RemoveAt(t, i), live, procID)
  {
    var r := RemoveAt(t, i);
    if FilesSound(r, live, procID) {
      forall j | 0 <= j < |t| && FileOf(t[j], procID) ensures t[j].inode in live {
        assert t[j] == r[if j < i then j else j - 1];
      }
      forall j, k | 0 <= j < k < |t| && FileOf(t[j], procID) && FileOf(t[k], procID) ensures t[j].inode != t[k].inode {
        assert t[j] == r[if j < i then j else j - 1] && t[k] == r[if k < i then k else k - 1];
      }
    }
  }

  lemma SoundLive(t: seq<Node>, live: set<nat>, procID: nat, p: nat)
    requires forall i :: 0 <= i < |t| && FileOf(t[i], procID) ==> t[i].inode != p
    ensures FilesSound(t, live, procID) <==> FilesSound(t, live - {p}, procID)
  {}

  // Closing a task's first descriptor without a panic keeps its files sound or unsound.
  lemma CloseSound(s: Files, procID: nat, i: nat)
    requires Inv(s) && i < |s.table| && s.table[i].procID == procID
    ensures var s' := Close(s, procID, s.table[i].id);
      FilesSound(s.table, s.live, procID)
      <==> !ClosePanics(s, procID, s.table[i].id) && FilesSound(s'.table, s'.live, procID)
  {
    var t, n, r := s.table, s.table[i], RemoveAt(s.table, i);
    FindIs(t, i);
    if FileOf(n, procID) {
      SoundWithout(t, i, s.live, procID);
    } else {
      SoundBeside(t, i, s.live, procID);
      if Sharers(r, |r|, n.inode) == 1 {
        SharersRemoved(t, r, i, |t|, n.inode);
        OrphanSound(s, i, LastSharer(r, |r|, n.inode), procID);
      }
    }
  }

  lemma OrphanSound(s: Files, i: nat, k: nat, procID: nat)
    requires PipesOwned(s) && i < |s.table| && k < |s.table| - 1 && s.table[i].kind.Pipe?
    requires RemoveAt(s.table, i)[k].inode == s.table[i].inode
    ensures var r, p := RemoveAt(s.table, i), s.table[i].inode;
      FilesSound(r, s.live, procID) <==> FilesSound(RemoveAt(r, k), s.live - {p}, procID)
  {
    var t, r, p := s.table, RemoveAt(s.table, i), s.table[i].inode;
    forall j | 0 <= j < |r| && r[j].inode == p ensures r[j].kind.Pipe? {
      assert r[j] == t[if j < i then j else j + 1];
    }
    SoundBeside(r, k, s.live, procID);
    forall j | 0 <= j < |r| - 1 && FileOf(RemoveAt(r, k)[j], procID) ensures RemoveAt(r, k)[j].inode != p {
      assert RemoveAt(r, k)[j] == r[if j < k then j else j + 1];
    }
    SoundLive(RemoveAt(r, k), s.live, procID, p);
  }

  // Closing all of a task's descriptors does without a panic exactly if none of its files
  // dangles and no two of them share a structure.
  lemma {:induction false} CloseAllPanicsIff(s: Files, procID: nat)
    requires Inv(s)
    ensures CloseAllPanics(s, procID) <==> !FilesSound(s.table, s.live, procID)
    decreases |s.table|
  {
    var i := FirstOf(s.table, procID, 0);
    if i < |s.table| {
      assert HasKey(s.table[i], procID, s.table[i].id);
      CloseSound(s, procID, i);
      CloseKeeps(s, procID, s.table[i].id);
      CloseAllPanicsIff(Close(s, procID, s.table[i].id), procID);
    }
  }

  // A file is opened, its task forks, and closes it: now the child's close panics, and so does its end.
  lemma SharedFileIsFreedTwice(inode: nat)
    ensures var s := Close(Forked(Files([Node(1, 10, File, inode)], {inode}, {}), 10, 11), 10, 1);
      && Inv(s) && s == Files([Node(1, 11, File, inode)], {}, {})
      && ClosePanics(s, 11, 1) && CloseAllPanics(s, 11) && !NoneDangling(s)
  {
    var n, c := Node(1, 10, File, inode), Node(1, 11, File, inode);
    var s0 := Files([n], {inode}, {});
    assert CopiesFor([n], 0, 10, 11) == [];
    assert CopiesFor([n], 1, 10, 11) == [c];
    assert Forked(s0, 10, 11) == Files([n, c], {inode}, {});
    assert Find([n, c], 10, 1, 0) == 0;
    assert RemoveAt([n, c], 0) == [c];
    var s := Files([c], {}, {});
    assert Close(Forked(s0, 10, 11), 10, 1) == s;
    assert Find([c], 11, 1, 0) == 0 && s.table[0] == c;
    CloseAllPanicsIff(s, 11);
    assert FileOf(s.table[0], 11);
  }

  lemma OpenedKeeps(s: Files, n: Node)
    requires Inv(s) && |s.table| < MAX_OPEN_NODES && !n.kind.Pipe? && n.inode !in s.live
    requires !IsOpen(s.table, n.procID, n.id)
    ensures Inv(Opened(s, n))
  {
    forall p | p in s.pipes ensures Sharers(s.table + [n], |s.table| + 1, p) >= 2 {
      SharersSame(s.table, s.table + [n], |s.table|, p);
    }
  }

  // A free address that no descriptor leads to.
  ghost predicate Unheld(s: Files, p: nat) {
    p !in s.live && forall i :: 0 <= i < |s.table| ==> s.table[i].inode != p
  }

  // A new pipe keeps the invariant exactly if no descriptor, left over from a freed structure, leads
  // to its address already: that one would count as a partner.
  lemma PipedKeeps(s: Files, procID: nat, id1: int, id2: int, p: nat)
    requires Inv(s) && |s.table| + 2 <= MAX_OPEN_NODES && p !in s.live
    requires id1 != id2 && !IsOpen(s.table, procID, id1) && !IsOpen(s.table, procID, id2)
    ensures Inv(Piped(s, procID, id1, id2, p)) <==> Unheld(s, p)
  {
    var s' := Piped(s, procID, id1, id2, p);
    var t' := s'.table;
    forall i | 0 <= i < |s.table| ensures t'[i] == s.table[i] {}
    if Unheld(s, p) {
      forall q | q in s.pipes + {p} ensures Sharers(t', |t'|, q) >= 2 {
        SharersSame(s.table, t', |s.table|, q);
        assert Sharers(t', |t'|, q) == Sharers(t', |s.table|, q) + if q == p then 2 else 0;
      }
    } else {
      var i :| 0 <= i < |s.table| && s.table[i].inode == p;
      assert !s.table[i].kind.Pipe? && t'[i].inode in s'.pipes;
    }
  }

  lemma {:induction false} CopyOf(t: seq<Node>, n: nat, procID: nat, child: nat, k: nat) returns (j: nat)
    requires n <= |t| && k < |CopiesFor(t, n, procID, child)|
    ensures j < n && t[j].procID == procID && CopiesFor(t, n, procID, child)[k] == t[j].(procID := child)
  {
    if k < |CopiesFor(t, n - 1, procID, child)| {
      j := CopyOf(t, n - 1, procID, child, k);
    } else {
      j := n - 1;
    }
  }

  lemma {:induction false} CopyAt(t: seq<Node>, n: nat, procID: nat, child: nat, j: nat) returns (k: nat)
    requires j < n <= |t| && t[j].procID == procID
    ensures k < |CopiesFor(t, n, procID, child)| && CopiesFor(t, n, procID, child)[k] == t[j].(procID := child)
  {
    if j < n - 1 {
      k := CopyAt(t, n - 1, procID, child, j);
    } else {
      k := |CopiesFor(t, n - 1, procID, child)|;
    }
  }

  lemma {:induction false} CopiesUnique(t: seq<Node>, n: nat, procID: nat, child: nat)
    requires UniqueKeys(t) && n <= |t|
    ensures UniqueKeys(CopiesFor(t, n, procID, child))
  {
    if n > 0 {
      CopiesUnique(t, n - 1, procID, child);
      var front := CopiesFor(t, n - 1, procID, child);
      forall k | 0 <= k < |front| && t[n - 1].procID == procID ensures front[k].id != t[n - 1].id {
        var j := CopyOf(t, n - 1, procID, child, k);
      }
    }
  }

  lemma {:induction false} SharersMore(t: seq<Node>, m: nat, n: nat, p: nat)
    requires m <= n <= |t|
    ensures Sharers(t, m, p) <= Sharers(t, n, p)
  {
    if m < n { SharersMore(t, m, n - 1, p); }
  }

  lemma ForkedKeeps(s: Files, procID: nat, child: nat)
    requires Inv(s) && (forall i :: 0 <= i < |s.table| ==> s.table[i].procID != child)
    requires |Forked(s, procID, child).table| <= MAX_OPEN_NODES
    ensures Inv(Forked(s, procID, child))
  {
    var t, copies := s.table, CopiesFor(s.table, |s.table|, procID, child);
    var t' := t + copies;
    CopiesUnique(t, |t|, procID, child);
    forall i | 0 <= i < |t'|
      ensures (t'[i].kind.Pipe? <==> t'[i].inode in s.pipes) && (i >= |t| ==> t'[i].procID == child)
    {
      if i >= |t| {
        var j := CopyOf(t, |t|, procID, child, i - |t|);
      }
    }
    forall p | p in s.pipes ensures Sharers(t', |t'|, p) >= 2 {
      SharersSame(t, t', |t|, p);
      SharersMore(t', |t|, |t'|, p);
    }
  }

  // The child has exactly the parent's ids, each leading where the parent's does, and the
  // parent has kept them.
  lemma ForkedIds(s: Files, procID: nat, child: nat, id: int)
    requires UniqueKeys(s.table) && procID != child && forall i :: 0 <= i < |s.table| ==> s.table[i].procID != child
    ensures var t, t' := s.table, Forked(s, procID, child).table;
      var i, k := Find(t, procID, id, 0), Find(t', child, id, 0);
      && (k < |t'| <==> i < |t|)
      && (i < |t| ==> t'[k] == t[i].(procID := child) && Find(t', procID, id, 0) == i && t'[i] == t[i])
  {
    var t, copies := s.table, CopiesFor(s.table, |s.table|, procID, child);
    var t' := t + copies;
    var i, k := Find(t, procID, id, 0), Find(t', child, id, 0);
    if k < |t'| {
      assert k >= |t|;
      var j := CopyOf(t, |t|, procID, child, k - |t|);
    }
    if i < |t| {
      var c := CopyAt(t, |t|, procID, child, i);
      assert t'[|t| + c] == t[i].(procID := child);
      FindFirst(t', i, procID, id);
    }
  }

  lemma FindFirst(t: seq<Node>, i: nat, procID: nat, id: int)
    requires i < |t| && HasKey(t[i], procID, id) && forall j :: 0 <= j < i ==> !HasKey(t[j], procID, id)
    ensures Find(t, procID, id, 0) == i
  {}

  // moveNodeDescriptor keeps keys unique exactly if the new key was not taken by another descriptor.
  lemma MovedUniqueIff(s: Files, procID: nat, id: int, newProcID: nat, newId: int)
    requires UniqueKeys(s.table) && IsOpen(s.table, procID, id)
    ensures UniqueKeys(Moved(s, procID, id, newProcID, newId).table)
       <==> !IsOpen(s.table, newProcID, newId) || (newProcID == procID && newId == id)
  {
    var t, i := s.table, Find(s.table, procID, id, 0);
    var t', j := Moved(s, procID, id, newProcID, newId).table, Find(s.table, newProcID, newId, 0);
    if j < |t| && j != i {
      assert HasKey(t'[j], t'[i].procID, t'[i].id) && HasKey(t'[i], t'[j].procID, t'[j].id);
    } else {
      forall k, l | 0 <= k < l < |t'| ensures !HasKey(t'[l], t'[k].procID, t'[k].id) {
        assert !HasKey(t[l], t[k].procID, t[k].id);
      }
    }
  }

  lemma MovedKeeps(s: Files, procID: nat, id: int, newProcID: nat, newId: int)
    requires Inv(s)
    requires IsOpen(s.table, newProcID, newId) ==> !IsOpen(s.table, procID, id) || (newProcID == procID && newId == id)
    ensures Inv(Moved(s, procID, id, newProcID, newId))
  {
    if IsOpen(s.table, procID, id) {
      MovedUniqueIff(s, procID, id, newProcID, newId);
      var t' := Moved(s, procID, id, newProcID, newId).table;
      forall p | p in s.pipes ensures Sharers(t', |t'|, p) >= 2 {
        SharersSame(s.table, t', |t'|, p);
      }
    }
  }

  lemma StillGone(t: seq<Node>, k: nat, procID: nat, id: int)
    requires k < |t| && !IsOpen(t, procID, id)
    ensures !IsOpen(RemoveAt(t, k), procID, id)
  {
    var r := RemoveAt(t, k);
    forall j | 0 <= j < |r| ensures !HasKey(r[j], procID, id) {
      assert r[j] == t[if j < k then j else j + 1];
    }
  }

  lemma Closed(s: Files, procID: nat, id: int)
    requires Inv(s)
    ensures !IsOpen(Close(s, procID, id).table, procID, id)
  {
    var t, i := s.table, Find(s.table, procID, id, 0);
    if i < |t| {
      var n, r := t[i], RemoveAt(t, i);
      KeyGone(t, i);
      if n.kind.Pipe? && Sharers(r, |r|, n.inode) == 1 {
        StillGone(r, LastSharer(r, |r|, n.inode), procID, id);
      }
    }
  }

  // movFileDescriptorTo keeps everything without any condition.
  lemma RenamedKeeps(s: Files, procID: nat, id: int, newId: int)
    requires Inv(s)
    ensures Inv(Renamed(s, procID, id, newId))
  {
    CloseKeeps(s, procID, newId);
    Closed(s, procID, newId);
    MovedKeeps(Close(s, procID, newId), procID, id, procID, newId);
  }

  // Afterwards the new id leads where the old one did, unless they are the same, or what had the new id
  // was the only partner of the old one on its pipe. Then the new id leads nowhere.
  lemma RenamedLeads(s: Files, procID: nat, id: int, newId: int)
    requires Inv(s) && IsOpen(s.table, procID, id)
    ensures var t, t' := s.table, Renamed(s, procID, id, newId).table;
      var m, i, k := t[Find(t, procID, id, 0)], Find(t, procID, newId, 0), Find(t', procID, newId, 0);
      var lost := id == newId || (i < |t| && t[i].kind.Pipe? && t[i].inode == m.inode && Sharers(t, |t|, m.inode) == 2);
      && (k < |t'| <==> !lost)
      && (!lost ==> t'[k].inode == m.inode && t'[k].kind == m.kind)
  {
    var c := Close(s, procID, newId);
    CloseKeeps(s, procID, newId);
    Closed(s, procID, newId);
    if id != newId {
      if IsOpen(s.table, procID, newId) {
        LastPartner(s, procID, newId, Find(s.table, procID, id, 0));
      }
      if IsOpen(c.table, procID, id) {
        CloseSame(s, procID, newId, procID, id);
        MovedKeeps(c, procID, id, procID, newId);
        var t' := Renamed(s, procID, id, newId).table;
        FindIs(t', Find(c.table, procID, id, 0));
      }
    }
  }

  // A descriptor that survives a close is the one that it was.
  lemma CloseSame(s: Files, procID: nat, id: int, p: nat, k: int)
    requires Inv(s) && IsOpen(Close(s, procID, id).table, p, k)
    ensures IsOpen(s.table, p, k)
    ensures var t, t' := s.table, Close(s, procID, id).table; t'[Find(t', p, k, 0)] == t[Find(t, p, k, 0)]
  {
    var t, t', i := s.table, Close(s, procID, id).table, Find(s.table, procID, id, 0);
    var j := Find(t', p, k, 0);
    if i < |t| {
      var n, r := t[i], RemoveAt(t, i);
      var o;
      if n.kind.Pipe? && Sharers(r, |r|, n.inode) == 1 {
        o := OrphanNode(t, i, LastSharer(r, |r|, n.inode), j);
      } else {
        o := if j < i then j else j + 1;
      }
      assert t'[j] == t[o];
      FindIs(t, o);
    }
  }

  // A pipe is freed by the close of one of its last two descriptors and by nothing else, and then no
  // descriptor leads to it.
  lemma PipeFreedIff(s: Files, procID: nat, id: int, p: nat)
    requires Inv(s) && p in s.pipes && IsOpen(s.table, procID, id)
    ensures var n, s' := s.table[Find(s.table, procID, id, 0)], Close(s, procID, id);
      && (p !in s'.pipes <==> n.inode == p && Sharers(s.table, |s.table|, p) == 2)
      && (p !in s'.pipes <==> p !in s'.live)
      && (p !in s'.pipes ==> forall j :: 0 <= j < |s'.table| ==> s'.table[j].inode != p)
  {
    var t, i, s' := s.table, Find(s.table, procID, id, 0), Close(s, procID, id);
    var n, r := t[i], RemoveAt(t, i);
    SharersRemoved(t, r, i, |t|, n.inode);
    if !n.kind.Pipe? {
      assert n.inode != p && s' == Files(r, s.live - {n.inode}, s.pipes);
    } else if Sharers(r, |r|, n.inode) == 1 {
      var k := LastSharer(r, |r|, n.inode);
      assert s' == Files(Both(t, i, k), s.live - {n.inode}, s.pipes - {n.inode});
      BothGone(t, i, k, n.inode, n.inode);
      NoSharer(s'.table, |s'.table|, n.inode);
    } else {
      assert s' == Files(r, s.live, s.pipes);
    }
  }

  // --- Runs ---------------------------------------------------------------------------------

  datatype Op =
    | OpenOne(n: Node)
    | MakePipe(procID: nat, id1: int, id2: int, p: nat)
    | ForkTo(procID: nat, child: nat)
    | CloseOne(procID: nat, id: int)
    | CloseTask(procID: nat)
    | Move(procID: nat, id: int, newProcID: nat, newId: int)
    | Rename(procID: nat, id: int, newId: int)

  // There is room, ids are unused, a child is new, and new structures are not where live ones are.
  ghost predicate Allowed(s: Files, op: Op) {
    match op
    case OpenOne(n) =>
      && |s.table| < MAX_OPEN_NODES && !n.kind.Pipe?
      && n.inode !in s.live && !IsOpen(s.table, n.procID, n.id)
    case MakePipe(procID, id1, id2, p) =>
      && |s.table| + 2 <= MAX_OPEN_NODES && p !in s.live
      && id1 != id2 && !IsOpen(s.table, procID, id1) && !IsOpen(s.table, procID, id2)
    case ForkTo(procID, child) =>
      && (forall i :: 0 <= i < |s.table| ==> s.table[i].procID != child)
      && |Forked(s, procID, child).table| <= MAX_OPEN_NODES
    case _ => true
  }

  // A new pipe gets no address that a descriptor is left with, and nothing is moved onto another
  // descriptor's key.
  ghost predicate Harmless(s: Files, op: Op) {
    match op
    case MakePipe(_, _, _, p) => Unheld(s, p)
    case Move(procID, id, newProcID, newId) =>
      IsOpen(s.table, procID, id) && IsOpen(s.table, newProcID, newId) ==> newProcID == procID && newId == id
    case _ => true
  }

  function Apply(s: Files, op: Op): Files {
    match op
    case OpenOne(n) => Opened(s, n)
    case MakePipe(procID, id1, id2, p) => Piped(s, procID, id1, id2, p)
    case ForkTo(procID, child) => Forked(s, procID, child)
    case CloseOne(procID, id) => Close(s, procID, id)
    case CloseTask(procID) => CloseAll(s, procID)
    case Move(procID, id, newProcID, newId) => Moved(s, procID, id, newProcID, newId)
    case Rename(procID, id, newId) => Renamed(s, procID, id, newId)
  }

  lemma StepIff(s: Files, op: Op)
    requires Inv(s) && Allowed(s, op)
    ensures Inv(Apply(s, op)) <==> Harmless(s, op)
  {
    match op
    case OpenOne(n) => OpenedKeeps(s, n);
    case MakePipe(procID, id1, id2, p) => PipedKeeps(s, procID, id1, id2, p);
    case ForkTo(procID, child) => ForkedKeeps(s, procID, child);
    case CloseOne(procID, id) => CloseKeeps(s, procID, id);
    case CloseTask(procID) => CloseAllKeeps(s, procID);
    case Move(procID, id, newProcID, newId) =>
      if Harmless(s, op) {
        MovedKeeps(s, procID, id, newProcID, newId);
      } else {
        MovedUniqueIff(s, procID, id, newProcID, newId);
      }
    case Rename(procID, id, newId) => RenamedKeeps(s, procID, id, newId);
  }

  function ApplyAll(ops: seq<Op>): Files {
    if ops == [] then Files([], {}, {}) else Apply(ApplyAll(ops[..|ops| - 1]), ops[|ops| - 1])
  }

  ghost predicate AllowedRun(ops: seq<Op>) {
    ops != [] ==>
      var n := |ops| - 1;
      AllowedRun(ops[..n]) && Allowed(ApplyAll(ops[..n]), ops[n])
  }

  ghost predicate HarmlessRun(ops: seq<Op>) {
    ops != [] ==>
      var n := |ops| - 1;
      HarmlessRun(ops[..n]) && Harmless(ApplyAll(ops[..n]), ops[n])
  }

  // The invariant holds at every point of the run.
  ghost predicate HoldsThroughout(ops: seq<Op>) {
    Inv(ApplyAll(ops)) && (ops != [] ==> HoldsThroughout(ops[..|ops| - 1]))
  }

  // Over a run from the empty table, keys stay unique, and exactly the live pipes have descriptors of
  // their kind, each of them at least two, if and only if every step is harmless.
  lemma {:induction false} Reachable(ops: seq<Op>)
    requires AllowedRun(ops)
    ensures HoldsThroughout(ops) <==> HarmlessRun(ops)
  {
    if ops == [] {
    } else {
      var n, before := |ops| - 1, ApplyAll(ops[..|ops| - 1]);
      Reachable(ops[..n]);
      if Inv(before) {
        StepIff(before, ops[n]);
      }
    }
  }
}

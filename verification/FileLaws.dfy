// What every operation does to the table of open nodes, descriptor by descriptor. Keys are unique, so
// which descriptors are there says where every key leads.
module FileLaws {
  import opened FileTable

  // The key of n leads to n.
  ghost predicate LeadsTo(t: seq<Node>, n: Node) {
    IsOpen(t, n.procID, n.id) && t[Find(t, n.procID, n.id, 0)] == n
  }

  // So it does, and every other key leads where it led.
  ghost predicate OnlyNew(t: seq<Node>, t': seq<Node>, n: Node) {
    && LeadsTo(t', n)
    && forall p: nat, k: int :: !HasKey(n, p, k) ==> SameKey(t, t', p, k)
  }

  ghost predicate SameKey(t: seq<Node>, t': seq<Node>, p: nat, k: int) {
    && (IsOpen(t', p, k) <==> IsOpen(t, p, k))
    && (IsOpen(t, p, k) ==> t'[Find(t', p, k, 0)] == t[Find(t, p, k, 0)])
  }

  lemma Appended(t: seq<Node>, n: Node)
    requires !IsOpen(t, n.procID, n.id)
    ensures OnlyNew(t, t + [n], n)
  {
    var t' := t + [n];
    FindFirst(t', |t|, n.procID, n.id);
    forall p: nat, k: int | !HasKey(n, p, k) ensures SameKey(t, t', p, k) {
      if IsOpen(t, p, k) {
        FindFirst(t', Find(t, p, k, 0), p, k);
      }
    }
  }

  lemma AppendedTwo(t: seq<Node>, n: Node, m: Node)
    requires !IsOpen(t, n.procID, n.id) && !IsOpen(t, m.procID, m.id) && !HasKey(n, m.procID, m.id)
    ensures var t' := t + [n] + [m];
      && LeadsTo(t', n) && LeadsTo(t', m)
      && forall p: nat, k: int :: !HasKey(n, p, k) && !HasKey(m, p, k) ==> SameKey(t, t', p, k)
  {
    var mid := t + [n];
    Appended(t, n);
    assert SameKey(t, mid, m.procID, m.id);
    Appended(mid, m);
    assert SameKey(mid, mid + [m], n.procID, n.id);
    forall p: nat, k: int | !HasKey(n, p, k) && !HasKey(m, p, k) ensures SameKey(t, mid + [m], p, k) {
      assert SameKey(t, mid, p, k) && SameKey(mid, mid + [m], p, k);
    }
  }

  // --- The descriptors as a set -------------------------------------------------------------

  lemma KeyOf(t: seq<Node>, n: Node)
    requires UniqueKeys(t) && n in t
    ensures IsOpen(t, n.procID, n.id) && t[Find(t, n.procID, n.id, 0)] == n
  {
    var i :| 0 <= i < |t| && t[i] == n;
    FindIs(t, i);
  }

  lemma RemovedMember(t: seq<Node>, i: nat, x: Node)
    requires UniqueKeys(t) && i < |t|
    ensures x in RemoveAt(t, i) <==> x in t && x != t[i]
  {
    var r := RemoveAt(t, i);
    if x in r {
      var j :| 0 <= j < |r| && r[j] == x;
      assert r[j] == t[if j < i then j else j + 1];
    }
    if x in t && x != t[i] {
      var j :| 0 <= j < |t| && t[j] == x;
      assert r[if j < i then j else j - 1] == x;
    }
  }

  // No descriptors but these two have the inode of n.
  ghost predicate Pair(t: seq<Node>, n: Node, x: Node) {
    forall y :: y in t && y.inode == n.inode ==> y == n || y == x
  }

  // The descriptor x is n's only partner on a pipe.
  ghost predicate Orphaned(t: seq<Node>, n: Node, x: Node) {
    n.kind.Pipe? && x.inode == n.inode && Pair(t, n, x)
  }

  // A single descriptor has the inode exactly if its sharers are counted as one.
  lemma OneSharer(r: seq<Node>, k: nat, q: nat)
    requires UniqueKeys(r) && k < |r| && r[k].inode == q
    ensures Sharers(r, |r|, q) == 1 <==> forall y :: y in r && y.inode == q ==> y == r[k]
  {
    var rest := RemoveAt(r, k);
    SharersRemoved(r, rest, k, |r|, q);
    NoSharer(rest, |rest|, q);
    forall y ensures y in rest <==> y in r && y != r[k] {
      RemovedMember(r, k, y);
    }
    if Sharers(r, |r|, q) == 1 {
      forall y | y in r && y.inode == q ensures y == r[k] {
        assert y in rest ==> y.inode != q;
      }
    }
    if forall y :: y in r && y.inode == q ==> y == r[k] {
      forall j | 0 <= j < |rest| ensures rest[j].inode != q {
        assert rest[j] in rest;
      }
    }
  }

  // --- Closing ------------------------------------------------------------------------------

  // Closing takes away the descriptor, and its only partner if it was a pipe's, and nothing else.
  lemma CloseIs(s: Files, procID: nat, id: int, x: Node)
    requires Inv(s) && IsOpen(s.table, procID, id)
    ensures var n := s.table[Find(s.table, procID, id, 0)];
      x in Close(s, procID, id).table <==> x in s.table && x != n && !Orphaned(s.table, n, x)
  {
    var t, i := s.table, Find(s.table, procID, id, 0);
    var n, r := t[i], RemoveAt(t, i);
    RemovedMember(t, i, x);
    RemovedUnique(t, i);
    forall y ensures y in r <==> y in t && y != n {
      RemovedMember(t, i, y);
    }
    if n.kind.Pipe? && Sharers(r, |r|, n.inode) == 1 {
      var k := LastSharer(r, |r|, n.inode);
      OneSharer(r, k, n.inode);
      RemovedMember(r, k, x);
      assert x in r ==> (x == r[k] <==> Orphaned(t, n, x));
    } else if n.kind.Pipe? && x in r && x.inode == n.inode {
      var k :| 0 <= k < |r| && r[k] == x;
      OneSharer(r, k, n.inode);
    }
  }

  // The structures that it frees: a file's at once, and a pipe's with the partner.
  lemma CloseFrees(s: Files, procID: nat, id: int)
    requires Inv(s) && IsOpen(s.table, procID, id)
    ensures var n, s' := s.table[Find(s.table, procID, id, 0)], Close(s, procID, id);
      && (!n.kind.Pipe? ==> s'.live == s.live - {n.inode} && s'.pipes == s.pipes)
      && (n.kind.Pipe? ==> s'.live == s.live - (s.pipes - s'.pipes) && s.pipes - {n.inode} <= s'.pipes <= s.pipes)
  {
    var t, i := s.table, Find(s.table, procID, id, 0);
    assert t[i].kind.Pipe? ==> t[i].inode in s.pipes;
  }

  // --- Closing all of a task's --------------------------------------------------------------

  // Some descriptor of the task has the inode.
  ghost predicate Touches(t: seq<Node>, procID: nat, p: nat) {
    exists n :: n in t && n.procID == procID && n.inode == p
  }

  // The pipe's other descriptors are all the task's, and it has one at least.
  ghost predicate LeftAlone(t: seq<Node>, procID: nat, x: Node) {
    && x.kind.Pipe? && Touches(t, procID, x.inode)
    && forall y :: y in t && y != x && y.inode == x.inode ==> y.procID == procID
  }

  lemma SameKind(s: Files, x: Node, y: Node)
    requires PipesOwned(s) && x in s.table && y in s.table && x.inode == y.inode
    ensures x.kind.Pipe? <==> y.kind.Pipe?
  {
    var i :| 0 <= i < |s.table| && s.table[i] == x;
    var j :| 0 <= j < |s.table| && s.table[j] == y;
  }

  // A descriptor of another pipe, or of none, is not concerned.
  lemma AlonePipe(t: seq<Node>, t': seq<Node>, procID: nat, x: Node)
    requires x in t && forall y: Node :: y.inode == x.inode ==> (y in t' <==> y in t)
    ensures LeftAlone(t, procID, x) <==> LeftAlone(t', procID, x)
  {
    if Touches(t, procID, x.inode) {
      var y :| y in t && y.procID == procID && y.inode == x.inode;
      assert y in t';
    }
    if Touches(t', procID, x.inode) {
      var y :| y in t' && y.procID == procID && y.inode == x.inode;
      assert y in t;
    }
  }

  // On the pipe of n others than x are left, or there were none.
  lemma AloneBeside(t: seq<Node>, t': seq<Node>, n: Node, x: Node)
    requires n in t && x in t && x.inode == n.inode && x.procID != n.procID && n.kind.Pipe? && x.kind.Pipe?
    requires !Pair(t, n, x)
    requires forall y: Node :: y.inode == n.inode ==> (y in t' <==> y in t && y != n)
    ensures LeftAlone(t, n.procID, x) <==> LeftAlone(t', n.procID, x)
  {
    var z :| z in t && z.inode == n.inode && z != n && z != x;
    assert z in t' && Touches(t, n.procID, x.inode);
    if z.procID == n.procID {
      assert Touches(t', n.procID, x.inode);
    }
  }

  // Closing one descriptor n of the task leaves another task's x alone or not as before.
  lemma LeftAloneStep(s: Files, n: Node, x: Node)
    requires Inv(s) && n in s.table && x in s.table && x.procID != n.procID
    ensures var t, t' := s.table, Close(s, n.procID, n.id).table;
      && (x !in t' ==> LeftAlone(t, n.procID, x))
      && (x in t' ==> (LeftAlone(t, n.procID, x) <==> LeftAlone(t', n.procID, x)))
  {
    var t, t', q := s.table, Close(s, n.procID, n.id).table, n.procID;
    KeyOf(t, n);
    forall y: Node ensures y in t' <==> y in t && y != n && !Orphaned(t, n, y) {
      CloseIs(s, q, n.id, y);
    }
    if x.inode != n.inode {
      AlonePipe(t, t', q, x);
    } else {
      SameKind(s, x, n);
      if x !in t' {
        assert Touches(t, q, x.inode);
      } else if x.kind.Pipe? {
        forall y: Node | y.inode == n.inode ensures y in t' <==> y in t && y != n {
          if y in t && y != n && y != x { assert !Pair(t, n, y); }
        }
        AloneBeside(t, t', n, x);
      }
    }
  }

  // Closing all of a task's descriptors takes away these, and another task's only if they leave it
  // alone on its pipe.
  lemma {:induction false} CloseAllIs(s: Files, procID: nat, x: Node)
    requires Inv(s)
    ensures x in CloseAll(s, procID).table <==> x in s.table && x.procID != procID && !LeftAlone(s.table, procID, x)
    decreases |s.table|
  {
    var t, i := s.table, FirstOf(s.table, procID, 0);
    if i == |t| {
      forall y | y in t ensures y.procID != procID {
        var j :| 0 <= j < |t| && t[j] == y;
      }
    } else {
      var n := t[i];
      assert HasKey(n, procID, n.id);
      KeyOf(t, n);
      var s' := Close(s, procID, n.id);
      CloseKeeps(s, procID, n.id);
      CloseIs(s, procID, n.id, x);
      CloseAllIs(s', procID, x);
      if x in t && x.procID != procID {
        LeftAloneStep(s, n, x);
      }
    }
  }

  // The files of a task.
  function FilesOf(t: seq<Node>, procID: nat): set<nat> {
    set n | n in t && n.procID == procID && !n.kind.Pipe? :: n.inode
  }

  // The structures that this frees are those of the task's files, and those of the pipes that go.
  lemma {:induction false} CloseAllFrees(s: Files, procID: nat)
    requires Inv(s)
    ensures var s' := CloseAll(s, procID);
      s'.pipes <= s.pipes && s'.live == s.live - FilesOf(s.table, procID) - (s.pipes - s'.pipes)
    decreases |s.table|
  {
    var t, i := s.table, FirstOf(s.table, procID, 0);
    if i == |t| {
      forall y | y in t ensures y.procID != procID {
        var j :| 0 <= j < |t| && t[j] == y;
      }
      assert FilesOf(t, procID) == {};
    } else {
      var n := t[i];
      assert HasKey(n, procID, n.id);
      KeyOf(t, n);
      var s1 := Close(s, procID, n.id);
      CloseKeeps(s, procID, n.id);
      CloseFrees(s, procID, n.id);
      CloseAllFrees(s1, procID);
      FilesLess(s, n);
    }
  }

  lemma FilesLess(s: Files, n: Node)
    requires Inv(s) && n in s.table
    ensures var t' := Close(s, n.procID, n.id).table;
      FilesOf(s.table, n.procID) == FilesOf(t', n.procID) + if n.kind.Pipe? then {} else {n.inode}
  {
    var t, t' := s.table, Close(s, n.procID, n.id).table;
    KeyOf(t, n);
    forall y ensures y in t' <==> y in t && y != n && !Orphaned(t, n, y) {
      CloseIs(s, n.procID, n.id, y);
    }
    forall y | y in t && Orphaned(t, n, y) ensures y.kind.Pipe? {
      SameKind(s, y, n);
    }
  }

  // --- The other operations -----------------------------------------------------------------

  // A descriptor gets another key.
  lemma MoveIs(s: Files, procID: nat, id: int, newProcID: nat, newId: int, x: Node)
    requires UniqueKeys(s.table) && IsOpen(s.table, procID, id)
    ensures var n := s.table[Find(s.table, procID, id, 0)];
      x in Moved(s, procID, id, newProcID, newId).table <==>
        (x in s.table && x != n) || x == n.(procID := newProcID, id := newId)
  {
    var t, i := s.table, Find(s.table, procID, id, 0);
    var t' := Moved(s, procID, id, newProcID, newId).table;
    if x in t' {
      var j :| 0 <= j < |t'| && t'[j] == x;
      if j != i {
        assert t[j] == x && !HasKey(t[j], t[i].procID, t[i].id) by {
          assert UniqueKeys(t);
        }
      }
    }
    if x in t && x != t[i] {
      var j :| 0 <= j < |t| && t[j] == x;
      assert t'[j] == x;
    }
    assert t'[i] == t[i].(procID := newProcID, id := newId);
  }

  // fork: the old descriptors, and for each of the parent's one of the child's.
  lemma ForkIs(s: Files, procID: nat, child: nat, x: Node)
    ensures x in Forked(s, procID, child).table <==>
      x in s.table || (x.procID == child && x.(procID := procID) in s.table)
  {
    var t, copies := s.table, CopiesFor(s.table, |s.table|, procID, child);
    if x in copies {
      var k :| 0 <= k < |copies| && copies[k] == x;
      var j := CopyOf(t, |t|, procID, child, k);
      assert t[j] == x.(procID := procID);
    }
    if x.procID == child && x.(procID := procID) in t {
      var j :| 0 <= j < |t| && t[j] == x.(procID := procID);
      var k := CopyAt(t, |t|, procID, child, j);
      assert copies[k] == x;
    }
  }

  // dup: what had the new id goes first, perhaps with its partner; then the descriptor gets the new id.
  lemma RenameIs(s: Files, procID: nat, id: int, newId: int, x: Node)
    requires Inv(s)
    ensures var t := s.table;
      var n, o := Find(t, procID, id, 0), Find(t, procID, newId, 0);
      x in Renamed(s, procID, id, newId).table <==>
        if n < |t| && Stays(t, o, t[n]) then (Stays(t, o, x) && x != t[n]) || x == t[n].(id := newId)
        else Stays(t, o, x)
  {
    var t, c := s.table, Close(s, procID, newId);
    var n, o := Find(t, procID, id, 0), Find(t, procID, newId, 0);
    CloseKeeps(s, procID, newId);
    forall y ensures y in c.table <==> Stays(t, o, y) {
      if o < |t| { CloseIs(s, procID, newId, y); }
    }
    if IsOpen(c.table, procID, id) {
      var m := c.table[Find(c.table, procID, id, 0)];
      assert m in c.table;
      KeyOf(t, m);
      MoveIs(c, procID, id, procID, newId, x);
    } else if n < |t| && Stays(t, o, t[n]) {
      KeyOf(c.table, t[n]);
    }
  }

  // The descriptor x is there after the one at position o has been closed, if there is one.
  ghost predicate Stays(t: seq<Node>, o: nat, x: Node) {
    x in t && (o < |t| ==> x != t[o] && !Orphaned(t, t[o], x))
  }

  // --- Tables before and after --------------------------------------------------------------

  ghost predicate ClosedOne(t: seq<Node>, t': seq<Node>, procID: nat, id: int) {
    forall x :: x in t' <==> Stays(t, Find(t, procID, id, 0), x)
  }

  lemma CloseEvery(s: Files, procID: nat, id: int)
    requires Inv(s)
    ensures ClosedOne(s.table, Close(s, procID, id).table, procID, id)
  {
    forall x ensures x in Close(s, procID, id).table <==> Stays(s.table, Find(s.table, procID, id, 0), x) {
      if IsOpen(s.table, procID, id) { CloseIs(s, procID, id, x); }
    }
  }

  ghost predicate ClosedAll(t: seq<Node>, t': seq<Node>, procID: nat) {
    forall x :: x in t' <==> x in t && x.procID != procID && !LeftAlone(t, procID, x)
  }

  lemma CloseAllEvery(s: Files, procID: nat)
    requires Inv(s)
    ensures ClosedAll(s.table, CloseAll(s, procID).table, procID)
  {
    forall x ensures x in CloseAll(s, procID).table <==>
      x in s.table && x.procID != procID && !LeftAlone(s.table, procID, x)
    {
      CloseAllIs(s, procID, x);
    }
  }

  ghost predicate Copied(t: seq<Node>, t': seq<Node>, procID: nat, child: nat) {
    forall x :: x in t' <==> x in t || (x.procID == child && x.(procID := procID) in t)
  }

  lemma ForkEvery(s: Files, procID: nat, child: nat)
    ensures Copied(s.table, Forked(s, procID, child).table, procID, child)
  {
    forall x
      ensures x in Forked(s, procID, child).table <==>
        x in s.table || (x.procID == child && x.(procID := procID) in s.table)
    {
      ForkIs(s, procID, child, x);
    }
  }
}

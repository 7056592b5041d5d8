// The memory of a task over its life: a task is added, ranges of its memory are allocated, and it is
// forked.
module TaskMemory {
  import opened Machine
  import opened Pages
  import opened Tasks
  import opened AddressSpaces
  import opened VirtualCopy

  // --- No sharing ---------------------------------------------------------------------------

  // Two different pages, of one task or of two, never have the same frame, and no page has a frame
  // of the heap or one that was leaked.
  lemma NoSharing(m: Memory, i: nat, j: nat, k: nat, l: nat)
    requires m.Valid() && i < |m.tasks| && j < |m.tasks| && k < |m.tasks[i].pages| && l < |m.tasks[j].pages|
    requires i < j || (i == j && k < l)
    ensures m.tasks[i].pages[k].fis != m.tasks[j].pages[l].fis
    ensures m.tasks[i].pages[k].fis !in m.heapFrames && m.leaked[m.tasks[i].pages[k].fis] == 0
  {
    var f := m.tasks[i].pages[k].fis;
    FrameIn(m.tasks[i].pages, k);
    FrameIn(m.tasks[j].pages, l);
    CountsOne(m.tasks, i, |m.tasks|, f);
    if i == j {
      TaskFrames(m, i);
    } else {
      CountsTwo(m.tasks, i, j, |m.tasks|, f);
    }
    assert multiset(m.heapFrames)[f] == 0 ==> f !in m.heapFrames;
    assert OwnersOf(m.heapFrames, m.leaked, m.tasks, f) <= 1;
  }

  // --- A new task ---------------------------------------------------------------------------

  lemma TaskAdded(m: Memory, before: seq<Task>, t: Task)
    requires m.Shape() && m.tasks == before + [t] && t.pages == [] && t.procID !in IDs(before)
    requires m.ConservedIn(m.heapFrames, m.leaked, before, m.bitmap[..]) && m.HeapMapped()
    requires ListsOK(before, m.userStart, m.heapStart)
    ensures m.Valid()
  {
    assert Fis([]) == [];
    forall a: Word ensures OwnersOf(m.heapFrames, m.leaked, m.tasks, a) == OwnersOf(m.heapFrames, m.leaked, before, a) {
      CountSnoc(before, t, a);
    }
  }

  // addTask. The new task's state and wake time are what the memory held.
  method AddTask(m: Memory, state: TaskState, wake: nat) returns (panic: bool, id: nat)
    requires m.Valid()
    modifies m`heapEnd, m`heapFrames, m`tasks, m.bitmap, m.pageTable
    ensures panic ==> m.Full()
    ensures !panic ==> m.Valid() && m.tasks == old(m.tasks) + [Task(id, state, wake, 0, [])]
    ensures !panic ==> PROCID_MIN <= id <= PROCID_MIN + |old(m.tasks)| && id !in IDs(old(m.tasks))
    ensures forall b: Word :: m.MarkedIn(old(m.bitmap[..]), b) ==> m.MarkedIn(m.bitmap[..], b)
    ensures m.pageTable[..m.heapStart / PAGE] == old(m.pageTable[..m.heapStart / PAGE])
  {
    id := 0;
    panic := m.GrowHeap();
    if !panic {
      panic := m.GrowHeap();
    }
    if !panic {
      id := GetNewProcID(m.tasks);
      ghost var before := m.tasks;
      m.tasks := m.tasks + [Task(id, state, wake, 0, [])];
      TaskAdded(m, before, Task(id, state, wake, 0, []));
    }
  }

  // --- allocMemory --------------------------------------------------------------------------

  // Every page from lo up to upto is there.
  ghost predicate Has(s: seq<Page>, lo: nat, upto: nat) {
    forall v: Word :: v % PAGE == 0 && lo <= v < upto ==> HasPage(s, v)
  }

  // A missing page that lies above the whole list, or is the first of the range and lies below it.
  ghost predicate Harmless(s: seq<Page>, lo: nat, v: Word) {
    HasPage(s, v) || s == [] || s[|s| - 1].log < v || (v == lo && v < s[0].log)
  }

  // All missing pages of the range are of this kind.
  ghost predicate NoneLost(s: seq<Page>, lo: nat, upto: nat) {
    forall v: Word :: v % PAGE == 0 && lo <= v < upto ==> Harmless(s, lo, v)
  }

  // The list p is s with at most one page, lo, in front and pages of the range behind.
  ghost predicate Extended(s: seq<Page>, p: seq<Page>, a: nat, lo: nat, upto: nat) {
    && a <= 1 && a + |s| <= |p| && p[a..a + |s|] == s && Sorted(p) && Sorted(s)
    && (a == 1 ==> s != [] && p[0].log == lo < s[0].log && lo < upto)
    && forall j :: a + |s| <= j < |p| ==> lo <= p[j].log < upto
  }

  lemma ExtendedAt(s: seq<Page>, p: seq<Page>, a: nat, lo: nat, upto: nat, j: nat)
    requires Extended(s, p, a, lo, upto) && j < |s|
    ensures p[a + j] == s[j]
  {
    assert p[a..a + |s|][j] == s[j];
  }

  // The next page is on the longer list just when it was on the old one, and its insertion loses
  // nothing just when it is harmless for the old list.
  lemma NextPageIs(s: seq<Page>, p: seq<Page>, a: nat, lo: nat, v: Word)
    requires Extended(s, p, a, lo, v) && Has(p, lo, v) && lo <= v && lo % PAGE == 0 && v % PAGE == 0
    ensures HasPage(p, v) <==> HasPage(s, v)
    ensures !HasPage(s, v) ==> (AtAnEnd(p, v) <==> Harmless(s, lo, v))
  {
    if HasPage(s, v) {
      ExtendedAt(s, p, a, lo, v, IndexFrom(s, v, 0));
    }
    if HasPage(p, v) {
      var j := IndexFrom(p, v, 0);
      assert a <= j < a + |s|;
      ExtendedAt(s, p, a, lo, v, j - a);
    }
    if s != [] {
      ExtendedAt(s, p, a, lo, v, 0);
      ExtendedAt(s, p, a, lo, v, |s| - 1);
      assert lo < v ==> HasPage(p, lo);
    }
  }

  lemma Slices<T>(x: seq<T>, y: seq<T>, i: nat, j: nat)
    requires i <= j
    ensures j <= |x| ==> (x + y)[i..j] == x[i..j]
    ensures j <= |y| ==> (x + y)[|x| + i..|x| + j] == y[i..j]
  {}

  lemma PageInserted(s: seq<Page>, p: seq<Page>, a: nat, lo: nat, page: Page) returns (a': nat)
    requires Extended(s, p, a, lo, page.log) && Has(p, lo, page.log) && lo <= page.log && lo % PAGE == 0
    requires page.log % PAGE == 0
    requires !HasPage(p, page.log) && AtAnEnd(p, page.log)
    ensures Extended(s, AddPage(p, page), a', lo, page.log + PAGE) && (a == 1 ==> a' == 1)
    ensures s != [] && s[|s| - 1].log < lo ==> a' == 0
  {
    AddPageSorted(p, page);
    if p != [] && page.log < p[0].log {
      assert lo < page.log ==> HasPage(p, lo);
      a' := 1;
      Slices([page], p, 0, |s|);
    } else {
      Appends(p, page);
      a' := a;
      Slices(p, [page], a, a + |s|);
    }
  }

  // An insertion keeps the pages below the new one.
  lemma InsertCovers(p: seq<Page>, lo: nat, page: Page)
    requires Sorted(p) && Has(p, lo, page.log) && page.log % PAGE == 0 && !HasPage(p, page.log)
    ensures Has(AddPage(p, page), lo, page.log + PAGE)
  {
    AddPageIs(p, page);
    var k, q := Above(p, page.log, 0), AddPage(p, page);
    assert q[k] == page;
    forall v: Word | v % PAGE == 0 && lo <= v < page.log + PAGE ensures HasPage(q, v) {
      if v < page.log {
        assert HasPage(p, v);
        var j := IndexFrom(p, v, 0);
        assert j < k && q[j] == p[j];
      }
    }
  }

  // allocMemory has come to the page v: the pages below are there; nothing has changed if all were
  // there before; nothing is lost just as long as every missing page was harmless.
  ghost predicate Allocating(s: seq<Page>, p: seq<Page>, a: nat, lo: nat, v: nat, was: multiset<Word>,
                             leaked: multiset<Word>) {
    && Has(p, lo, v) && was <= leaked && (Has(s, lo, v) ==> p == s)
    && (NoneLost(s, lo, v) <==> leaked == was) && (NoneLost(s, lo, v) ==> Extended(s, p, a, lo, v))
    && (a == 1 ==> s != [] && lo < s[0].log)
  }

  lemma OnePageMore(s: seq<Page>, lo: nat, v: Word)
    requires v % PAGE == 0 && lo <= v && lo % PAGE == 0
    ensures NoneLost(s, lo, v + PAGE) <==> NoneLost(s, lo, v) && Harmless(s, lo, v)
    ensures Has(s, lo, v + PAGE) <==> Has(s, lo, v) && HasPage(s, v)
  {
    forall u: Word | u % PAGE == 0 && lo <= u < v + PAGE ensures u < v || u == v {}
  }

  lemma AllocatedBefore(s: seq<Page>, p: seq<Page>, a: nat, lo: nat, v: Word, was: multiset<Word>,
                        leaked: multiset<Word>)
    requires Allocating(s, p, a, lo, v, was, leaked) && HasPage(p, v) && v % PAGE == 0 && lo <= v && lo % PAGE == 0
    ensures Allocating(s, p, a, lo, v + PAGE, was, leaked)
  {
    OnePageMore(s, lo, v);
    OnePageMore(p, lo, v);
    if NoneLost(s, lo, v) {
      NextPageIs(s, p, a, lo, v);
    }
  }

  lemma AllocatedAtEnd(s: seq<Page>, p: seq<Page>, a: nat, lo: nat, page: Page, was: multiset<Word>,
                       leaked: multiset<Word>)
    returns (a': nat)
    requires Allocating(s, p, a, lo, page.log, was, leaked) && Sorted(p) && !HasPage(p, page.log)
    requires AtAnEnd(p, page.log)
    requires page.log % PAGE == 0 && lo <= page.log && lo % PAGE == 0
    ensures Allocating(s, AddPage(p, page), a', lo, page.log + PAGE, was, leaked)
  {
    var v := page.log;
    a' := a;
    InsertCovers(p, lo, page);
    OnePageMore(s, lo, v);
    if NoneLost(s, lo, v) {
      NextPageIs(s, p, a, lo, v);
      a' := PageInserted(s, p, a, lo, page);
    }
  }

  lemma AllocatedInside(s: seq<Page>, p: seq<Page>, a: nat, lo: nat, page: Page, was: multiset<Word>,
                        leaked: multiset<Word>, x: Word)
    requires Allocating(s, p, a, lo, page.log, was, leaked) && Sorted(p) && !HasPage(p, page.log)
    requires !AtAnEnd(p, page.log)
    requires page.log % PAGE == 0 && lo <= page.log && lo % PAGE == 0
    ensures Allocating(s, AddPage(p, page), a, lo, page.log + PAGE, was, leaked + multiset{x})
  {
    var v := page.log;
    InsertCovers(p, lo, page);
    OnePageMore(s, lo, v);
    if NoneLost(s, lo, v) {
      NextPageIs(s, p, a, lo, v);
    }
    assert (leaked + multiset{x})[x] == leaked[x] + 1 > was[x];
  }

  lemma AllocatedNow(s: seq<Page>, p: seq<Page>, a: nat, lo: nat, page: Page, was: multiset<Word>,
                     leaked: multiset<Word>)
    returns (a': nat)
    requires Allocating(s, p, a, lo, page.log, was, leaked) && Sorted(p) && !HasPage(p, page.log)
    requires page.log % PAGE == 0 && lo <= page.log && lo % PAGE == 0
    ensures Allocating(s, AddPage(p, page), a', lo, page.log + PAGE, was, leaked + Frames(Lost(p, page.log)))
  {
    AddPageIs(p, page);
    if AtAnEnd(p, page.log) {
      a' := AllocatedAtEnd(s, p, a, lo, page, was, leaked);
      assert Fis([]) == [] && leaked + Frames([]) == leaked;
    } else {
      a' := a;
      var x := p[Above(p, page.log, 0)];
      FramesOne(x);
      AllocatedInside(s, p, a, lo, page, was, leaked, x.fis);
    }
  }

  lemma Allocated(s: seq<Page>, p: seq<Page>, a: nat, lo: nat, page: Page, was: multiset<Word>, leaked: multiset<Word>,
                  p': seq<Page>, leaked': multiset<Word>, upto: nat) returns (a': nat)
    requires Allocating(s, p, a, lo, page.log, was, leaked) && Sorted(p) && page.log % PAGE == 0 && lo <= page.log
    requires lo % PAGE == 0
    requires if HasPage(p, page.log) then p' == p && leaked' == leaked
             else p' == AddPage(p, page) && leaked' == leaked + Frames(Lost(p, page.log))
    requires upto == page.log + PAGE
    ensures Sorted(p') && Allocating(s, p', a', lo, upto, was, leaked')
  {
    if HasPage(p, page.log) {
      a' := a;
      AllocatedBefore(s, p, a, lo, page.log, was, leaked);
    } else {
      a' := AllocatedNow(s, p, a, lo, page, was, leaked);
      AddPageSorted(p, page);
    }
  }

  // The list, and what has been lost, after the pages of a range are asked for one by one, each with
  // the frame that is free at the time.
  function AllocList(s: seq<Page>, asked: seq<Page>): seq<Page> {
    if asked == [] then s
    else
      var p, page := AllocList(s, asked[..|asked| - 1]), asked[|asked| - 1];
      if HasPage(p, page.log) then p else AddPage(p, page)
  }

  function AllocLost(s: seq<Page>, asked: seq<Page>): multiset<Word> {
    if asked == [] then multiset{}
    else
      var p, v := AllocList(s, asked[..|asked| - 1]), asked[|asked| - 1].log;
      AllocLost(s, asked[..|asked| - 1]) + if HasPage(p, v) then multiset{} else Frames(Lost(p, v))
  }

  // The pages from lo on, one after the other.
  ghost predicate IsRange(asked: seq<Page>, lo: nat) {
    forall j :: 0 <= j < |asked| ==> asked[j].log == lo + PAGE * j
  }

  // Whatever frames are free: the pages of the range are there afterwards, nothing changes if they all
  // were before, and a frame is lost exactly if some missing page was not harmless; otherwise the old
  // list is kept as a whole.
  lemma {:induction false} AllocLaw(s: seq<Page>, lo: nat, asked: seq<Page>, upto: nat, p: seq<Page>,
                                    lost: multiset<Word>)
    returns (a: nat)
    requires Sorted(s) && IsRange(asked, lo) && lo % PAGE == 0 && upto == lo + PAGE * |asked|
    requires p == AllocList(s, asked) && lost == AllocLost(s, asked)
    ensures Sorted(p) && Allocating(s, p, a, lo, upto, multiset{}, lost)
  {
    if asked == [] {
      a := 0;
      assert s[0..0 + |s|] == s;
    } else {
      var front, page := asked[..|asked| - 1], asked[|asked| - 1];
      var q, was := AllocList(s, front), AllocLost(s, front);
      a := AllocLaw(s, lo, front, page.log, q, was);
      Aligned(lo, |front|, page.log);
      a := Allocated(s, q, a, lo, page, multiset{}, was, p, lost, upto);
    }
  }

  lemma Aligned(lo: nat, n: nat, v: nat)
    requires lo % PAGE == 0 && v == lo + PAGE * n
    ensures v % PAGE == 0 && lo <= v && v + PAGE == lo + PAGE * (n + 1)
  {}

  // The list of task i among the others.
  function WithList(tasks: seq<Task>, i: nat, p: seq<Page>): seq<Task>
    requires i < |tasks|
  {
    tasks[i := tasks[i].(pages := p)]
  }

  lemma WithPageIs(tasks: seq<Task>, i: nat, p: seq<Page>, page: Page)
    requires i < |tasks|
    ensures WithPage(WithList(tasks, i, p), i, page) == WithList(tasks, i, AddPage(p, page))
  {}

  method AllocPage(m: Memory, procID: nat, v: Word, ghost i: nat, ghost before: seq<Task>, ghost p: seq<Page>)
    returns (panic: bool, ghost fis: Word)
    requires m.Valid() && i < |before| && i == IndexOfTask(before, procID, 0) && m.tasks == WithList(before, i, p)
    requires m.userStart <= v < m.heapStart && v % PAGE == 0
    modifies m`heapEnd, m`heapFrames, m`tasks, m`leaked, m.bitmap, m.pageTable
    ensures panic ==> m.Full()
    ensures !panic ==> m.Valid()
    ensures !panic ==> m.tasks == WithList(before, i, if HasPage(p, v) then p else AddPage(p, Page(v, fis)))
    ensures !panic ==> m.leaked == old(m.leaked) + if HasPage(p, v) then multiset{} else Frames(Lost(p, v))
  {
    assert p == m.tasks[i].pages;
    SameIDs(before, m.tasks, procID, 0);
    panic, fis := m.AllocaNuovaPagina(procID, v);
    WithPageIs(before, i, p, Page(v, fis));
  }

  // The state of the loop: the pages in `asked` have been asked for.
  ghost predicate Asked(tasks: seq<Task>, leaked: multiset<Word>, before: seq<Task>, was: multiset<Word>, i: nat,
                        lo: nat, asked: seq<Page>) {
    && i < |before| && IsRange(asked, lo) && tasks == WithList(before, i, AllocList(before[i].pages, asked))
    && leaked == was + AllocLost(before[i].pages, asked)
  }

  lemma NoneAsked(tasks: seq<Task>, leaked: multiset<Word>, i: nat, lo: nat)
    requires i < |tasks|
    ensures Asked(tasks, leaked, tasks, leaked, i, lo, [])
  {
    assert WithList(tasks, i, tasks[i].pages) == tasks;
  }

  // One round of the loop.
  method AllocNext(m: Memory, procID: nat, v: Word, ghost i: nat, ghost before: seq<Task>, ghost was: multiset<Word>,
                   ghost lo: nat, ghost asked: seq<Page>)
    returns (panic: bool, ghost asked': seq<Page>)
    requires m.Valid() && Asked(m.tasks, m.leaked, before, was, i, lo, asked) && i == IndexOfTask(before, procID, 0)
    requires m.userStart <= lo && v < m.heapStart && lo % PAGE == 0 && v == lo + PAGE * |asked|
    modifies m`heapEnd, m`heapFrames, m`tasks, m`leaked, m.bitmap, m.pageTable
    ensures panic ==> m.Full()
    ensures !panic ==> m.Valid() && Asked(m.tasks, m.leaked, before, was, i, lo, asked') && |asked'| == |asked| + 1
  {
    ghost var p, fis := AllocList(before[i].pages, asked), 0;
    Aligned(lo, |asked|, v);
    panic, fis := AllocPage(m, procID, v, i, before, p);
    asked' := asked + [Page(v, fis)];
    NextStep(before[i].pages, asked, Page(v, fis));
  }

  // The loop, from the first page on as long as it is not above the last address.
  method AllocPages(m: Memory, procID: nat, lo: Word, top: nat, ghost i: nat)
    returns (panic: bool, c: nat, ghost asked: seq<Page>)
    requires m.Valid() && i < |m.tasks| && i == IndexOfTask(m.tasks, procID, 0)
    requires m.userStart <= lo <= top < m.heapStart && lo % PAGE == 0
    modifies m`heapEnd, m`heapFrames, m`tasks, m`leaked, m.bitmap, m.pageTable
    ensures panic ==> m.Full()
    ensures !panic ==> m.Valid() && Asked(m.tasks, m.leaked, old(m.tasks), old(m.leaked), i, lo, asked)
    ensures !panic ==> c == PAGE * |asked| && lo + c - PAGE <= top < lo + c
  {
    c, asked, panic := 0, [], false;
    var startMem := lo;
    ghost var before, was := m.tasks, m.leaked;
    NoneAsked(before, was, i, lo);
    while startMem <= top
      invariant m.Valid() && Asked(m.tasks, m.leaked, before, was, i, lo, asked)
      invariant startMem == lo + c && c == PAGE * |asked| && startMem - PAGE <= top
    {
      panic, asked := AllocNext(m, procID, startMem, i, before, was, lo, asked);
      if panic {
        return;
      }
      startMem := startMem + PAGE;
      c := c + PAGE;
    }
  }

  method AllocMemory(m: Memory, procID: nat, base: Word, size: nat, ghost i: nat)
    returns (panic: bool, c: nat, ghost asked: seq<Page>)
    requires m.Valid() && i < |m.tasks| && i == IndexOfTask(m.tasks, procID, 0)
    requires m.userStart <= base && base + size < m.heapStart
    modifies m`heapEnd, m`heapFrames, m`tasks, m`leaked, m.bitmap, m.pageTable
    ensures panic ==> m.Full()
    ensures !panic ==> m.Valid() && Asked(m.tasks, m.leaked, old(m.tasks), old(m.leaked), i, base / PAGE * PAGE, asked)
    ensures !panic ==> |asked| == PagesOf(base, base + size) && c == PAGE * |asked|
    ensures !panic ==> Spans(old(m.tasks)[i].pages, m.tasks[i].pages, base, size)
  {
    FirstPage(m.userStart, base);
    panic, c, asked := AllocPages(m, procID, base / PAGE * PAGE, base + size, i);
    if !panic {
      RangeEnds(base, base + size, |asked|);
      RangeSpans(old(m.tasks)[i].pages, base, size, asked);
    }
  }

  // Every address of the range, the one behind its end included, lies in a page of the list p, and all
  // other pages of p were on the list s before.
  ghost predicate Spans(s: seq<Page>, p: seq<Page>, base: Word, size: nat) {
    && (forall a: Word :: base <= a <= base + size ==> HasPage(p, a - a % 0x1000))
    && (forall v: Word :: HasPage(p, v) && !HasPage(s, v) ==> v % 0x1000 == 0 && base - 0x1000 < v <= base + size)
  }

  lemma RangeSpans(s: seq<Page>, base: Word, size: nat, asked: seq<Page>)
    requires Sorted(s) && IsRange(asked, base / PAGE * PAGE) && |asked| == PagesOf(base, base + size)
    ensures Spans(s, AllocList(s, asked), base, size)
  {
    var lo, p := base / PAGE * PAGE, AllocList(s, asked);
    var a := AllocLaw(s, lo, asked, lo + PAGE * |asked|, p, AllocLost(s, asked));
    forall x: Word | base <= x <= base + size ensures HasPage(p, x - x % 0x1000) {
      PageOfRange(base, size, x);
    }
    forall v: Word | HasPage(p, v) && !HasPage(s, v) ensures v % 0x1000 == 0 && base - 0x1000 < v <= base + size {
      var j := NewIsAsked(s, asked, v);
      Aligned(lo, j, v);
    }
  }

  lemma PageOfRange(base: Word, size: nat, x: Word)
    requires base <= x <= base + size
    ensures var v, lo := x - x % 0x1000, base / PAGE * PAGE;
      v % PAGE == 0 && lo <= v < lo + PAGE * PagesOf(base, base + size)
  {}

  // What comes on the list has been asked for.
  lemma {:induction false} NothingElse(s: seq<Page>, asked: seq<Page>)
    ensures forall x :: x in AllocList(s, asked) ==> x in s || x in asked
  {
    if asked != [] {
      var front, page := asked[..|asked| - 1], asked[|asked| - 1];
      NothingElse(s, front);
      AddedOnly(AllocList(s, front), page);
    }
  }

  lemma NewIsAsked(s: seq<Page>, asked: seq<Page>, v: Word) returns (j: nat)
    requires HasPage(AllocList(s, asked), v) && !HasPage(s, v)
    ensures j < |asked| && asked[j].log == v
  {
    var p := AllocList(s, asked);
    var x := p[IndexFrom(p, v, 0)];
    NothingElse(s, asked);
    assert x in p && x !in s;
    j :| 0 <= j < |asked| && asked[j] == x;
  }

  lemma AddedOnly(s: seq<Page>, p: Page)
    ensures forall x :: x in AddPage(s, p) ==> x in s || x == p
  {
    if s != [] {
      AddedFrom(s, p, 0);
    }
  }

  lemma {:induction false} AddedFrom(s: seq<Page>, p: Page, i: nat)
    requires i < |s|
    ensures forall x :: x in AddFrom(s, p, i) ==> x in s || x == p
    decreases |s| - i
  {
    if i + 1 < |s| { AddedFrom(s, p, i + 1); }
  }

  lemma FirstPage(lo: nat, v: nat)
    requires lo % PAGE == 0 && lo <= v
    ensures lo <= v / PAGE * PAGE <= v
  {}

  // The number of pages from the one of address v to the one of address x.
  function PagesOf(v: nat, x: nat): int { x / PAGE + 1 - v / PAGE }

  lemma RangeEnds(v: nat, x: nat, n: nat)
    requires v <= x && v / PAGE * PAGE + PAGE * n - PAGE <= x < v / PAGE * PAGE + PAGE * n
    ensures n == PagesOf(v, x)
  {}

  lemma NextStep(s: seq<Page>, asked: seq<Page>, page: Page)
    ensures var p := AllocList(s, asked);
      && AllocList(s, asked + [page]) == (if HasPage(p, page.log) then p else AddPage(p, page))
      && AllocLost(s, asked + [page])
         == AllocLost(s, asked) + if HasPage(p, page.log) then multiset{} else Frames(Lost(p, page.log))
  {
    assert (asked + [page])[..|asked + [page]| - 1] == asked;
  }

  // --- Ranges with ascending bases ----------------------------------------------------------

  // From lo on the list has no gaps.
  ghost predicate Dense(s: seq<Page>, lo: nat) {
    forall v: Word :: v % PAGE == 0 && lo <= v && s != [] && v <= s[|s| - 1].log ==> HasPage(s, v)
  }

  lemma DenseHarmless(s: seq<Page>, lo: nat, upto: nat)
    requires Sorted(s) && Dense(s, lo)
    ensures NoneLost(s, lo, upto)
  {}

  lemma DenseExtended(s: seq<Page>, p: seq<Page>, a: nat, lo: nat, upto: nat)
    requires Extended(s, p, a, lo, upto) && Has(p, lo, upto) && Dense(s, lo)
    ensures Dense(p, lo)
  {
    forall v: Word | v % PAGE == 0 && lo <= v && p != [] && v <= p[|p| - 1].log ensures HasPage(p, v) {
      if v >= upto {
        assert |p| == a + |s|;
        ExtendedAt(s, p, a, lo, upto, |s| - 1);
        assert HasPage(s, v);
        ExtendedAt(s, p, a, lo, upto, IndexFrom(s, v, 0));
      } else {
        assert HasPage(p, v);
      }
    }
  }

  // A range that starts where the list has no gaps any more loses nothing and leaves no gaps.
  lemma AscendingRange(s: seq<Page>, lo: nat, asked: seq<Page>, p: seq<Page>, upto: nat)
    requires Sorted(s) && Dense(s, lo) && IsRange(asked, lo) && lo % PAGE == 0
    requires p == AllocList(s, asked) && upto == lo + PAGE * |asked|
    ensures AllocLost(s, asked) == multiset{} && Sorted(p) && Dense(p, lo) && Has(p, lo, upto)
  {
    var a := AllocLaw(s, lo, asked, upto, p, AllocLost(s, asked));
    DenseHarmless(s, lo, upto);
    DenseExtended(s, p, a, lo, upto);
  }

  // The list after ranges that are asked for one after the other, beginning with none.
  function AllocAll(ranges: seq<seq<Page>>): seq<Page> {
    if ranges == [] then [] else AllocList(AllocAll(ranges[..|ranges| - 1]), ranges[|ranges| - 1])
  }

  // With ascending bases no range loses anything.
  lemma {:induction false} AscendingRanges(ranges: seq<seq<Page>>, los: seq<nat>)
    requires |los| == |ranges| > 0 && forall k :: 0 <= k < |los| ==> IsRange(ranges[k], los[k]) && los[k] % PAGE == 0
    requires forall j, k :: 0 <= j < k < |los| ==> los[j] <= los[k]
    ensures Sorted(AllocAll(ranges)) && Dense(AllocAll(ranges), los[|los| - 1])
    ensures AllocLost(AllocAll(ranges[..|ranges| - 1]), ranges[|ranges| - 1]) == multiset{}
    ensures Has(AllocAll(ranges), los[|los| - 1], los[|los| - 1] + PAGE * |ranges[|ranges| - 1]|)
  {
    var n := |ranges| - 1;
    if n > 0 {
      AscendingRanges(ranges[..n], los[..n]);
      assert los[n - 1] <= los[n];
    }
    AscendingRange(AllocAll(ranges[..n]), los[n], ranges[n], AllocAll(ranges), los[n] + PAGE * |ranges[n]|);
  }
}

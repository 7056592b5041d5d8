// The memory of all tasks: physical frames, the page lists of the tasks, and the page table that the
// processor walks. kernelPanic is an outcome.
module AddressSpaces {
  import opened Machine
  import opened Finite
  import opened PageTables
  import opened Pages
  import opened Tasks

  // --- Lists of pages in the user area ------------------------------------------------------

  lemma UserPagesAdd(s: seq<Page>, p: Page, lo: nat, hi: nat)
    requires UserPages(s, lo, hi) && !HasPage(s, p.log) && lo <= p.log < hi && p.log % PAGE == 0
    ensures UserPages(AddPage(s, p), lo, hi)
  {
    AddPageIs(s, p);
    AddPageSorted(s, p);
  }

  lemma Twice<T>(s: seq<T>, i: nat, j: nat)
    requires i < j < |s|
    ensures s[i] == s[j] ==> multiset(s)[s[i]] >= 2
  {
    assert s == s[..j] + s[j..];
    assert s[i] in multiset(s[..j]) && s[j] in multiset(s[j..]);
  }

  // Every task has its own id and a sorted list of pages in the user area.
  ghost predicate ListsOK(tasks: seq<Task>, lo: nat, hi: nat) {
    UniqueIDs(tasks) && forall i :: 0 <= i < |tasks| ==> UserPages(tasks[i].pages, lo, hi)
  }

  lemma ListsWithPage(tasks: seq<Task>, i: nat, p: Page, lo: nat, hi: nat)
    requires ListsOK(tasks, lo, hi) && i < |tasks| && !HasPage(tasks[i].pages, p.log)
    requires lo <= p.log < hi && p.log % PAGE == 0
    ensures ListsOK(WithPage(tasks, i, p), lo, hi)
  {
    UserPagesAdd(tasks[i].pages, p, lo, hi);
  }

  lemma ListsWithoutPage(tasks: seq<Task>, i: nat, j: nat, lo: nat, hi: nat)
    requires ListsOK(tasks, lo, hi) && i < |tasks| && j < |tasks[i].pages|
    ensures ListsOK(WithoutPage(tasks, i, j), lo, hi)
  {
    var s := tasks[i].pages;
    var less := s[..j] + s[j + 1..];
    assert UserPages(less, lo, hi);
  }

  lemma ListsRemoved(tasks: seq<Task>, i: nat, lo: nat, hi: nat)
    requires ListsOK(tasks, lo, hi) && i < |tasks|
    ensures ListsOK(RemoveTaskAt(tasks, i), lo, hi) && !Listed(RemoveTaskAt(tasks, i), tasks[i].procID)
  {
    var less := RemoveTaskAt(tasks, i);
    forall j | 0 <= j < |less| ensures less[j].procID != tasks[i].procID && UserPages(less[j].pages, lo, hi) {
      var k := if j < i then j else j + 1;
      assert less[j] == tasks[k];
    }
  }

  // Task i has a page at log: the one it had, or a new one with this frame. An insertion in the
  // middle of the list leaks a frame.
  ghost predicate PageGiven(tasks: seq<Task>, tasks': seq<Task>, i: nat, log: Word, fis: Word, leaked: multiset<Word>,
                            leaked': multiset<Word>)
    requires i < |tasks|
  {
    if HasPage(tasks[i].pages, log) then tasks' == tasks && leaked' == leaked
    else tasks' == WithPage(tasks, i, Page(log, fis)) && leaked' == leaked + Frames(Lost(tasks[i].pages, log))
  }

  // How often a frame is owned: by the heap, by a task, or by nobody who would free it.
  function OwnersOf(heapFrames: seq<Word>, leaked: multiset<Word>, tasks: seq<Task>, a: Word): nat {
    multiset(heapFrames)[a] + leaked[a] + Count(tasks, a)
  }

  lemma OwnersDropped(heapFrames: seq<Word>, leaked: multiset<Word>, tasks: seq<Task>, i: nat, a: Word)
    requires i < |tasks|
    ensures OwnersOf(heapFrames, leaked + Dropped(tasks, i), RemoveTaskAt(tasks, i), a)
      == OwnersOf(heapFrames, leaked, tasks, a)
  {
    CountDropped(tasks, i, a);
  }

  lemma OwnersAdded(heapFrames: seq<Word>, leaked: multiset<Word>, tasks: seq<Task>, i: nat, p: Page, a: Word)
    requires i < |tasks| && Sorted(tasks[i].pages) && !HasPage(tasks[i].pages, p.log)
    ensures OwnersOf(heapFrames, leaked + Frames(Lost(tasks[i].pages, p.log)), WithPage(tasks, i, p), a)
         == OwnersOf(heapFrames, leaked, tasks, a) + if a == p.fis then 1 else 0
  {
    CountAdded(tasks, i, p, a);
  }

  lemma OwnersRemoved(heapFrames: seq<Word>, leaked: multiset<Word>, tasks: seq<Task>, i: nat, j: nat, a: Word)
    requires i < |tasks| && j < |tasks[i].pages|
    ensures OwnersOf(heapFrames, leaked, WithoutPage(tasks, i, j), a) + (if a == tasks[i].pages[j].fis then 1 else 0)
         == OwnersOf(heapFrames, leaked, tasks, a)
  {
    CountRemoved(tasks, i, j, a);
  }

  // --- The kernel's memory ------------------------------------------------------------------

  class Memory {
    const userStart: nat
    const heapStart: nat
    const frames: nat
    const tempPage: nat  // a page of the kernel image that maps a frame for a moment
    const phys: array<Byte>
    const bitmap: array<Word>
    const pageTable: array<Word>
    var heapEnd: nat
    var tasks: seq<Task>
    var running: Option<nat>
    ghost var heapFrames: seq<Word>
    ghost var leaked: multiset<Word>  // frames whose bit is set and that no list has any more

    ghost predicate Shape() {
      && 0 < userStart && userStart % PAGE == 0 && heapStart % PAGE == 0 && userStart < heapStart
      && tempPage % PAGE == 0 && tempPage < userStart
      && heapStart + PAGE * (frames + 1) < WORD && userStart + PAGE * frames <= phys.Length <= WORD
      && frames <= 32 * bitmap.Length && pageTable.Length == ENTRIES && bitmap != pageTable
      && phys as object != bitmap && phys as object != pageTable
    }

    predicate IsFrame(a: Word) { userStart <= a < userStart + PAGE * frames && (a - userStart) % PAGE == 0 }

    function FrameIndex(a: Word): nat { if a < userStart then 0 else (a - userStart) / PAGE }

    // Every marked frame has exactly one owner, and no other frame has any.
    ghost predicate Conserved()
      reads this, bitmap
      requires frames <= 32 * bitmap.Length
    {
      ConservedIn(heapFrames, leaked, tasks, bitmap[..])
    }

    ghost predicate ConservedIn(hs: seq<Word>, lost: multiset<Word>, ts: seq<Task>, words: seq<Word>)
      requires frames <= 32 * |words|
    {
      forall a: Word :: OwnersOf(hs, lost, ts, a) == if MarkedIn(words, a) then 1 else 0
    }

    // The frame at address a is marked as used in the bitmap.
    predicate MarkedIn(words: seq<Word>, a: Word)
      requires frames <= 32 * |words|
    {
      IsFrame(a) && BitOf(words, FrameIndex(a))
    }

    // No frame is free.
    ghost predicate Full()
      reads this, bitmap
      requires frames <= 32 * bitmap.Length
    {
      forall a: Word :: IsFrame(a) ==> MarkedIn(bitmap[..], a)
    }

    lemma DroppedConserved(hs: seq<Word>, lost: multiset<Word>, ts: seq<Task>, i: nat, words: seq<Word>)
      requires frames <= 32 * |words| && i < |ts| && ConservedIn(hs, lost, ts, words)
      ensures ConservedIn(hs, lost + Dropped(ts, i), RemoveTaskAt(ts, i), words)
    {
      forall a: Word
        ensures OwnersOf(hs, lost + Dropped(ts, i), RemoveTaskAt(ts, i), a) == if MarkedIn(words, a) then 1 else 0
      {
        OwnersDropped(hs, lost, ts, i, a);
      }
    }

    lemma AddedConserved(hs: seq<Word>, lost: multiset<Word>, ts: seq<Task>, i: nat, p: Page, words: seq<Word>,
                         words': seq<Word>)
      requires frames <= 32 * |words| && frames <= 32 * |words'| && i < |ts| && ConservedIn(hs, lost, ts, words)
      requires Sorted(ts[i].pages) && !HasPage(ts[i].pages, p.log) && !MarkedIn(words, p.fis)
      requires forall a: Word :: MarkedIn(words', a) == (MarkedIn(words, a) || a == p.fis)
      ensures ConservedIn(hs, lost + Frames(Lost(ts[i].pages, p.log)), WithPage(ts, i, p), words')
    {
      var more := lost + Frames(Lost(ts[i].pages, p.log));
      forall a: Word ensures OwnersOf(hs, more, WithPage(ts, i, p), a) == if MarkedIn(words', a) then 1 else 0 {
        OwnersAdded(hs, lost, ts, i, p, a);
      }
    }

    lemma RemovedConserved(hs: seq<Word>, lost: multiset<Word>, ts: seq<Task>, i: nat, j: nat, words: seq<Word>,
                           words': seq<Word>)
      requires frames <= 32 * |words| && frames <= 32 * |words'| && i < |ts| && j < |ts[i].pages|
      requires ConservedIn(hs, lost, ts, words)
      requires forall a: Word :: MarkedIn(words', a) == (MarkedIn(words, a) && a != ts[i].pages[j].fis)
      ensures ConservedIn(hs, lost, WithoutPage(ts, i, j), words')
    {
      forall a: Word ensures OwnersOf(hs, lost, WithoutPage(ts, i, j), a) == if MarkedIn(words', a) then 1 else 0 {
        OwnersRemoved(hs, lost, ts, i, j, a);
        FrameIn(ts[i].pages, j);
        CountsOne(ts, i, |ts|, ts[i].pages[j].fis);
      }
    }

    lemma HeapConserved(hs: seq<Word>, lost: multiset<Word>, ts: seq<Task>, a: Word, words: seq<Word>,
                        words': seq<Word>)
      requires frames <= 32 * |words| && frames <= 32 * |words'| && ConservedIn(hs, lost, ts, words)
      requires !MarkedIn(words, a)
      requires forall b: Word :: MarkedIn(words', b) == (MarkedIn(words, b) || b == a)
      ensures ConservedIn(hs + [a], lost, ts, words')
    {
      forall b: Word ensures OwnersOf(hs + [a], lost, ts, b) == if MarkedIn(words', b) then 1 else 0 {
        assert OwnersOf(hs, lost, ts, b) == if MarkedIn(words, b) then 1 else 0;
      }
    }

    ghost predicate HeapMapped()
      reads this, pageTable
      requires pageTable.Length == ENTRIES
    {
      && heapEnd == heapStart + PAGE * |heapFrames| && heapStart / PAGE + |heapFrames| < pageTable.Length
      && (forall i :: 0 <= i < |heapFrames| ==>
        pageTable[heapStart / PAGE + i] == Selector(heapFrames[i], PRESENT + READWRITE))
    }

    ghost predicate Valid()
      reads this, bitmap, pageTable
    {
      Shape() && Conserved() && HeapMapped() && ListsOK(tasks, userStart, heapStart)
    }

    method GetFreePage() returns (a: Word)
      requires Shape()
      ensures a == 0 ==> Full()
      ensures a != 0 ==> IsFrame(a) && !MarkedIn(bitmap[..], a)
      ensures forall b: Word :: IsFrame(b) && b < a ==> MarkedIn(bitmap[..], b)
    {
      var c := 0;
      while c < frames
        invariant c <= frames && forall b: Word :: IsFrame(b) && FrameIndex(b) < c ==> MarkedIn(bitmap[..], b)
      {
        if !BitOf(bitmap[..], c) {
          assert IsFrame(c * PAGE + userStart) && FrameIndex(c * PAGE + userStart) == c;
          return c * PAGE + userStart;
        }
        c := c + 1;
      }
      return 0;
    }

    method SetPaginaFisica(a: Word, used: bool)
      requires Shape() && IsFrame(a)
      modifies bitmap
      ensures MarkedIn(bitmap[..], a) == used
      ensures forall b: Word :: b != a ==> MarkedIn(bitmap[..], b) == MarkedIn(old(bitmap[..]), b)
    {
      var index := FrameIndex(a);
      if index < frames {
        SetBitExt(bitmap, index, used);
      }
    }

    method SetPageSelector(index: nat, addr: Word, flags: nat)
      requires index < pageTable.Length && flags < PAGE
      modifies pageTable
      ensures pageTable[..] == old(pageTable[..])[index := Selector(addr, flags)]
    {
      pageTable[index] := Selector(addr, flags);
    }

    lemma HeapFits()
      requires Valid()
      ensures |heapFrames| <= frames
    {
      var hs := heapFrames;
      var index := seq(|hs|, i requires 0 <= i < |hs| => FrameIndex(hs[i]));
      forall i | 0 <= i < |heapFrames| ensures IsFrame(heapFrames[i]) && index[i] < frames {
        assert heapFrames[i] in multiset(heapFrames);
        assert OwnersOf(heapFrames, leaked, tasks, heapFrames[i]) >= 1;
      }
      forall i, j | 0 <= i < j < |heapFrames| ensures index[i] != index[j] {
        Twice(heapFrames, i, j);
        assert IsFrame(heapFrames[i]) && IsFrame(heapFrames[j]);
        assert OwnersOf(heapFrames, leaked, tasks, heapFrames[i]) <= 1;
      }
      NoMoreThan(index, frames);
    }

    // getFreePage, and the frame is marked. 0 if there is no free frame.
    method TakeFrame() returns (a: Word)
      requires Shape()
      modifies bitmap
      ensures a == 0 ==> Full() && bitmap[..] == old(bitmap[..])
      ensures a != 0 ==> IsFrame(a) && !MarkedIn(old(bitmap[..]), a)
      ensures forall b: Word :: MarkedIn(bitmap[..], b) == (MarkedIn(old(bitmap[..]), b) || (a != 0 && b == a))
    {
      a := GetFreePage();
      if a != 0 {
        SetPaginaFisica(a, true);
      }
    }

    // A frame is mapped behind the end of the heap.
    method MapHeapPage(a: Word)
      requires Shape() && HeapMapped() && |heapFrames| <= frames
      modifies this`heapEnd, this`heapFrames, pageTable
      ensures HeapMapped() && heapFrames == old(heapFrames) + [a] && heapEnd == old(heapEnd) + 0x1000
      ensures a % 0x1000 == 0 ==> pageTable[old(heapEnd) / 0x1000] == a + 3
      ensures pageTable[..heapStart / PAGE] == old(pageTable[..heapStart / PAGE])
    {
      SetPageSelector(EntryIndex(heapEnd), a, PRESENT + READWRITE);
      heapEnd := heapEnd + PAGE;
      heapFrames := heapFrames + [a];
    }

    // The heap grows by a page.
    method IncreaseHeapSize() returns (panic: bool, ghost a: Word)
      requires Valid()
      modifies this`heapEnd, this`heapFrames, bitmap, pageTable
      ensures Valid()
      ensures panic ==> Full() && heapFrames == old(heapFrames) && pageTable[..] == old(pageTable[..])
      ensures !panic ==> heapFrames == old(heapFrames) + [a] && IsFrame(a) && !MarkedIn(old(bitmap[..]), a)
      ensures forall b: Word :: MarkedIn(bitmap[..], b) == (MarkedIn(old(bitmap[..]), b) || (!panic && b == a))
      ensures pageTable[..heapStart / PAGE] == old(pageTable[..heapStart / PAGE])
    {
      HeapFits();
      var nuovaPaginaFisica := TakeFrame();
      a := nuovaPaginaFisica;
      panic := nuovaPaginaFisica == 0;
      if !panic {
        MapHeapPage(nuovaPaginaFisica);
        HeapConserved(old(heapFrames), leaked, tasks, a, old(bitmap[..]), bitmap[..]);
      }
    }

    // kmalloc may let the heap grow by any number of pages.
    method GrowHeap() returns (panic: bool)
      requires Valid()
      modifies this`heapEnd, this`heapFrames, bitmap, pageTable
      ensures Valid() && old(heapFrames) <= heapFrames
      ensures panic ==> Full()
      ensures forall b: Word :: MarkedIn(old(bitmap[..]), b) ==> MarkedIn(bitmap[..], b)
      ensures pageTable[..heapStart / PAGE] == old(pageTable[..heapStart / PAGE])
    {
      var n: nat :| n >= 0;
      panic := false;
      for k := 0 to n
        invariant Valid() && old(heapFrames) <= heapFrames && !panic
        invariant forall b: Word :: MarkedIn(old(bitmap[..]), b) ==> MarkedIn(bitmap[..], b)
        invariant pageTable[..heapStart / PAGE] == old(pageTable[..heapStart / PAGE])
      {
        ghost var a;
        panic, a := IncreaseHeapSize();
        if panic {
          return;
        }
      }
    }

    // --- Pages of a task --------------------------------------------------------------------

    // getTask and getPagina: the position of the task, and of the page in its list.
    method GetTask(id: nat) returns (i: nat)
      ensures i == IndexOfTask(tasks, id, 0)
    {
      i := 0;
      while i < |tasks| && tasks[i].procID != id
        invariant i <= |tasks| && IndexOfTask(tasks, id, 0) == IndexOfTask(tasks, id, i)
      {
        i := i + 1;
      }
    }

    method GetPagina(i: nat, log: Word) returns (j: nat)
      requires i < |tasks|
      ensures j == IndexFrom(tasks[i].pages, log, 0)
    {
      j := 0;
      while j < |tasks[i].pages| && tasks[i].pages[j].log != log
        invariant j <= |tasks[i].pages| && IndexFrom(tasks[i].pages, log, 0) == IndexFrom(tasks[i].pages, log, j)
      {
        j := j + 1;
      }
    }

    // The walk along the list for the place of a new page.
    method AddPaginaToTaskPageList(i: nat, p: Page)
      requires i < |tasks|
      modifies this`tasks
      ensures tasks == old(tasks)[i := old(tasks)[i].(pages := AddPage(old(tasks)[i].pages, p))]
    {
      var s := tasks[i].pages;
      var pages := s + [p];
      if s == [] || p.log < s[0].log {
        pages := [p] + s;
        assert s == [] ==> pages == [p];
      } else {
        var k := 0;
        while k + 1 < |s|
          invariant k < |s| && AddFrom(s, p, 0) == AddFrom(s, p, k) && pages == s + [p]
        {
          if s[k].log <= p.log && s[k + 1].log > p.log {
            pages := s[..k + 1] + [p] + s[k + 2..];
            assert pages == AddFrom(s, p, k);
            break;
          }
          k := k + 1;
        }
        assert pages == AddPage(s, p);
      }
      tasks := tasks[i := tasks[i].(pages := pages)];
    }

    // A new page for task i gets a frame and goes into the list; what the insertion loses is leaked.
    method PutPage(i: nat, log: Word) returns (panic: bool, ghost fis: Word)
      requires Valid() && i < |tasks| && userStart <= log < heapStart && log % PAGE == 0
      requires !HasPage(tasks[i].pages, log)
      modifies this`tasks, this`leaked, bitmap
      ensures panic ==> Full()
      ensures !panic ==> Valid() && tasks == WithPage(old(tasks), i, Page(log, fis))
      ensures !panic ==> IsFrame(fis) && !MarkedIn(old(bitmap[..]), fis)
      ensures !panic ==> leaked == old(leaked) + Frames(Lost(old(tasks)[i].pages, log))
      ensures forall b: Word :: MarkedIn(bitmap[..], b) == (MarkedIn(old(bitmap[..]), b) || (!panic && b == fis))
    {
      ghost var before := tasks;
      var free := TakeFrame();
      fis := free;
      panic := free == 0;
      if !panic {
        AddPaginaToTaskPageList(i, Page(log, free));
        leaked := leaked + Frames(Lost(before[i].pages, log));
        ListsWithPage(before, i, Page(log, free), userStart, heapStart);
        AddedConserved(heapFrames, old(leaked), before, i, Page(log, free), old(bitmap[..]), bitmap[..]);
      }
    }

    // A new page for a task, unless it has one there. Its frame was free. The heap may have grown
    // for the page's record.
    method AllocaNuovaPagina(procID: nat, log: Word) returns (panic: bool, ghost fis: Word)
      requires Valid() && Listed(tasks, procID) && userStart <= log < heapStart && log % PAGE == 0
      modifies this`heapEnd, this`heapFrames, this`tasks, this`leaked, bitmap, pageTable
      ensures panic ==> Full()
      ensures !panic ==> Valid() && old(heapFrames) <= heapFrames
      ensures !panic ==> PageGiven(old(tasks), tasks, IndexOfTask(old(tasks), procID, 0), log, fis, old(leaked), leaked)
      ensures !panic && !HasPage(old(tasks)[IndexOfTask(old(tasks), procID, 0)].pages, log) ==>
        IsFrame(fis) && !MarkedIn(old(bitmap[..]), fis)
      ensures forall b: Word :: MarkedIn(old(bitmap[..]), b) ==> MarkedIn(bitmap[..], b)
      ensures pageTable[..heapStart / PAGE] == old(pageTable[..heapStart / PAGE])
    {
      fis := 0;
      var i := GetTask(procID);
      var j := GetPagina(i, log);
      if j < |tasks[i].pages| {
        return false, fis;
      }
      panic := GrowHeap();
      if !panic {
        panic, fis := PutPage(i, log);
      }
    }

    // A page leaves the list of task i and its frame is free again.
    method DeallocaPagina(procID: nat, log: Word) returns (panic: bool)
      requires Valid() && Listed(tasks, procID)
      modifies this`tasks, bitmap
      ensures panic <==> !HasPage(old(tasks)[IndexOfTask(old(tasks), procID, 0)].pages, log)
      ensures Valid()
      ensures panic ==> tasks == old(tasks) && bitmap[..] == old(bitmap[..])
      ensures !panic ==>
        var i := IndexOfTask(old(tasks), procID, 0);
        var j := IndexFrom(old(tasks)[i].pages, log, 0);
        && tasks == WithoutPage(old(tasks), i, j)
        && |tasks| == |old(tasks)| && (forall k :: 0 <= k < |tasks| && k != i ==> tasks[k] == old(tasks)[k])
        && tasks[i].pages == old(tasks)[i].pages[..j] + old(tasks)[i].pages[j + 1..]
        && (forall b: Word ::
          MarkedIn(bitmap[..], b) == (MarkedIn(old(bitmap[..]), b) && b != old(tasks)[i].pages[j].fis))
    {
      var i := GetTask(procID);
      var j := GetPagina(i, log);
      if j == |tasks[i].pages| {
        return true;
      }
      panic := false;
      var p := tasks[i].pages[j];
      ghost var before := tasks;
      assert IsFrame(p.fis) by { PageIsMarked(i, j); }
      SetPaginaFisica(p.fis, false);
      RemovePaginaFromList(i, j);
      ListsWithoutPage(before, i, j, userStart, heapStart);
      RemovedConserved(heapFrames, leaked, before, i, j, old(bitmap[..]), bitmap[..]);
    }

    method RemovePaginaFromList(i: nat, j: nat)
      requires i < |tasks| && j < |tasks[i].pages|
      modifies this`tasks
      ensures tasks == WithoutPage(old(tasks), i, j)
    {
      tasks := tasks[i := tasks[i].(pages := tasks[i].pages[..j] + tasks[i].pages[j + 1..])];
    }

    // The frame of a listed page is marked, and nothing else has it.
    lemma PageIsMarked(i: nat, j: nat)
      requires Valid() && i < |tasks| && j < |tasks[i].pages|
      ensures MarkedIn(bitmap[..], tasks[i].pages[j].fis)
    {
      var f := tasks[i].pages[j].fis;
      FrameIn(tasks[i].pages, j);
      CountsOne(tasks, i, |tasks|, f);
      assert OwnersOf(heapFrames, leaked, tasks, f) >= 1;
    }

    // All pages of a task are given back, the first one again and again.
    method FreeTaskPages(procID: nat, ghost i: nat)
      requires Valid() && i < |tasks| && i == IndexOfTask(tasks, procID, 0)
      modifies this`tasks, bitmap
      ensures Valid()
      ensures tasks == old(tasks)[i := old(tasks)[i].(pages := [])]
      ensures forall b: Word ::
        MarkedIn(bitmap[..], b) == (MarkedIn(old(bitmap[..]), b) && b !in Frames(old(tasks)[i].pages))
    {
      var at := GetTask(procID);
      ghost var before, k := tasks, 0;
      ghost var s := before[i].pages;
      while tasks[at].pages != []
        invariant Valid() && k <= |s| && tasks == before[i := before[i].(pages := s[k..])]
        invariant forall b: Word :: MarkedIn(bitmap[..], b) == (MarkedIn(old(bitmap[..]), b) && b !in Frames(s[..k]))
        decreases |s| - k
      {
        SameIDs(before, tasks, procID, 0);
        var panic := DeallocaPagina(procID, tasks[at].pages[0].log);
        NextFreed(before, i, k);
        k := k + 1;
      }
      assert s[..k] == s;
    }

    // removeTask, by id. Removing the first task drops the others with it.
    method RemoveTask(procID: nat) returns (found: bool)
      requires Valid()
      modifies this`tasks, this`leaked
      ensures Valid()
      ensures found <==> Listed(old(tasks), procID)
      ensures !found ==> tasks == old(tasks) && leaked == old(leaked)
      ensures found ==> var i := IndexOfTask(old(tasks), procID, 0);
        && tasks == RemoveTaskAt(old(tasks), i) && leaked == old(leaked) + Dropped(old(tasks), i)
        && tasks == if i == 0 then [] else old(tasks)[..i] + old(tasks)[i + 1..]
    {
      var i := GetTask(procID);
      found := i < |tasks|;
      if found {
        ghost var lost := leaked + Dropped(tasks, i);
        ListsRemoved(tasks, i, userStart, heapStart);
        DroppedConserved(heapFrames, leaked, tasks, i, bitmap[..]);
        Unlink(i, lost);
      }
    }

    method Unlink(i: nat, ghost lost: multiset<Word>)
      requires i < |tasks| && Shape() && HeapMapped()
      requires ListsOK(RemoveTaskAt(tasks, i), userStart, heapStart)
      requires ConservedIn(heapFrames, lost, RemoveTaskAt(tasks, i), bitmap[..])
      modifies this`tasks, this`leaked
      ensures Valid() && tasks == RemoveTaskAt(old(tasks), i) && leaked == lost
    {
      tasks := if i == 0 then [] else tasks[..i] + tasks[i + 1..];
      leaked := lost;
    }

    // kill, as far as memory goes: nothing is left under this id, and its frames are free.
    method Kill(procID: nat)
      requires Valid() && Listed(tasks, procID)
      modifies this`tasks, this`leaked, bitmap
      ensures Valid() && !Listed(tasks, procID)
      ensures var i := IndexOfTask(old(tasks), procID, 0);
        && tasks == (if i == 0 then [] else old(tasks)[..i] + old(tasks)[i + 1..])
        && (forall b: Word ::
          MarkedIn(bitmap[..], b) == (MarkedIn(old(bitmap[..]), b) && b !in Frames(old(tasks)[i].pages)))
        && leaked == old(leaked)
          + if i == 0 then AllFrames(old(tasks)[i := old(tasks)[i].(pages := [])], |old(tasks)|) else multiset{}
    {
      ghost var i := IndexOfTask(tasks, procID, 0);
      ghost var before := tasks;
      FreeTaskPages(procID, i);
      SameIDs(before, tasks, procID, 0);
      assert Fis([]) == [];
      var found := RemoveTask(procID);
      assert tasks == RemoveTaskAt(before, i);
      ListsRemoved(before, i, userStart, heapStart);
    }
  }

  // Fields other than the pages do not count.
  lemma SameFrames(m: Memory, before: seq<Task>)
    requires |before| == |m.tasks| && forall j :: 0 <= j < |before| ==> before[j].pages == m.tasks[j].pages
    requires m.Shape() && m.ConservedIn(m.heapFrames, m.leaked, before, m.bitmap[..])
    ensures m.Conserved()
  {
    forall a: Word ensures OwnersOf(m.heapFrames, m.leaked, m.tasks, a) == OwnersOf(m.heapFrames, m.leaked, before, a) {
      SameUpTo(before, m.tasks, |before|, a);
    }
  }

  lemma NextFreed(tasks: seq<Task>, i: nat, k: nat)
    requires i < |tasks| && k < |tasks[i].pages|
    ensures var s := tasks[i].pages;
      && Frames(s[..k + 1]) == Frames(s[..k]) + multiset{s[k].fis}
      && IndexFrom(s[k..], s[k].log, 0) == 0
      && WithoutPage(tasks[i := tasks[i].(pages := s[k..])], i, 0) == tasks[i := tasks[i].(pages := s[k + 1..])]
  {
    var s := tasks[i].pages;
    assert s[..k + 1] == s[..k] + [s[k]];
    FramesSum(s[..k], [s[k]]);
    FramesOne(s[k]);
    assert s[k..][..0] + s[k..][1..] == s[k + 1..];
  }

  // A task's frames lie in memory, on page boundaries.
  lemma FrameInside(m: Memory, i: nat, j: nat)
    requires m.Valid() && i < |m.tasks| && j < |m.tasks[i].pages|
    ensures var f := m.tasks[i].pages[j].fis; f % PAGE == 0 && 0 < f <= m.phys.Length - PAGE
  {
    m.PageIsMarked(i, j);
    AlignedInside(m.tasks[i].pages[j].fis, m.userStart, m.frames, m.phys.Length);
  }

  lemma AlignedInside(f: nat, lo: nat, frames: nat, size: nat)
    requires 0 < lo && lo % PAGE == 0 && lo <= f < lo + PAGE * frames <= size && (f - lo) % PAGE == 0
    ensures f % PAGE == 0 && 0 < f <= size - PAGE
  {}
}

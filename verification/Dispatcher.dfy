// The dispatcher: the page table changes from the running task's pages to another task's.
module Dispatcher {
  import opened Machine
  import opened Pages
  import opened PageTables
  import opened Tasks
  import opened AddressSpaces

  // The pages that the dispatcher takes out of the table: none if no task is running.
  function RunningPages(tasks: seq<Task>, running: Option<nat>): seq<Page> {
    match running
    case None => []
    case Some(id) => var i := IndexOfTask(tasks, id, 0); if i < |tasks| then tasks[i].pages else []
  }

  lemma RunningUserPages(tasks: seq<Task>, running: Option<nat>, lo: nat, hi: nat)
    requires ListsOK(tasks, lo, hi)
    ensures UserPages(RunningPages(tasks, running), lo, hi)
  {}

  // The heap's entries lie above the user area.
  lemma HeapStays(m: Memory, before: seq<Word>, from: seq<Page>, to: seq<Page>)
    requires m.Shape() && |before| == ENTRIES && m.pageTable[..] == Switched(before, from, to)
    requires UserPages(from, m.userStart, m.heapStart) && UserPages(to, m.userStart, m.heapStart)
    requires m.heapEnd == m.heapStart + PAGE * |m.heapFrames| && m.heapStart / PAGE + |m.heapFrames| < ENTRIES
    requires forall i :: 0 <= i < |m.heapFrames| ==>
      before[m.heapStart / PAGE + i] == Selector(m.heapFrames[i], PRESENT + READWRITE)
    ensures m.HeapMapped()
  {
    forall i | 0 <= i < |m.heapFrames|
      ensures m.pageTable[m.heapStart / PAGE + i] == Selector(m.heapFrames[i], PRESENT + READWRITE)
    {
      SwitchedOutside(before, from, to, m.heapStart / PAGE + i, m.userStart, m.heapStart);
    }
  }

  // The table as the processor reads it: the frame of every page on the list, present, writable and
  // open to user code, and nothing where the list before had a page that this one has not.
  ghost predicate Shows(pt: seq<Word>, before: seq<Word>, from: seq<Page>, to: seq<Page>)
    requires |pt| == |before| == ENTRIES
  {
    && (forall p :: p in to ==> pt[p.log / 0x1000] == p.fis + 7)
    && (forall p :: p in from && !HasPage(to, p.log) ==> pt[p.log / 0x1000] == 0)
    && (forall v: Word :: !HasPage(from, v / 0x1000 * 0x1000) && !HasPage(to, v / 0x1000 * 0x1000) ==>
          pt[v / 0x1000] == before[v / 0x1000])
  }

  lemma SwitchedShows(m: Memory, before: seq<Word>, from: seq<Page>, i: nat)
    requires m.Valid() && |before| == ENTRIES && i < |m.tasks| && UserPages(from, m.userStart, m.heapStart)
    ensures Shows(Switched(before, from, m.tasks[i].pages), before, from, m.tasks[i].pages)
  {
    var to := m.tasks[i].pages;
    var pt, mid := Switched(before, from, to), Unmapped(before, from, |from|);
    forall p | p in to ensures pt[p.log / 0x1000] == p.fis + 7 {
      var j :| 0 <= j < |to| && to[j] == p;
      MappedOn(mid, to, |to|, j, m.userStart, m.heapStart);
      FrameInside(m, i, j);
    }
    forall p | p in from && !HasPage(to, p.log) ensures pt[p.log / 0x1000] == 0 {
      SwitchedAt(before, from, to, p.log, m.userStart, m.heapStart);
    }
    forall v: Word | !HasPage(from, v / 0x1000 * 0x1000) && !HasPage(to, v / 0x1000 * 0x1000)
      ensures pt[v / 0x1000] == before[v / 0x1000]
    {
      OffEntry(from, v, m.userStart, m.heapStart);
      OffEntry(to, v, m.userStart, m.heapStart);
      UnmappedAt(before, from, |from|, v / 0x1000);
      MappedOff(mid, to, |to|, v / 0x1000);
    }
  }

  lemma OffEntry(s: seq<Page>, v: Word, lo: nat, hi: nat)
    requires UserPages(s, lo, hi) && !HasPage(s, v / 0x1000 * 0x1000)
    ensures !OnEntry(s, |s|, v / 0x1000)
  {}

  // The first loop of dispatcher_mapPages.
  method RemoveEntries(m: Memory, from: seq<Page>)
    requires m.Shape()
    modifies m.pageTable
    ensures m.pageTable[..] == Unmapped(old(m.pageTable[..]), from, |from|)
  {
    var k := 0;
    ghost var before := m.pageTable[..];
    while k < |from|
      invariant k <= |from| && m.pageTable[..] == Unmapped(before, from, k)
    {
      m.SetPageSelector(EntryIndex(from[k].log), 0, 0);
      k := k + 1;
    }
  }

  // The second one.
  method SetEntries(m: Memory, to: seq<Page>)
    requires m.Shape()
    modifies m.pageTable
    ensures m.pageTable[..] == Mapped(old(m.pageTable[..]), to, |to|)
  {
    var k := 0;
    ghost var before := m.pageTable[..];
    while k < |to|
      invariant k <= |to| && m.pageTable[..] == Mapped(before, to, k)
    {
      m.SetPageSelector(EntryIndex(to[k].log), to[k].fis, PRESENT + READWRITE + USER);
      k := k + 1;
    }
  }

  // dispatcher_mapPages.
  method MapPages(m: Memory, i: nat)
    requires m.Valid() && i < |m.tasks|
    modifies m.pageTable
    ensures m.Valid()
    ensures m.pageTable[..] == Switched(old(m.pageTable[..]), RunningPages(m.tasks, m.running), m.tasks[i].pages)
    ensures Shows(m.pageTable[..], old(m.pageTable[..]), RunningPages(m.tasks, m.running), m.tasks[i].pages)
  {
    ghost var before := m.pageTable[..];
    var from: seq<Page> := [];
    if m.running.Some? {
      var r := m.GetTask(m.running.value);
      if r < |m.tasks| {
        from := m.tasks[r].pages;
      }
    }
    var to := m.tasks[i].pages;
    RemoveEntries(m, from);
    SetEntries(m, to);
    HeapStays(m, before, from, to);
    SwitchedShows(m, before, from, i);
  }

  lemma RunsNow(tasks: seq<Task>, i: nat, time: nat)
    requires i < |tasks| && IndexOfTask(tasks, tasks[i].procID, 0) == i
    ensures RunningPages(tasks[i := tasks[i].(last := time)], Some(tasks[i].procID)) == tasks[i].pages
  {
    SameIDs(tasks, tasks[i := tasks[i].(last := time)], tasks[i].procID, 0);
  }

  // The pages change, and the task is the running one from now on.
  method Enter(m: Memory, i: nat, time: nat)
    requires m.Valid() && i < |m.tasks|
    modifies m`tasks, m`running, m.pageTable
    ensures m.Valid()
    ensures m.tasks == old(m.tasks)[i := old(m.tasks)[i].(last := time)] && m.running == Some(m.tasks[i].procID)
    ensures m.pageTable[..]
         == Switched(old(m.pageTable[..]), RunningPages(old(m.tasks), old(m.running)), m.tasks[i].pages)
    ensures Shows(m.pageTable[..], old(m.pageTable[..]), RunningPages(old(m.tasks), old(m.running)), m.tasks[i].pages)
  {
    ghost var before := m.tasks;
    MapPages(m, i);
    m.tasks := m.tasks[i := m.tasks[i].(last := time)];
    m.running := Some(m.tasks[i].procID);
    SameFrames(m, before);
  }

  lemma SwitchKeepsAgreement(pt: seq<Word>, from: seq<Page>, to: seq<Page>, lo: nat, hi: nat)
    requires |pt| == ENTRIES && UserPages(from, lo, hi) && UserPages(to, lo, hi) && Agrees(pt, from, lo, hi)
    ensures Agrees(Switched(pt, from, to), to, lo, hi)
  {
    SwitchAgreesIff(pt, from, from, to, lo, hi);
  }

  // dispatch up to the jump into the task. Panics if there is no such task. If the user entries were
  // exactly the running task's pages, they are now exactly the dispatched task's.
  method Dispatch(m: Memory, procID: nat, time: nat) returns (panic: bool)
    requires m.Valid()
    modifies m`tasks, m`running, m.pageTable
    ensures m.Valid()
    ensures panic <==> !Listed(old(m.tasks), procID)
    ensures panic ==> m.tasks == old(m.tasks) && m.running == old(m.running) && m.pageTable[..] == old(m.pageTable[..])
    ensures !panic ==>
      var i := IndexOfTask(old(m.tasks), procID, 0);
      && m.tasks == old(m.tasks)[i := old(m.tasks)[i].(last := time)] && m.running == Some(procID)
      && m.pageTable[..] == Switched(old(m.pageTable[..]), RunningPages(old(m.tasks), old(m.running)), m.tasks[i].pages)
      && Shows(m.pageTable[..], old(m.pageTable[..]), RunningPages(old(m.tasks), old(m.running)), m.tasks[i].pages)
    ensures old(Agrees(m.pageTable[..], RunningPages(m.tasks, m.running), m.userStart, m.heapStart))
        ==> Agrees(m.pageTable[..], RunningPages(m.tasks, m.running), m.userStart, m.heapStart)
  {
    var i := m.GetTask(procID);
    panic := i == |m.tasks|;
    if !panic {
      ghost var before, table, from := m.tasks, m.pageTable[..], RunningPages(m.tasks, m.running);
      RunningUserPages(before, m.running, m.userStart, m.heapStart);
      RunsNow(before, i, time);
      Enter(m, i, time);
      if Agrees(table, from, m.userStart, m.heapStart) {
        SwitchKeepsAgreement(table, from, before[i].pages, m.userStart, m.heapStart);
      }
    }
  }
}

// The system calls that concern a task's memory and its descriptors together: fork, kill and exit.
module Syscalls {
  import opened Machine
  import opened Pages
  import opened PageTables
  import opened Tasks
  import opened AddressSpaces
  import opened Dispatcher
  import opened ForkTask
  import opened FileTable
  import opened FileLaws
  import opened Descriptors
  import opened Scheduler

  // Every descriptor belongs to the kernel, which is task 0, or to a task that is listed.
  ghost predicate Owned(t: seq<Node>, tasks: seq<Task>) {
    forall i :: 0 <= i < |t| ==> t[i].procID == 0 || Listed(tasks, t[i].procID)
  }

  lemma CloseWithin(s: Files, procID: nat, id: int, j: nat)
    requires j < |Close(s, procID, id).table|
    ensures Close(s, procID, id).table[j] in s.table
  {
    var t, t', i := s.table, Close(s, procID, id).table, Find(s.table, procID, id, 0);
    if i < |t| {
      var n, r := t[i], RemoveAt(t, i);
      if n.kind.Pipe? && Sharers(r, |r|, n.inode) == 1 {
        var o := OrphanNode(t, i, LastSharer(r, |r|, n.inode), j);
      } else {
        assert t'[j] == t[if j < i then j else j + 1];
      }
    }
  }

  lemma {:induction false} CloseAllWithin(s: Files, procID: nat, n: Node)
    requires n in CloseAll(s, procID).table
    ensures n in s.table
    decreases |s.table|
  {
    var i := FirstOf(s.table, procID, 0);
    if i < |s.table| {
      assert HasKey(s.table[i], procID, s.table[i].id);
      var c := Close(s, procID, s.table[i].id);
      CloseAllWithin(c, procID, n);
      var j :| 0 <= j < |c.table| && c.table[j] == n;
      CloseWithin(s, procID, s.table[i].id, j);
    }
  }

  // An id that no task has is used by no descriptor.
  lemma UnlistedUnused(t: seq<Node>, tasks: seq<Task>, id: nat)
    requires Owned(t, tasks) && id != 0 && id !in IDs(tasks)
    ensures forall i :: 0 <= i < |t| ==> t[i].procID != id
  {
    forall i | 0 <= i < |t| ensures t[i].procID != id {
      var k := IndexOfTask(tasks, t[i].procID, 0);
      assert k < |tasks| ==> tasks[k].procID in IDs(tasks);
    }
  }

  lemma {:induction false} ListedSnoc(tasks: seq<Task>, t: Task, id: nat)
    ensures Listed(tasks + [t], id) <==> Listed(tasks, id) || t.procID == id
  {
    var k := IndexOfTask(tasks + [t], id, 0);
    assert (tasks + [t])[|tasks|] == t;
    if Listed(tasks, id) {
      var j := IndexOfTask(tasks, id, 0);
      assert (tasks + [t])[j].procID == id;
    }
    if k < |tasks| {
      assert tasks[k].procID == id;
    }
  }

  // fork of the running task, whose pages are those in the table: the memory, and then the descriptors.
  method Fork(m: Memory, f: OpenNodes, procID: nat, state: TaskState, wake: nat, ghost i: nat)
    returns (panic: bool, overrun: bool, id: nat, ghost c: seq<Page>)
    requires m.Valid() && f.Valid() && i < |m.tasks| && i == IndexOfTask(m.tasks, procID, 0)
    requires m.running == Some(procID) && Owned(f.State().table, m.tasks)
    requires Agrees(m.pageTable[..], RunningPages(m.tasks, m.running), m.userStart, m.heapStart)
    modifies m`heapEnd, m`heapFrames, m`tasks, m`leaked, m.bitmap, m.pageTable, m.phys, f`openNodeNumber, f.openNodes
    ensures panic ==> m.Full() && f.State() == old(f.State())
    ensures !panic ==> m.Valid() && m.leaked == old(m.leaked) && id !in IDs(old(m.tasks))
    ensures !panic ==> m.tasks == old(m.tasks) + [old(m.tasks)[i].(procID := id, pages := c)]
    ensures !panic ==> |c| == |old(m.tasks)[i].pages| && Copies(old(m.tasks)[i].pages, c, old(m.phys[..]), m.phys[..])
    ensures !panic ==> (overrun <==> |Forked(old(f.State()), procID, id).table| > MAX_OPEN_NODES)
    ensures !panic && !overrun ==> f.Valid() && f.State() == Forked(old(f.State()), procID, id)
    ensures !panic && !overrun ==> Copied(old(f.State()).table, f.State().table, procID, id)
    ensures !panic && !overrun ==> Owned(f.State().table, m.tasks)
  {
    ghost var before, t := m.tasks, f.State().table;
    overrun := false;
    AgreeingIsMapped(m.pageTable[..], m.tasks[i].pages, m.userStart, m.heapStart);
    panic, id, c := ForkTask.Fork(m, procID, state, wake, i);
    if !panic {
      UnlistedUnused(t, before, id);
      assert before[i].procID in IDs(before);
      overrun := f.ForkDescriptors(procID, id);
      if !overrun {
        ForkedOwned(t, before, m.tasks[|before|], procID, id);
      }
    }
  }

  lemma ForkedOwned(t: seq<Node>, tasks: seq<Task>, child: Task, procID: nat, id: nat)
    requires Owned(t, tasks) && child.procID == id
    ensures Owned(t + CopiesFor(t, |t|, procID, id), tasks + [child])
  {
    var t' := t + CopiesFor(t, |t|, procID, id);
    forall i | 0 <= i < |t'| ensures t'[i].procID == 0 || Listed(tasks + [child], t'[i].procID) {
      if i >= |t| {
        var j := CopyOf(t, |t|, procID, id, i - |t|);
      }
      ListedSnoc(tasks, child, t'[i].procID);
    }
  }

  // kill: the descriptors, the pages and the task itself. It panics exactly if a file of the task has a
  // structure that was freed already, or shares it with another of its files. Otherwise nothing is
  // left under its id. Killing the first task drops the others from the list, and then their
  // descriptors belong to no task.
  method Kill(m: Memory, f: OpenNodes, procID: nat) returns (panic: bool)
    requires m.Valid() && f.Valid() && Listed(m.tasks, procID) && Owned(f.State().table, m.tasks)
    modifies m`tasks, m`leaked, m.bitmap, f`openNodeNumber, f`live, f`pipes, f.openNodes
    ensures panic <==> !FilesSound(old(f.State()).table, old(f.live), procID)
    ensures !panic ==> m.Valid() && f.Valid() && !Listed(m.tasks, procID)
    ensures !panic ==> f.State() == CloseAll(old(f.State()), procID)
    ensures !panic ==> forall i :: 0 <= i < |f.State().table| ==> f.State().table[i].procID != procID
    ensures !panic ==> ClosedAll(old(f.State()).table, f.State().table, procID)
    ensures !panic ==>
      var i := IndexOfTask(old(m.tasks), procID, 0);
      && m.tasks == (if i == 0 then [] else old(m.tasks)[..i] + old(m.tasks)[i + 1..])
      && (i > 0 ==> m.leaked == old(m.leaked) && Owned(f.State().table, m.tasks))
    ensures !panic ==>
      var pages := old(m.tasks)[IndexOfTask(old(m.tasks), procID, 0)].pages;
      forall b: Word :: m.MarkedIn(m.bitmap[..], b) == (m.MarkedIn(old(m.bitmap[..]), b) && b !in Frames(pages))
  {
    ghost var before, was := m.tasks, f.State();
    ghost var i := IndexOfTask(before, procID, 0);
    panic := f.CloseAllNodeDescriptors(procID);
    if panic {
      return;
    }
    m.Kill(procID);
    if i > 0 {
      ghost var t := f.State().table;
      forall j | 0 <= j < |t| ensures t[j].procID == 0 || Listed(m.tasks, t[j].procID) {
        CloseAllWithin(was, procID, t[j]);
        if t[j].procID != 0 {
          RemainsListed(before, i, t[j].procID);
        }
      }
    }
  }

  lemma RemainsListed(tasks: seq<Task>, i: nat, id: nat)
    requires 0 < i < |tasks| && Listed(tasks, id) && id != tasks[i].procID
    ensures Listed(RemoveTaskAt(tasks, i), id)
  {
    var k := IndexOfTask(tasks, id, 0);
    var k' := if k < i then k else k - 1;
    assert RemoveTaskAt(tasks, i)[k'] == tasks[k];
  }

  // Wherever the one list has a page in the user area, the other has one too.
  ghost predicate AllOn(a: seq<Page>, b: seq<Page>, lo: nat, hi: nat) {
    forall v: Word :: UserPage(v, lo, hi) && HasPage(a, v) ==> HasPage(b, v)
  }

  // exit: the running task is killed, which may panic; nothing counts as running, and the scheduler is
  // forced. The table then has exactly the next task's pages if and only if that one has a page
  // wherever the exited task had one. If the exited task was the first one, there is no next.
  method Exit(m: Memory, f: OpenNodes, sch: Timetable, procID: nat, now: Word) returns (r: Outcome)
    requires m.Valid() && f.Valid() && Listed(m.tasks, procID) && Owned(f.State().table, m.tasks)
    requires m.running == Some(procID) && sch.active && sch.slice != NEVER
    requires Agrees(m.pageTable[..], RunningPages(m.tasks, m.running), m.userStart, m.heapStart)
    modifies m`tasks, m`leaked, m`running, m.bitmap, m.pageTable
    modifies f`openNodeNumber, f`live, f`pipes, f.openNodes, sch`lastSchedule
    ensures !FilesSound(old(f.State()).table, old(f.live), procID) ==> r == Panic
    ensures FilesSound(old(f.State()).table, old(f.live), procID) ==> m.Valid() && f.Valid()
    ensures FilesSound(old(f.State()).table, old(f.live), procID) ==>
      forall i :: 0 <= i < |f.State().table| ==> f.State().table[i].procID != procID
    ensures FilesSound(old(f.State()).table, old(f.live), procID) ==>
      var i := IndexOfTask(old(m.tasks), procID, 0);
      var rest := RemoveTaskAt(old(m.tasks), i);
      && Chose(rest, None, old(m.pageTable[..]), now, r, m.tasks, m.running, m.pageTable[..])
      && Elected(rest, now, r, m.tasks, m.running)
      && (i == 0 ==> r == Panic)
    ensures r.Dispatched? && r.id != 0 ==>
      var exited := old(m.tasks)[IndexOfTask(old(m.tasks), procID, 0)].pages;
      Agrees(m.pageTable[..], RunningPages(m.tasks, m.running), m.userStart, m.heapStart)
      <==> AllOn(exited, RunningPages(m.tasks, m.running), m.userStart, m.heapStart)
  {
    ghost var exited := m.tasks[IndexOfTask(m.tasks, procID, 0)].pages;
    var panic := Kill(m, f, procID);
    if panic {
      return Panic;
    }
    m.running := None;
    r := ScheduleNext(m, sch, now, exited);
  }

  // The forced choice, while the table still has the exited task's pages.
  method ScheduleNext(m: Memory, sch: Timetable, now: Word, ghost exited: seq<Page>) returns (r: Outcome)
    requires m.Valid() && m.running == None && sch.active && sch.slice != NEVER
    requires UserPages(exited, m.userStart, m.heapStart)
    requires Agrees(m.pageTable[..], exited, m.userStart, m.heapStart)
    modifies m`tasks, m`running, m.pageTable, sch`lastSchedule
    ensures m.Valid() && (old(m.tasks) == [] ==> r == Panic)
    ensures Chose(old(m.tasks), None, old(m.pageTable[..]), now, r, m.tasks, m.running, m.pageTable[..])
    ensures Elected(old(m.tasks), now, r, m.tasks, m.running)
    ensures r.Dispatched? && r.id != 0 ==>
      var pages := RunningPages(m.tasks, m.running);
      Agrees(m.pageTable[..], pages, m.userStart, m.heapStart) <==> AllOn(exited, pages, m.userStart, m.heapStart)
  {
    ghost var rest, table := m.tasks, m.pageTable[..];
    r := sch.ForceSchedule(m, now);
    if r.Dispatched? && r.id != 0 {
      AfterExit(rest, exited, table, now, r, m.tasks, m.running, m.pageTable[..], m.userStart, m.heapStart);
    }
  }

  lemma AfterExit(rest: seq<Task>, exited: seq<Page>, table: seq<Word>, now: nat, r: Outcome, tasks: seq<Task>,
                  running: Option<nat>, pt: seq<Word>, lo: nat, hi: nat)
    requires |table| == |pt| == ENTRIES && Chose(rest, None, table, now, r, tasks, running, pt)
    requires r.Dispatched? && r.id != 0 && ListsOK(rest, lo, hi) && UserPages(exited, lo, hi)
    requires Agrees(table, exited, lo, hi)
    ensures UserPages(RunningPages(tasks, running), lo, hi)
    ensures Agrees(pt, RunningPages(tasks, running), lo, hi)
       <==> AllOn(exited, RunningPages(tasks, running), lo, hi)
  {
    var woken := Woken(rest, |rest|, now);
    var b := Best(woken, |woken|);
    assert b >= 0;
    var to := woken[b].pages;
    assert to == rest[b].pages;
    Unique(tasks, b);
    SwitchAgreesIff(table, exited, [], to, lo, hi);
    assert forall v: Word :: !HasPage([], v);
  }
}

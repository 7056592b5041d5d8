// The scheduler: the ready task that was dispatched least recently comes next.
module Scheduler {
  import opened Machine
  import opened PageTables
  import opened Tasks
  import opened AddressSpaces
  import opened Dispatcher

  const NEVER := 0xFFFF_FFFF  // the bound below which a last dispatch must lie

  // --- The choice ---------------------------------------------------------------------------

  // A sleeping task whose time has passed is woken.
  function Wake(t: Task, now: nat): Task {
    if t.state.Sleeping? && t.wake < now then t.(state := Ready) else t
  }

  // The list after its first n tasks have been looked at.
  function Woken(tasks: seq<Task>, n: nat, now: nat): (r: seq<Task>)
    ensures |r| == |tasks| && forall j :: 0 <= j < |tasks| ==> r[j] == if j < n then Wake(tasks[j], now) else tasks[j]
  {
    seq(|tasks|, j requires 0 <= j < |tasks| => if j < n then Wake(tasks[j], now) else tasks[j])
  }

  // The position of the choice among the first n tasks; -1 if there is none.
  function Best(tasks: seq<Task>, n: nat): (b: int)
    requires n <= |tasks|
    ensures -1 <= b < n && (b >= 0 ==> tasks[b].state.Ready? && tasks[b].last < NEVER)
  {
    if n == 0 then -1
    else
      var b, t := Best(tasks, n - 1), tasks[n - 1];
      if t.state.Ready? && t.last < (if b < 0 then NEVER else tasks[b].last) then n - 1 else b
  }

  // The choice is the ready task with the least last dispatch, the first one of them in the list;
  // there is none exactly if no ready task has been dispatched before NEVER.
  lemma {:induction false} BestIs(tasks: seq<Task>, n: nat, j: nat)
    requires j < n <= |tasks| && tasks[j].state.Ready? && tasks[j].last < NEVER
    ensures var b := Best(tasks, n);
      b >= 0 && (tasks[b].last < tasks[j].last || (tasks[b].last == tasks[j].last && b <= j))
  {
    if j < n - 1 { BestIs(tasks, n - 1, j); }
  }

  lemma {:induction false} BestSame(a: seq<Task>, b: seq<Task>, n: nat)
    requires n <= |a| && n <= |b| && forall j :: 0 <= j < n ==> a[j] == b[j]
    ensures Best(a, n) == Best(b, n)
  {
    if n > 0 { BestSame(a, b, n - 1); }
  }

  // The scan of the first n tasks has found this.
  ghost predicate Scanned(tasks: seq<Task>, n: nat, min: nat, id: nat) {
    && n <= |tasks|
    && var b := Best(tasks, n);
       if b < 0 then min == NEVER && id == 0 else min == tasks[b].last && id == tasks[b].procID
  }

  lemma ScanStep(before: seq<Task>, tasks: seq<Task>, tasks': seq<Task>, k: nat, now: nat, min: nat, id: nat)
    requires k < |before| && tasks == Woken(before, k, now) && tasks' == tasks[k := Wake(tasks[k], now)]
    requires Scanned(tasks, k, min, id)
    ensures tasks' == Woken(before, k + 1, now)
    ensures var t := tasks'[k]; var less := t.state.Ready? && t.last < min;
      Scanned(tasks', k + 1, if less then t.last else min, if less then t.procID else id)
  {
    BestSame(tasks, tasks', k);
  }

  // --- The scheduler ------------------------------------------------------------------------

  datatype Outcome = NotYet | Inactive | Dispatched(id: nat) | Panic

  // The sleepers were woken, and the best task was dispatched, if there was one.
  ghost predicate Chose(tasks: seq<Task>, running: Option<nat>, pt: seq<Word>, now: nat, r: Outcome,
                        tasks': seq<Task>, running': Option<nat>, pt': seq<Word>)
    requires |pt| == ENTRIES
  {
    var woken := Woken(tasks, |tasks|, now);
    var b := Best(woken, |woken|);
    var id := if b < 0 then 0 else woken[b].procID;
    && (r.Dispatched? <==> Listed(woken, id)) && (r.Dispatched? ==> r.id == id)
    && (r.Dispatched? && b >= 0 ==>
          && running' == Some(r.id) && tasks' == woken[b := woken[b].(last := now)]
          && pt' == Switched(pt, RunningPages(tasks, running), woken[b].pages))
  }

  // --- The choice, on the list as it was ----------------------------------------------------

  // Ready, or asleep with a time that has passed.
  predicate Due(t: Task, now: nat) { t.state.Ready? || (t.state.Sleeping? && t.wake < now) }

  ghost predicate Candidate(tasks: seq<Task>, now: nat, j: nat) {
    j < |tasks| && Due(tasks[j], now) && tasks[j].last < NEVER
  }

  // Of all that are due the one that was dispatched least recently, the first of them in the list.
  ghost predicate IsChoice(tasks: seq<Task>, now: nat, b: nat) {
    && Candidate(tasks, now, b)
    && forall j: nat :: Candidate(tasks, now, j) ==>
         tasks[b].last < tasks[j].last || (tasks[b].last == tasks[j].last && b <= j)
  }

  // All that are due are ready now, and nothing else has changed.
  ghost predicate AllWoken(tasks: seq<Task>, now: nat, tasks': seq<Task>) {
    |tasks'| == |tasks| && forall j :: 0 <= j < |tasks| ==>
      tasks'[j] == if Due(tasks[j], now) then tasks[j].(state := Ready) else tasks[j]
  }

  // If any task is a candidate, the choice among them has been dispatched, at this time.
  ghost predicate Elected(tasks: seq<Task>, now: nat, r: Outcome, tasks': seq<Task>, running': Option<nat>) {
    if exists j: nat :: Candidate(tasks, now, j) then
      exists b: nat, woken ::
        IsChoice(tasks, now, b) && AllWoken(tasks, now, woken) && Took(woken, b, now, r, tasks', running')
    else r.Dispatched? ==> r.id == 0
  }

  ghost predicate Took(woken: seq<Task>, b: nat, now: nat, r: Outcome, tasks': seq<Task>, running': Option<nat>) {
    && b < |woken| && r == Dispatched(woken[b].procID) && running' == Some(woken[b].procID)
    && tasks' == woken[b := woken[b].(last := now)]
  }

  lemma WokenIs(tasks: seq<Task>, now: nat)
    ensures AllWoken(tasks, now, Woken(tasks, |tasks|, now))
  {}

  // The scan over the woken list makes this choice.
  lemma BestIsChoice(tasks: seq<Task>, now: nat)
    ensures var woken := Woken(tasks, |tasks|, now);
      var b := Best(woken, |woken|);
      if b >= 0 then IsChoice(tasks, now, b) else forall j: nat :: !Candidate(tasks, now, j)
  {
    var woken := Woken(tasks, |tasks|, now);
    WokenIs(tasks, now);
    forall j: nat | Candidate(tasks, now, j)
      ensures var b := Best(woken, |woken|);
        b >= 0 && (tasks[b].last < tasks[j].last || (tasks[b].last == tasks[j].last && b <= j))
    {
      BestIs(woken, |woken|, j);
    }
  }

  lemma ChoseIs(tasks: seq<Task>, running: Option<nat>, pt: seq<Word>, now: nat, r: Outcome, tasks': seq<Task>,
                running': Option<nat>, pt': seq<Word>)
    requires |pt| == ENTRIES && Chose(tasks, running, pt, now, r, tasks', running', pt')
    ensures Elected(tasks, now, r, tasks', running')
  {
    var woken := Woken(tasks, |tasks|, now);
    var b := Best(woken, |woken|);
    BestIsChoice(tasks, now);
    WokenIs(tasks, now);
    if b >= 0 {
      assert Candidate(tasks, now, b);
      assert Took(woken, b, now, r, tasks', running');
    }
  }

  class Timetable {
    var lastSchedule: Word
    var active: bool
    var slice: Word
    const idleTaskID: nat

    constructor (idle: nat)
      ensures slice == 25 && !active && lastSchedule == 0 && idleTaskID == idle
    {
      slice, active, lastSchedule, idleTaskID := 25, false, 0, idle;
    }

    // One task is looked at: woken if it is time, and taken if it is better than what there was.
    method Look(m: Memory, k: nat, now: Word, min: nat, id: nat, ghost before: seq<Task>) returns (min': nat, id': nat)
      requires k < |m.tasks| && m.tasks == Woken(before, k, now) && Scanned(m.tasks, k, min, id)
      modifies m`tasks
      ensures k < |m.tasks| && m.tasks == Woken(before, k + 1, now) && Scanned(m.tasks, k + 1, min', id')
    {
      ghost var tasks := m.tasks;
      if m.tasks[k].state.Sleeping? && m.tasks[k].wake < now {
        m.tasks := m.tasks[k := m.tasks[k].(state := Ready)];
      }
      ScanStep(before, tasks, m.tasks, k, now, min, id);
      min', id' := min, id;
      if m.tasks[k].state.Ready? && m.tasks[k].last < min {
        min' := m.tasks[k].last;
        id' := m.tasks[k].procID;
      }
    }

    // The scan of the list.
    method Scan(m: Memory, now: Word) returns (id: nat, ghost min: nat)
      modifies m`tasks
      ensures m.tasks == Woken(old(m.tasks), |old(m.tasks)|, now) && Scanned(m.tasks, |m.tasks|, min, id)
    {
      var least: nat := NEVER;
      id := 0;
      var k := 0;
      ghost var before := m.tasks;
      while k < |m.tasks|
        invariant k <= |m.tasks| && m.tasks == Woken(before, k, now) && Scanned(m.tasks, k, least, id)
      {
        least, id := Look(m, k, now, least, id, before);
        k := k + 1;
      }
      min := least;
    }

    // Sleepers are woken, and the choice's id is found; 0 if there is none.
    method Choose(m: Memory, now: Word) returns (id: nat)
      requires m.Valid()
      modifies m`tasks
      ensures m.Valid() && m.tasks == Woken(old(m.tasks), |old(m.tasks)|, now)
      ensures var b := Best(m.tasks, |m.tasks|); id == if b < 0 then 0 else m.tasks[b].procID
      ensures |m.tasks| == |old(m.tasks)| && forall j :: 0 <= j < |m.tasks| ==>
        var t := old(m.tasks)[j];
        m.tasks[j] == if t.state.Sleeping? && t.wake < now then t.(state := Ready) else t
      ensures if exists j: nat :: Candidate(old(m.tasks), now, j)
        then exists b: nat :: IsChoice(old(m.tasks), now, b) && id == old(m.tasks)[b].procID
        else id == 0
    {
      ghost var before := m.tasks;
      WokenIs(before, now);
      BestIsChoice(before, now);
      ghost var min;
      id, min := Scan(m, now);
      SameFrames(m, before);
    }

    // schedule. The idle task gets the processor the same way as any other.
    method Schedule(m: Memory, now: Word) returns (r: Outcome)
      requires m.Valid()
      modifies this`lastSchedule, m`tasks, m`running, m.pageTable
      ensures m.Valid()
      ensures r == NotYet <==> Sub32(now, old(lastSchedule)) < slice
      ensures r == Inactive <==> Sub32(now, old(lastSchedule)) >= slice && !active
      ensures r == NotYet || r == Inactive ==>
        && m.tasks == old(m.tasks) && m.running == old(m.running)
        && lastSchedule == old(lastSchedule) && m.pageTable[..] == old(m.pageTable[..])
      ensures r == Panic || r.Dispatched? ==>
        && lastSchedule == now
        && Chose(old(m.tasks), old(m.running), old(m.pageTable[..]), now, r, m.tasks, m.running, m.pageTable[..])
      ensures r == Panic || r.Dispatched? ==> Elected(old(m.tasks), now, r, m.tasks, m.running)
    {
      if Sub32(now, lastSchedule) < slice {
        return NotYet;
      }
      if !active {
        return Inactive;
      }
      lastSchedule := now;
      r := Elect(m, now);
    }

    // The rest of schedule.
    method Elect(m: Memory, now: Word) returns (r: Outcome)
      requires m.Valid()
      modifies m`tasks, m`running, m.pageTable
      ensures m.Valid() && (r == Panic || r.Dispatched?)
      ensures Chose(old(m.tasks), old(m.running), old(m.pageTable[..]), now, r, m.tasks, m.running, m.pageTable[..])
      ensures Elected(old(m.tasks), now, r, m.tasks, m.running)
    {
      var id := Choose(m, now);
      ghost var woken := m.tasks;
      ghost var b := Best(woken, |woken|);
      WokenRunning(old(m.tasks), woken, now, m.running);
      if b >= 0 {
        Unique(woken, b);
      }
      var panic;
      if id != idleTaskID {
        panic := Dispatch(m, id, now);
      } else {
        panic := Dispatch(m, idleTaskID, now);
      }
      r := if panic then Panic else Dispatched(id);
      ChoseIs(old(m.tasks), old(m.running), old(m.pageTable[..]), now, r, m.tasks, m.running, m.pageTable[..]);
    }

    // forceSchedule makes time for schedule, unless the time slice is the greatest word.
    method ForceSchedule(m: Memory, now: Word) returns (r: Outcome)
      requires m.Valid() && active
      modifies this`lastSchedule, m`tasks, m`running, m.pageTable
      ensures m.Valid()
      ensures r == NotYet <==> slice == NEVER
      ensures slice != NEVER ==>
        Chose(old(m.tasks), old(m.running), old(m.pageTable[..]), now, r, m.tasks, m.running, m.pageTable[..])
      ensures slice != NEVER ==> Elected(old(m.tasks), now, r, m.tasks, m.running)
      ensures r != Inactive
    {
      lastSchedule := (now - slice - 1) % WORD;
      ForcedIff(now, slice);
      r := Schedule(m, now);
    }
  }

  // Waking changes no pages.
  lemma WokenRunning(tasks: seq<Task>, woken: seq<Task>, now: nat, running: Option<nat>)
    requires woken == Woken(tasks, |tasks|, now)
    ensures RunningPages(woken, running) == RunningPages(tasks, running)
  {
    if running.Some? {
      SameIDs(tasks, woken, running.value, 0);
    }
  }

  lemma ForcedIff(now: Word, slice: Word)
    ensures Sub32(now, (now - slice - 1) % WORD) < slice <==> slice == NEVER
  {
    assert Sub32(now, (now - slice - 1) % WORD) == (slice + 1) % WORD;
  }

  lemma Unique(tasks: seq<Task>, b: nat)
    requires UniqueIDs(tasks) && b < |tasks|
    ensures IndexOfTask(tasks, tasks[b].procID, 0) == b
  {}

  // While the idle task is listed and ready, something ready is dispatched.
  lemma IdleIsEnough(tasks: seq<Task>, now: nat, idle: nat)
    requires idle < |tasks| && tasks[idle].state.Ready? && tasks[idle].last < NEVER
    ensures var woken := Woken(tasks, |tasks|, now);
      var b := Best(woken, |woken|);
      0 <= b < |woken| && woken[b].state.Ready? && Listed(woken, woken[b].procID)
  {
    var woken := Woken(tasks, |tasks|, now);
    BestIs(woken, |woken|, idle);
  }
}

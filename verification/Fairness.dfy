// Runs of the scheduler between fork, sleep, exit and kill: a ready task is not passed over for ever.
module Fairness {
  import opened Machine
  import opened Pages
  import opened PageTables
  import opened Tasks
  import opened Scheduler

  datatype System = System(tasks: seq<Task>, running: Option<nat>, clock: nat)

  // What can happen. Only the running task forks, sleeps or exits. A task may kill itself by id: then
  // none is listed as running until the next is dispatched.
  datatype Event =
    | Schedule(now: nat)
    | Fork(id: nat, pages: seq<Page>)
    | Sleep(wake: nat)
    | Exit
    | Kill(id: nat)

  function RunningIndex(s: System): (i: nat)
    ensures i <= |s.tasks|
  {
    match s.running case None => |s.tasks| case Some(id) => IndexOfTask(s.tasks, id, 0)
  }

  // The position that schedule chooses; -1 if there is none.
  function Chosen(s: System, now: nat): int {
    var woken := Woken(s.tasks, |s.tasks|, now);
    Best(woken, |woken|)
  }

  predicate Enabled(s: System, e: Event) {
    match e
    case Schedule(now) => s.clock <= now < NEVER && Chosen(s, now) >= 0
    case Fork(id, _) => RunningIndex(s) < |s.tasks| && !Listed(s.tasks, id)
    case Sleep(_) => RunningIndex(s) < |s.tasks|
    case Exit => RunningIndex(s) < |s.tasks|
    case Kill(id) => Listed(s.tasks, id)
  }

  function Step(s: System, e: Event): System
    requires Enabled(s, e)
  {
    var r := RunningIndex(s);
    match e
    case Schedule(now) =>
      var woken, b := Woken(s.tasks, |s.tasks|, now), Chosen(s, now);
      System(woken[b := woken[b].(last := now)], Some(woken[b].procID), now)
    case Fork(id, pages) => s.(tasks := s.tasks + [s.tasks[r].(procID := id, pages := pages)])
    case Sleep(wake) => s.(tasks := s.tasks[r := s.tasks[r].(state := Sleeping, wake := wake)])
    case Exit => s.(tasks := RemoveTaskAt(s.tasks, r), running := None)
    case Kill(id) => s.(tasks := RemoveTaskAt(s.tasks, IndexOfTask(s.tasks, id, 0)))
  }

  // The clock is past every dispatch, and the running task's is the latest one.
  ghost predicate Inv(s: System) {
    && UniqueIDs(s.tasks) && (forall j :: 0 <= j < |s.tasks| ==> s.tasks[j].last <= s.clock)
    && (RunningIndex(s) < |s.tasks| ==>
      forall j :: 0 <= j < |s.tasks| ==> s.tasks[j].last <= s.tasks[RunningIndex(s)].last)
  }

  // --- Being ahead --------------------------------------------------------------------------

  // A task at position j comes before one at position x that was dispatched last at time l.
  predicate Beats(t: Task, j: nat, l: nat, x: nat) { t.last < l || (t.last == l && j < x) }

  // The number of such tasks among the first n.
  function Ahead(tasks: seq<Task>, n: nat, l: nat, x: nat): (r: nat)
    requires n <= |tasks|
    ensures r <= n && (x < n && l <= tasks[x].last ==> r < n)
  {
    if n == 0 then 0 else Ahead(tasks, n - 1, l, x) + if Beats(tasks[n - 1], n - 1, l, x) then 1 else 0
  }

  lemma {:induction false} AheadSame(a: seq<Task>, b: seq<Task>, n: nat, l: nat, x: nat)
    requires n <= |a| && n <= |b| && forall j :: 0 <= j < n ==> a[j].last == b[j].last
    ensures Ahead(a, n, l, x) == Ahead(b, n, l, x)
  {
    if n > 0 { AheadSame(a, b, n - 1, l, x); }
  }

  // One that was ahead is dispatched later than l.
  lemma {:induction false} AheadLess(a: seq<Task>, b: seq<Task>, i: nat, n: nat, l: nat, x: nat)
    requires i < n <= |a| == |b| && (forall j :: 0 <= j < n && j != i ==> a[j].last == b[j].last)
    requires Beats(a[i], i, l, x) && b[i].last > l
    ensures Ahead(b, n, l, x) + 1 == Ahead(a, n, l, x)
  {
    if i == n - 1 {
      AheadSame(a, b, n - 1, l, x);
    } else {
      AheadLess(a, b, i, n - 1, l, x);
    }
  }

  // Another one leaves the list.
  lemma {:induction false} AheadWithout(a: seq<Task>, less: seq<Task>, i: nat, n: nat, l: nat, x: nat)
    requires i < n <= |a| == |less| + 1 && i != x
    requires forall j {:trigger less[j]} :: 0 <= j < |less| ==> less[j] == a[if j < i then j else j + 1]
    ensures Ahead(less, n - 1, l, if x < i then x else x - 1) <= Ahead(a, n, l, x)
  {
    var x' := if x < i then x else x - 1;
    if i == n - 1 {
      AheadMoved(a, less, n - 1, l, x, x');
    } else {
      AheadWithout(a, less, i, n - 1, l, x);
      assert less[n - 2] == a[n - 1];
    }
  }

  lemma {:induction false} AheadMoved(a: seq<Task>, b: seq<Task>, n: nat, l: nat, x: nat, x': nat)
    requires n <= |a| && n <= |b| && (forall j :: 0 <= j < n ==> a[j].last == b[j].last) && x' <= x
    ensures Ahead(b, n, l, x') <= Ahead(a, n, l, x)
  {
    if n > 0 { AheadMoved(a, b, n - 1, l, x, x'); }
  }

  // --- One event ----------------------------------------------------------------------------

  function Position(s: System, id: nat): nat { IndexOfTask(s.tasks, id, 0) }

  // The task is there and ready, and the clock has passed its last dispatch.
  ghost predicate Waiting(s: System, id: nat) {
    var x := Position(s, id);
    x < |s.tasks| && s.tasks[x].state.Ready? && s.tasks[x].last < s.clock
  }

  predicate Picks(s: System, e: Event, id: nat)
    requires Enabled(s, e)
  {
    e.Schedule? && s.tasks[Chosen(s, e.now)].procID == id
  }

  // How many tasks are ahead of the waiting one.
  function AheadOf(s: System, id: nat): (r: nat)
    requires Position(s, id) < |s.tasks|
    ensures r < |s.tasks|
  {
    Ahead(s.tasks, |s.tasks|, s.tasks[Position(s, id)].last, Position(s, id))
  }

  // The list after something has left it, seen from another task.
  ghost predicate Without(a: seq<Task>, less: seq<Task>, i: nat) {
    i < |a| == |less| + 1 && forall j {:trigger less[j]} :: 0 <= j < |less| ==> less[j] == a[if j < i then j else j + 1]
  }

  lemma WithoutPosition(a: seq<Task>, less: seq<Task>, i: nat, id: nat)
    requires UniqueIDs(a) && Without(a, less, i) && Listed(less, id)
    ensures UniqueIDs(less)
    ensures var x := IndexOfTask(a, id, 0); x < |a| && i != x && IndexOfTask(less, id, 0) == if x < i then x else x - 1
  {
    forall j, k | 0 <= j < k < |less| ensures less[j].procID != less[k].procID {
      assert less[j] == a[if j < i then j else j + 1] && less[k] == a[if k < i then k else k + 1];
    }
    var y := IndexOfTask(less, id, 0);
    var x := if y < i then y else y + 1;
    assert less[y] == a[x];
    Unique(a, x);
  }

  lemma RemovedIs(a: seq<Task>, i: nat)
    requires 0 < i < |a|
    ensures Without(a, RemoveTaskAt(a, i), i)
  {
    var less := RemoveTaskAt(a, i);
    forall j {:trigger less[j]} | 0 <= j < |less| ensures less[j] == a[if j < i then j else j + 1] {
      assert j < i ==> less[j] == a[..i][j];
      assert j >= i ==> less[j] == a[i + 1..][j - i];
    }
  }

  lemma RemoveAhead(a: seq<Task>, less: seq<Task>, i: nat, id: nat, x: nat, x': nat)
    requires UniqueIDs(a) && Without(a, less, i) && Listed(less, id)
    requires x == IndexOfTask(a, id, 0) && x' == IndexOfTask(less, id, 0)
    ensures x < |a| && less[x'] == a[x] && Ahead(less, |less|, a[x].last, x') <= Ahead(a, |a|, a[x].last, x)
  {
    WithoutPosition(a, less, i, id);
    AheadWithout(a, less, i, |a|, a[x].last, x);
  }

  lemma RemoveInv(s: System, s': System, i: nat)
    requires Inv(s) && Without(s.tasks, s'.tasks, i) && s'.clock == s.clock && UniqueIDs(s'.tasks)
    requires s'.running == None || s'.running == s.running
    ensures Inv(s')
  {
    var less := s'.tasks;
    forall j | 0 <= j < |less| ensures less[j] in s.tasks {
      assert less[j] == s.tasks[if j < i then j else j + 1];
    }
    var r := RunningIndex(s');
    if r < |less| {
      WithoutPosition(s.tasks, less, i, s'.running.value);
      assert less[r] == s.tasks[RunningIndex(s)];
    }
  }

  lemma RemoveKeeps(s: System, s': System, i: nat, id: nat)
    requires Inv(s) && i < |s.tasks| && Listed(s'.tasks, id)
    requires s' == s.(tasks := RemoveTaskAt(s.tasks, i), running := s'.running)
    requires s'.running == None || s'.running == s.running
    ensures Inv(s') && Listed(s.tasks, id) && AheadOf(s', id) <= AheadOf(s, id)
  {
    RemovedIs(s.tasks, i);
    RemoveAhead(s.tasks, s'.tasks, i, id, Position(s, id), Position(s', id));
    WithoutPosition(s.tasks, s'.tasks, i, id);
    RemoveInv(s, s', i);
  }

  // The task is there, ready or asleep with a time that has passed, and was last dispatched before now.
  ghost predicate DueAt(s: System, now: nat, id: nat) {
    var x := Position(s, id);
    x < |s.tasks| && Due(s.tasks[x], now) && s.tasks[x].last < now
  }

  // Whoever is due at a schedule and is not chosen waits from then on, and one task less is ahead.
  lemma ScheduleKeeps(s: System, now: nat, id: nat)
    requires Inv(s) && Enabled(s, Schedule(now)) && DueAt(s, now, id) && !Picks(s, Schedule(now), id)
    ensures var s' := Step(s, Schedule(now));
      && Inv(s') && Waiting(s', id) && Position(s', id) == Position(s, id)
      && s'.tasks[Position(s, id)].last == s.tasks[Position(s, id)].last
      && AheadOf(s', id) + 1 == AheadOf(s, id)
  {
    var s', x, b := Step(s, Schedule(now)), Position(s, id), Chosen(s, now);
    var woken := Woken(s.tasks, |s.tasks|, now);
    SameIDs(s.tasks, s'.tasks, id, 0);
    BestIs(woken, |woken|, x);
    AheadSame(s.tasks, woken, |woken|, s.tasks[x].last, x);
    AheadLess(woken, s'.tasks, b, |woken|, s.tasks[x].last, x);
    Unique(s'.tasks, b);
  }

  lemma ForkKeeps(s: System, e: Event, id: nat)
    requires Inv(s) && e.Fork? && Enabled(s, e) && Waiting(s, id)
    ensures var s' := Step(s, e);
      && Inv(s') && Position(s', id) == Position(s, id) && AheadOf(s', id) == AheadOf(s, id)
  {
    var s', x := Step(s, e), Position(s, id);
    Unique(s'.tasks, x);
    Unique(s'.tasks, RunningIndex(s));
    AheadSame(s.tasks, s'.tasks, |s.tasks|, s.tasks[x].last, x);
  }

  lemma SleepKeeps(s: System, e: Event, id: nat)
    requires Inv(s) && e.Sleep? && Enabled(s, e) && Waiting(s, id)
    ensures var s' := Step(s, e);
      && Inv(s') && Position(s', id) == Position(s, id) && AheadOf(s', id) == AheadOf(s, id)
  {
    var s' := Step(s, e);
    SameIDs(s.tasks, s'.tasks, id, 0);
    SameIDs(s.tasks, s'.tasks, s.running.value, 0);
    AheadSame(s.tasks, s'.tasks, |s.tasks|, s.tasks[Position(s, id)].last, Position(s, id));
  }

  // Every dispatch of another task has one task less ahead; nothing else puts a task ahead, not
  // even fork: the child takes over the running task's dispatch time, which is the latest, and stands last.
  lemma StepKeeps(s: System, e: Event, id: nat)
    requires Inv(s) && Enabled(s, e) && Waiting(s, id) && Waiting(Step(s, e), id) && !Picks(s, e, id)
    ensures Inv(Step(s, e))
    ensures AheadOf(Step(s, e), id) + (if e.Schedule? then 1 else 0) <= AheadOf(s, id)
  {
    match e
    case Schedule(now) => ScheduleKeeps(s, now, id);
    case Fork(_, _) => ForkKeeps(s, e, id);
    case Sleep(_) => SleepKeeps(s, e, id);
    case Exit => RemoveKeeps(s, Step(s, e), RunningIndex(s), id);
    case Kill(k) => RemoveKeeps(s, Step(s, e), IndexOfTask(s.tasks, k, 0), id);
  }

  // --- Runs ---------------------------------------------------------------------------------

  // The task stays ready through the run and is not dispatched.
  ghost predicate Waits(s: System, es: seq<Event>, id: nat)
    decreases |es|
  {
    Waiting(s, id) && (es == [] || (Enabled(s, es[0]) && !Picks(s, es[0], id) && Waits(Step(s, es[0]), es[1..], id)))
  }

  function Dispatches(es: seq<Event>): nat {
    if es == [] then 0 else (if es[0].Schedule? then 1 else 0) + Dispatches(es[1..])
  }

  // As long as a ready task waits, there are no more dispatches than tasks that were ahead of it.
  lemma {:induction false} BoundedBypass(s: System, es: seq<Event>, id: nat)
    requires Inv(s) && Waits(s, es, id)
    ensures Dispatches(es) <= AheadOf(s, id)
    decreases |es|
  {
    if es != [] {
      StepKeeps(s, es[0], id);
      BoundedBypass(Step(s, es[0]), es[1..], id);
    }
  }

  // The same for a sleeper, from the first schedule after its time: if that schedule takes another
  // task, the sleeper waits, and the dispatches until it stops waiting are no more than the tasks
  // that were ahead of it, that first one included.
  lemma DueBypass(s: System, now: nat, es: seq<Event>, id: nat)
    requires Inv(s) && Enabled(s, Schedule(now)) && DueAt(s, now, id) && !Picks(s, Schedule(now), id)
    ensures var s' := Step(s, Schedule(now));
      Waiting(s', id) && (Waits(s', es, id) ==> 1 + Dispatches(es) <= AheadOf(s, id))
  {
    var s' := Step(s, Schedule(now));
    ScheduleKeeps(s, now, id);
    if Waits(s', es, id) {
      BoundedBypass(s', es, id);
    }
  }

  // --- Each of the others at most once ------------------------------------------------------

  // The task y is not ahead of the waiting one, if it is there at all.
  ghost predicate Behind(tasks: seq<Task>, y: nat, id: nat) {
    var j, x := IndexOfTask(tasks, y, 0), IndexOfTask(tasks, id, 0);
    x < |tasks| && (j < |tasks| ==> !Beats(tasks[j], j, tasks[x].last, x))
  }

  lemma PickedWasAhead(s: System, now: nat, y: nat, id: nat)
    requires Inv(s) && Enabled(s, Schedule(now)) && Waiting(s, id) && y != id && Picks(s, Schedule(now), y)
    ensures !Behind(s.tasks, y, id) && Behind(Step(s, Schedule(now)).tasks, y, id)
  {
    var s', x, b := Step(s, Schedule(now)), Position(s, id), Chosen(s, now);
    var woken := Woken(s.tasks, |s.tasks|, now);
    BestIs(woken, |woken|, x);
    SameIDs(s.tasks, s'.tasks, id, 0);
    SameIDs(s.tasks, s'.tasks, y, 0);
    Unique(s.tasks, b);
  }

  lemma OtherScheduled(s: System, now: nat, y: nat, id: nat)
    requires Inv(s) && Enabled(s, Schedule(now)) && Waiting(s, id) && Behind(s.tasks, y, id)
    requires !Picks(s, Schedule(now), id) && !Picks(s, Schedule(now), y)
    ensures Behind(Step(s, Schedule(now)).tasks, y, id)
  {
    var s' := Step(s, Schedule(now));
    SameIDs(s.tasks, s'.tasks, id, 0);
    SameIDs(s.tasks, s'.tasks, y, 0);
  }

  lemma ForkedBehind(s: System, e: Event, y: nat, id: nat)
    requires Inv(s) && e.Fork? && Enabled(s, e) && Waiting(s, id) && Behind(s.tasks, y, id)
    ensures Behind(Step(s, e).tasks, y, id)
  {
    var s' := Step(s, e);
    ForkKeeps(s, e, id);
    if Listed(s.tasks, y) {
      Unique(s'.tasks, Position(s, y));
    } else if y == e.id {
      Unique(s'.tasks, |s.tasks|);
    }
  }

  lemma RemovedBehind(a: seq<Task>, less: seq<Task>, i: nat, y: nat, id: nat)
    requires UniqueIDs(a) && Without(a, less, i) && Listed(less, id) && Behind(a, y, id)
    ensures Behind(less, y, id)
  {
    RemoveAhead(a, less, i, id, IndexOfTask(a, id, 0), IndexOfTask(less, id, 0));
    WithoutPosition(a, less, i, id);
    if Listed(less, y) {
      RemoveAhead(a, less, i, y, IndexOfTask(a, y, 0), IndexOfTask(less, y, 0));
      WithoutPosition(a, less, i, y);
    }
  }

  lemma BehindStays(s: System, e: Event, y: nat, id: nat)
    requires Inv(s) && Enabled(s, e) && Waiting(s, id) && Waiting(Step(s, e), id) && Behind(s.tasks, y, id)
    requires y != id && !Picks(s, e, id)
    ensures !Picks(s, e, y) && Behind(Step(s, e).tasks, y, id)
  {
    var s' := Step(s, e);
    match e
    case Schedule(now) =>
      if Picks(s, e, y) {
        PickedWasAhead(s, now, y, id);
      } else {
        OtherScheduled(s, now, y, id);
      }
    case Fork(_, _) => ForkedBehind(s, e, y, id);
    case Sleep(_) =>
      SameIDs(s.tasks, s'.tasks, id, 0);
      SameIDs(s.tasks, s'.tasks, y, 0);
    case Exit =>
      RemovedIs(s.tasks, RunningIndex(s));
      RemovedBehind(s.tasks, s'.tasks, RunningIndex(s), y, id);
    case Kill(k) =>
      RemovedIs(s.tasks, IndexOfTask(s.tasks, k, 0));
      RemovedBehind(s.tasks, s'.tasks, IndexOfTask(s.tasks, k, 0), y, id);
  }

  // How often a run dispatches the task y.
  function DispatchesOf(s: System, es: seq<Event>, y: nat, id: nat): nat
    requires Waits(s, es, id)
    decreases |es|
  {
    if es == [] then 0
    else (if Picks(s, es[0], y) then 1 else 0) + DispatchesOf(Step(s, es[0]), es[1..], y, id)
  }

  // While a ready task waits, every other task is dispatched at most once, and one that is not
  // ahead of it is not dispatched at all.
  lemma {:induction false} AtMostOnce(s: System, es: seq<Event>, y: nat, id: nat)
    requires Inv(s) && Waits(s, es, id) && y != id
    ensures DispatchesOf(s, es, y, id) <= 1
    ensures Behind(s.tasks, y, id) ==> DispatchesOf(s, es, y, id) == 0
    decreases |es|
  {
    if es != [] {
      StepKeeps(s, es[0], id);
      AtMostOnce(Step(s, es[0]), es[1..], y, id);
      if Behind(s.tasks, y, id) {
        BehindStays(s, es[0], y, id);
      } else if Picks(s, es[0], y) {
        PickedWasAhead(s, es[0].now, y, id);
      }
    }
  }

  // What schedule does to the kernel's state when it dispatches is this step.
  lemma ScheduleIsStep(s: System, now: nat, r: Outcome, s': System, pt: seq<Word>, pt': seq<Word>)
    requires |pt| == ENTRIES && s.clock <= now < NEVER && Chosen(s, now) >= 0 && s'.clock == now && r.Dispatched?
    requires Chose(s.tasks, s.running, pt, now, r, s'.tasks, s'.running, pt')
    ensures Enabled(s, Schedule(now)) && s' == Step(s, Schedule(now))
  {
    var woken := Woken(s.tasks, |s.tasks|, now);
    assert s'.tasks == woken[Chosen(s, now) := woken[Chosen(s, now)].(last := now)];
  }
}

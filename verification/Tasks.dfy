// The list of tasks, and the frames that their pages take.
module Tasks {
  import opened Machine
  import opened Finite
  import opened Pages

  const PROCID_MIN := 10  // lower ids belong to the kernel

  datatype TaskState = Ready | Sleeping | Stopped

  datatype Task = Task(procID: nat, state: TaskState, wake: nat, last: nat, pages: seq<Page>)

  // --- Ids ----------------------------------------------------------------------------------

  // The position of the first task with this id from i on; |tasks| if there is none.
  function IndexOfTask(tasks: seq<Task>, id: nat, i: nat): (k: nat)
    requires i <= |tasks|
    ensures i <= k <= |tasks| && (k < |tasks| ==> tasks[k].procID == id)
    ensures forall j :: i <= j < k ==> tasks[j].procID != id
    decreases |tasks| - i
  {
    if i == |tasks| || tasks[i].procID == id then i else IndexOfTask(tasks, id, i + 1)
  }

  predicate Listed(tasks: seq<Task>, id: nat) { IndexOfTask(tasks, id, 0) < |tasks| }

  lemma {:induction false} SameIDs(a: seq<Task>, b: seq<Task>, id: nat, i: nat)
    requires i <= |a| == |b| && forall j :: 0 <= j < |a| ==> a[j].procID == b[j].procID
    ensures IndexOfTask(a, id, i) == IndexOfTask(b, id, i)
    decreases |a| - i
  {
    if i < |a| { SameIDs(a, b, id, i + 1); }
  }

  ghost predicate UniqueIDs(tasks: seq<Task>) {
    forall i, j :: 0 <= i < j < |tasks| ==> tasks[i].procID != tasks[j].procID
  }

  function IDs(tasks: seq<Task>): set<nat> { set t | t in tasks :: t.procID }

  lemma {:induction false} IDsSize(tasks: seq<Task>)
    ensures |IDs(tasks)| <= |tasks|
  {
    if tasks != [] {
      var front, t := tasks[..|tasks| - 1], tasks[|tasks| - 1];
      IDsSize(front);
      assert IDs(tasks) <= IDs(front) + {t.procID};
      SubsetSize(IDs(tasks), IDs(front) + {t.procID});
    }
  }

  // n ids from PROCID_MIN on cannot all be taken by fewer than n tasks.
  lemma TakenBelow(tasks: seq<Task>, id: nat)
    requires PROCID_MIN <= id && forall j :: PROCID_MIN <= j < id ==> j in IDs(tasks)
    ensures id - PROCID_MIN <= |tasks|
  {
    IDsSize(tasks);
    var taken := set j: nat | j in Below(id) && j >= PROCID_MIN;
    assert taken + Below(PROCID_MIN) == Below(id);
    SubsetSize(taken, IDs(tasks));
  }

  // The least id from PROCID_MIN on that no task has: the endless search ends.
  method GetNewProcID(tasks: seq<Task>) returns (id: nat)
    ensures PROCID_MIN <= id <= PROCID_MIN + |tasks| && id !in IDs(tasks)
    ensures forall j :: PROCID_MIN <= j < id ==> j in IDs(tasks)
  {
    id := PROCID_MIN;
    while true
      invariant PROCID_MIN <= id <= PROCID_MIN + |tasks|
      invariant forall j :: PROCID_MIN <= j < id ==> j in IDs(tasks)
      decreases PROCID_MIN + |tasks| - id
    {
      var find, k := false, 0;
      while k < |tasks|
        invariant k <= |tasks| && (find <==> exists i :: 0 <= i < k && tasks[i].procID == id)
      {
        if tasks[k].procID == id {
          find := true;
        }
        k := k + 1;
      }
      if !find {
        return;
      }
      assert id in IDs(tasks);
      TakenBelow(tasks, id + 1);
      id := id + 1;
    }
  }

  // --- Frames -------------------------------------------------------------------------------

  // The frames of a page list, and of all tasks together.
  function Fis(s: seq<Page>): (r: seq<Word>)
    ensures |r| == |s| && forall i :: 0 <= i < |s| ==> r[i] == s[i].fis
  {
    seq(|s|, i requires 0 <= i < |s| => s[i].fis)
  }

  function Frames(s: seq<Page>): multiset<Word> { multiset(Fis(s)) }

  // How often the first n tasks have the frame f; in all, how often any task has it.
  function CountUpTo(tasks: seq<Task>, n: nat, f: Word): nat
    requires n <= |tasks|
  {
    if n == 0 then 0 else CountUpTo(tasks, n - 1, f) + Frames(tasks[n - 1].pages)[f]
  }

  function Count(tasks: seq<Task>, f: Word): nat { CountUpTo(tasks, |tasks|, f) }

  lemma FramesSum(a: seq<Page>, b: seq<Page>)
    ensures Frames(a + b) == Frames(a) + Frames(b)
  {
    assert Fis(a + b) == Fis(a) + Fis(b);
  }

  lemma FramesOne(p: Page)
    ensures Frames([p]) == multiset{p.fis}
  {
    assert Fis([p]) == [p.fis];
  }

  lemma {:induction false} SameUpTo(a: seq<Task>, b: seq<Task>, n: nat, f: Word)
    requires n <= |a| && n <= |b| && forall j :: 0 <= j < n ==> a[j].pages == b[j].pages
    ensures CountUpTo(a, n, f) == CountUpTo(b, n, f)
  {
    if n > 0 { SameUpTo(a, b, n - 1, f); }
  }

  // A task's list is replaced.
  lemma {:induction false} CountReplaced(tasks: seq<Task>, tasks': seq<Task>, i: nat, n: nat, f: Word)
    requires i < n <= |tasks| && |tasks'| == |tasks|
    requires forall j :: 0 <= j < |tasks| && j != i ==> tasks'[j].pages == tasks[j].pages
    ensures CountUpTo(tasks', n, f) + Frames(tasks[i].pages)[f] == CountUpTo(tasks, n, f) + Frames(tasks'[i].pages)[f]
  {
    if i == n - 1 {
      SameUpTo(tasks, tasks', n - 1, f);
    } else {
      CountReplaced(tasks, tasks', i, n - 1, f);
    }
  }

  // A task leaves the list.
  lemma {:induction false} CountWithout(tasks: seq<Task>, less: seq<Task>, i: nat, n: nat, f: Word)
    requires i < n <= |tasks| == |less| + 1
    requires forall j {:trigger less[j]} :: 0 <= j < |less| ==> less[j] == tasks[if j < i then j else j + 1]
    ensures CountUpTo(less, n - 1, f) + Frames(tasks[i].pages)[f] == CountUpTo(tasks, n, f)
  {
    if i == n - 1 {
      SameUpTo(tasks, less, n - 1, f);
    } else {
      CountWithout(tasks, less, i, n - 1, f);
      assert less[n - 2] == tasks[n - 1];
    }
  }

  lemma CountSnoc(tasks: seq<Task>, t: Task, f: Word)
    ensures Count(tasks + [t], f) == Count(tasks, f) + Frames(t.pages)[f]
  {
    SameUpTo(tasks, tasks + [t], |tasks|, f);
  }

  // A task's frames are counted among all tasks' frames.
  lemma {:induction false} CountsOne(tasks: seq<Task>, i: nat, n: nat, f: Word)
    requires i < n <= |tasks|
    ensures Frames(tasks[i].pages)[f] <= CountUpTo(tasks, n, f)
  {
    if i < n - 1 { CountsOne(tasks, i, n - 1, f); }
  }

  // Two tasks with a common frame count it twice.
  lemma {:induction false} CountsTwo(tasks: seq<Task>, i: nat, j: nat, n: nat, f: Word)
    requires i < j < n <= |tasks|
    ensures Frames(tasks[i].pages)[f] + Frames(tasks[j].pages)[f] <= CountUpTo(tasks, n, f)
  {
    if j < n - 1 {
      CountsTwo(tasks, i, j, n - 1, f);
    } else {
      CountsOne(tasks, i, n - 1, f);
    }
  }

  lemma FrameIn(s: seq<Page>, j: nat)
    requires j < |s|
    ensures s[j].fis in Frames(s)
  {
    assert s[j].fis == Fis(s)[j];
  }

  lemma FrameTwice(s: seq<Page>, i: nat, j: nat)
    requires i < j < |s| && s[i].fis == s[j].fis
    ensures Frames(s)[s[i].fis] >= 2
  {
    FramesSum(s[..j], s[j..]);
    FrameIn(s[..j], i);
    FrameIn(s[j..], 0);
    assert s == s[..j] + s[j..];
  }

  // An insertion, in frames: the new frame comes in, the lost page's frame goes out.
  lemma AddPageFrames(s: seq<Page>, p: Page)
    requires Sorted(s) && !HasPage(s, p.log)
    ensures Frames(AddPage(s, p)) + Frames(Lost(s, p.log)) == Frames(s) + multiset{p.fis}
  {
    AddPageIs(s, p);
    var k, lost := Above(s, p.log, 0), Lost(s, p.log);
    assert s == s[..k] + lost + s[k + |lost|..];
    FramesExchanged(s[..k], p, lost, s[k + |lost|..]);
  }

  lemma FramesExchanged(a: seq<Page>, p: Page, lost: seq<Page>, b: seq<Page>)
    ensures Frames(a + [p] + b) + Frames(lost) == Frames(a + lost + b) + multiset{p.fis}
  {
    FramesSum(a + [p], b);
    FramesSum(a, [p]);
    FramesSum(a + lost, b);
    FramesSum(a, lost);
    FramesOne(p);
  }

  lemma RemovePageFrames(s: seq<Page>, i: nat)
    requires i < |s|
    ensures Frames(s[..i] + s[i + 1..]) + multiset{s[i].fis} == Frames(s)
  {
    FramesExchanged(s[..i], s[i], [], s[i + 1..]);
    assert s == s[..i] + [s[i]] + s[i + 1..];
    assert s[..i] + [] + s[i + 1..] == s[..i] + s[i + 1..];
    assert Fis([]) == [];
  }

  // The page p is inserted into the list of task i.
  function WithPage(tasks: seq<Task>, i: nat, p: Page): seq<Task>
    requires i < |tasks|
  {
    tasks[i := tasks[i].(pages := AddPage(tasks[i].pages, p))]
  }

  lemma CountAdded(tasks: seq<Task>, i: nat, p: Page, f: Word)
    requires i < |tasks| && Sorted(tasks[i].pages) && !HasPage(tasks[i].pages, p.log)
    ensures Count(WithPage(tasks, i, p), f) + Frames(Lost(tasks[i].pages, p.log))[f]
         == Count(tasks, f) + if f == p.fis then 1 else 0
  {
    var pages := tasks[i].pages;
    CountReplaced(tasks, WithPage(tasks, i, p), i, |tasks|, f);
    AddPageFrames(pages, p);
    assert (Frames(AddPage(pages, p)) + Frames(Lost(pages, p.log)))[f] == (Frames(pages) + multiset{p.fis})[f];
  }

  // The page at position j leaves the list of task i.
  function WithoutPage(tasks: seq<Task>, i: nat, j: nat): seq<Task>
    requires i < |tasks| && j < |tasks[i].pages|
  {
    tasks[i := tasks[i].(pages := tasks[i].pages[..j] + tasks[i].pages[j + 1..])]
  }

  lemma CountRemoved(tasks: seq<Task>, i: nat, j: nat, f: Word)
    requires i < |tasks| && j < |tasks[i].pages|
    ensures Count(WithoutPage(tasks, i, j), f) + (if f == tasks[i].pages[j].fis then 1 else 0) == Count(tasks, f)
  {
    var pages := tasks[i].pages;
    CountReplaced(tasks, WithoutPage(tasks, i, j), i, |tasks|, f);
    RemovePageFrames(pages, j);
    assert (Frames(pages[..j] + pages[j + 1..]) + multiset{pages[j].fis})[f] == Frames(pages)[f];
  }

  // All frames of all tasks.
  function AllFrames(tasks: seq<Task>, n: nat): multiset<Word>
    requires n <= |tasks|
  {
    if n == 0 then multiset{} else AllFrames(tasks, n - 1) + Frames(tasks[n - 1].pages)
  }

  lemma {:induction false} AllFramesCount(tasks: seq<Task>, n: nat, f: Word)
    requires n <= |tasks|
    ensures AllFrames(tasks, n)[f] == CountUpTo(tasks, n, f)
  {
    if n > 0 { AllFramesCount(tasks, n - 1, f); }
  }

  // removeTask: a task leaves the list; when it is the first one, the whole list is dropped.
  function RemoveTaskAt(tasks: seq<Task>, i: nat): seq<Task>
    requires i < |tasks|
  {
    if i == 0 then [] else tasks[..i] + tasks[i + 1..]
  }

  // The frames that go out of reach with it.
  function Dropped(tasks: seq<Task>, i: nat): multiset<Word>
    requires i < |tasks|
  {
    if i == 0 then AllFrames(tasks, |tasks|) else Frames(tasks[i].pages)
  }

  lemma CountDropped(tasks: seq<Task>, i: nat, f: Word)
    requires i < |tasks|
    ensures Count(RemoveTaskAt(tasks, i), f) + Dropped(tasks, i)[f] == Count(tasks, f)
  {
    if i == 0 {
      AllFramesCount(tasks, |tasks|, f);
    } else {
      CountWithout(tasks, RemoveTaskAt(tasks, i), i, |tasks|, f);
    }
  }

  // Removing a task that has no pages any more leaks nothing exactly when it is not the first, or
  // when no task at all has pages.
  lemma DropsNothingIff(tasks: seq<Task>, i: nat)
    requires i < |tasks| && tasks[i].pages == []
    ensures Dropped(tasks, i) == multiset{} <==> i > 0 || forall j :: 0 <= j < |tasks| ==> tasks[j].pages == []
  {
    assert Fis([]) == [];
    if i == 0 {
      NoFramesIff(tasks, |tasks|);
    }
  }

  // The first of two tasks goes, without pages: the other one's frame goes out of reach with it.
  lemma HeadDropsTheRest(a: Task, b: Task, p: Page)
    requires a.pages == [] && b.pages == [p]
    ensures RemoveTaskAt([a, b], 0) == [] && Dropped([a, b], 0) == multiset{p.fis}
  {
    FramesOne(p);
    assert Fis([]) == [];
    assert AllFrames([a, b], 0) == multiset{};
    assert AllFrames([a, b], 1) == multiset{} + Frames([]);
    assert AllFrames([a, b], 2) == AllFrames([a, b], 1) + Frames([p]);
  }

  lemma {:induction false} NoFramesIff(tasks: seq<Task>, n: nat)
    requires n <= |tasks|
    ensures AllFrames(tasks, n) == multiset{} <==> forall j :: 0 <= j < n ==> tasks[j].pages == []
  {
    if n > 0 {
      NoFramesIff(tasks, n - 1);
      var s := tasks[n - 1].pages;
      if s == [] {
        assert Fis(s) == [];
      } else {
        FrameIn(s, 0);
      }
    }
  }
}

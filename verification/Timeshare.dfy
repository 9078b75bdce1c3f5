/**
  The round-robin scheduler (kernel/timeshr.cxx): jobs, tasks of a job and threads of a task lie by
  value in lists, each list with a cursor that rotates. Sleeping jobs and empty lists are skipped.
 */
module Timeshare {
  import opened Sequences
  import opened Wrappers
  import opened NatArithmetic

  datatype Thread = Thread(id: nat)
  datatype Task = Task(threads: seq<Thread>, currentThread: nat)
  datatype Job = Job(sleeping: bool, tasks: seq<Task>, currentTask: nat)
  datatype Schedule = Schedule(jobs: seq<Job>, currentJob: nat)

  /** Indices of a job, a task of it and a thread of that. */
  datatype Choice = Choice(job: nat, task: nat, thread: nat)

  /** Advancing a cursor; one that has run out, or that was left behind by removals, starts over. */
  function Advance(c: nat, n: nat): (r: nat)
    ensures n > 0 ==> r < n
  {
    if c + 1 >= n then 0 else c + 1
  }

  /** One turn of the loop of next: the state after it and the thread it chose, if any. */
  function Visit(s: Schedule): (Schedule, Option<Choice>)
    requires s.jobs != []
  {
    var j := Advance(s.currentJob, |s.jobs|);
    var job := s.jobs[j];
    if job.sleeping || job.tasks == [] then (s.(currentJob := j), None)
    else
      var t := Advance(job.currentTask, |job.tasks|);
      var task := job.tasks[t];
      if task.threads == [] then (Schedule(s.jobs[j := job.(currentTask := t)], j), None)
      else
        var k := Advance(task.currentThread, |task.threads|);
        var job' := job.(currentTask := t, tasks := job.tasks[t := task.(currentThread := k)]);
        (Schedule(s.jobs[j := job'], j), Some(Choice(j, t, k)))
  }

  /** The outcome of next within n turns. */
  function NextWithin(s: Schedule, n: nat): Option<(Schedule, Choice)>
    requires s.jobs != []
    decreases n
  {
    if n == 0 then None
    else match Visit(s)
      case (s', Some(c)) => Some((s', c))
      case (s', None) => NextWithin(s', n - 1)
  }

  ghost predicate RunnableAt(s: Schedule, j: nat, t: nat) {
    j < |s.jobs| && !s.jobs[j].sleeping && t < |s.jobs[j].tasks| && s.jobs[j].tasks[t].threads != []
  }

  /** Some job that does not sleep has a task with a thread. */
  ghost predicate Runnable(s: Schedule) {
    exists j: nat, t: nat :: RunnableAt(s, j, t)
  }

  /** The thread exists and its job does not sleep. */
  ghost predicate Eligible(s: Schedule, c: Choice) {
    RunnableAt(s, c.job, c.task) && c.thread < |s.jobs[c.job].tasks[c.task].threads|
  }

  /** Same lists, possibly other cursors. */
  ghost predicate SameLists(a: Schedule, b: Schedule) {
    && |a.jobs| == |b.jobs|
    && forall j :: 0 <= j < |a.jobs| ==> SameJob(a.jobs[j], b.jobs[j])
  }

  ghost predicate SameJob(a: Job, b: Job) {
    && a.sleeping == b.sleeping && |a.tasks| == |b.tasks|
    && forall t :: 0 <= t < |a.tasks| ==> a.tasks[t].threads == b.tasks[t].threads
  }

  lemma VisitKeepsLists(s: Schedule)
    requires s.jobs != []
    ensures SameLists(s, Visit(s).0)
  {}

  lemma SameListsTransitive(a: Schedule, b: Schedule, c: Schedule)
    requires SameLists(a, b) && SameLists(b, c)
    ensures SameLists(a, c)
  {
    forall j | 0 <= j < |a.jobs|
      ensures SameJob(a.jobs[j], c.jobs[j])
    {
      assert SameJob(a.jobs[j], b.jobs[j]) && SameJob(b.jobs[j], c.jobs[j]);
      forall t | 0 <= t < |a.jobs[j].tasks|
        ensures a.jobs[j].tasks[t].threads == c.jobs[j].tasks[t].threads
      {
        assert a.jobs[j].tasks[t].threads == b.jobs[j].tasks[t].threads;
      }
    }
  }

  lemma SameEligible(a: Schedule, b: Schedule, c: Choice)
    requires SameLists(a, b)
    ensures Eligible(a, c) <==> Eligible(b, c)
    ensures RunnableAt(a, c.job, c.task) <==> RunnableAt(b, c.job, c.task)
  {
    if c.job < |a.jobs| {
      assert SameJob(a.jobs[c.job], b.jobs[c.job]);
    }
  }

  // ----- The distance to a thread

  /** How many advances after the next one the cursor c takes to reach x. */
  function Gap(c: nat, x: nat, n: nat): (g: nat)
    requires x < n
    ensures g < n
    ensures g == 0 <==> Advance(c, n) == x
  {
    if c + 1 >= n then x else if x >= c + 1 then x - (c + 1) else x + n - (c + 1)
  }

  lemma GapShrinks(c: nat, x: nat, n: nat)
    requires x < n
    ensures Gap(c, x, n) > 0 ==> Gap(Advance(c, n), x, n) == Gap(c, x, n) - 1
    ensures Gap(c, x, n) == 0 ==> Gap(Advance(c, n), x, n) == n - 1
  {}

  /** A two-digit number: the low digit counts up to n. */
  function Digits(lo: nat, n: nat, hi: nat): nat {
    lo + n * hi
  }

  lemma DigitsCountDown(lo: nat, n: nat, hi: nat)
    requires n > 0
    ensures Digits(lo, n, hi) == 0 <==> lo == 0 && hi == 0
    ensures lo > 0 ==> Digits(lo - 1, n, hi) == Digits(lo, n, hi) - 1
    ensures lo == 0 && hi > 0 ==> Digits(n - 1, n, hi - 1) == Digits(lo, n, hi) - 1
  {
    if hi > 0 {
      assert n * hi >= n by { assert n * (hi - 1) >= 0; assert n * (hi - 1) == n * hi - n; }
    } else {
      assert n * hi == 0;
    }
  }

  lemma DigitsBound(lo: nat, n: nat, hi: nat, m: nat)
    requires lo < n && hi < m
    ensures Digits(lo, n, hi) < n * m
  {
    assert n * (m - hi - 1) >= 0;
    assert n * (m - hi - 1) == n * m - n * hi - n;
  }

  /** How many turns after the next one visit that task. */
  function TaskDistance(s: Schedule, j: nat, t: nat): nat
    requires j < |s.jobs| && t < |s.jobs[j].tasks|
  {
    var job := s.jobs[j];
    Digits(Gap(s.currentJob, j, |s.jobs|), |s.jobs|, Gap(job.currentTask, t, |job.tasks|))
  }

  /** How many turns after the next one choose that thread. */
  function Distance(s: Schedule, c: Choice): nat
    requires c.job < |s.jobs| && c.task < |s.jobs[c.job].tasks| && c.thread < |s.jobs[c.job].tasks[c.task].threads|
  {
    var job := s.jobs[c.job];
    var task := job.tasks[c.task];
    Digits(Gap(s.currentJob, c.job, |s.jobs|), |s.jobs|,
           Digits(Gap(job.currentTask, c.task, |job.tasks|), |job.tasks|,
                  Gap(task.currentThread, c.thread, |task.threads|)))
  }

  lemma DistanceBound(s: Schedule, c: Choice)
    requires Eligible(s, c)
    ensures var job := s.jobs[c.job];
            Distance(s, c) < |s.jobs| * (|job.tasks| * |job.tasks[c.task].threads|)
  {
    var job := s.jobs[c.job];
    var task := job.tasks[c.task];
    var gt, gk := Gap(job.currentTask, c.task, |job.tasks|), Gap(task.currentThread, c.thread, |task.threads|);
    DigitsBound(gt, |job.tasks|, gk, |task.threads|);
    DigitsBound(Gap(s.currentJob, c.job, |s.jobs|), |s.jobs|,
                Digits(gt, |job.tasks|, gk), |job.tasks| * |task.threads|);
  }

  /** Every turn brings each eligible thread one turn closer, or chooses it. */
  lemma VisitApproaches(s: Schedule, c: Choice)
    requires Eligible(s, c)
    ensures var (s', r) := Visit(s);
            && Eligible(s', c)
            && (Distance(s, c) == 0 ==> r == Some(c))
            && (Distance(s, c) > 0 ==> r != Some(c) && Distance(s', c) == Distance(s, c) - 1)
  {
    hide Digits, Gap;
    var (s', r) := Visit(s);
    VisitKeepsLists(s);
    SameEligible(s, s', c);
    var job := s.jobs[c.job];
    var task := job.tasks[c.task];
    var gj := Gap(s.currentJob, c.job, |s.jobs|);
    var gt := Gap(job.currentTask, c.task, |job.tasks|);
    var gk := Gap(task.currentThread, c.thread, |task.threads|);
    GapShrinks(s.currentJob, c.job, |s.jobs|);
    GapShrinks(job.currentTask, c.task, |job.tasks|);
    GapShrinks(task.currentThread, c.thread, |task.threads|);
    DigitsCountDown(gj, |s.jobs|, Digits(gt, |job.tasks|, gk));
    DigitsCountDown(gt, |job.tasks|, gk);
    VisitOf(s, c);
  }

  /** What a turn does to the cursors on the way to a thread. */
  lemma VisitOf(s: Schedule, c: Choice)
    requires Eligible(s, c)
    ensures var (s', r) := Visit(s);
            var job, task := s.jobs[c.job], s.jobs[c.job].tasks[c.task];
            && |s'.jobs| == |s.jobs| && s'.currentJob == Advance(s.currentJob, |s.jobs|)
            && |s'.jobs[c.job].tasks| == |job.tasks|
            && (s'.currentJob != c.job ==> s'.jobs[c.job] == job && (r.Some? ==> r.value.job != c.job))
            && (s'.currentJob == c.job ==>
                  var t := Advance(job.currentTask, |job.tasks|);
                  && s'.jobs[c.job].currentTask == t
                  && (t != c.task ==> s'.jobs[c.job].tasks[c.task] == task && (r.Some? ==> r.value.task != c.task))
                  && (t == c.task ==>
                        var k := Advance(task.currentThread, |task.threads|);
                        s'.jobs[c.job].tasks[c.task] == task.(currentThread := k) && r == Some(Choice(c.job, t, k))))
  {}

  // ----- next returns exactly when something can run

  lemma VisitApproachesTask(s: Schedule, j: nat, t: nat)
    requires RunnableAt(s, j, t)
    ensures var (s', r) := Visit(s);
            && SameLists(s, s') && RunnableAt(s', j, t)
            && (r == None ==> TaskDistance(s, j, t) > 0 && TaskDistance(s', j, t) == TaskDistance(s, j, t) - 1)
  {
    hide Digits, Gap;
    var c := Choice(j, t, 0);
    VisitKeepsLists(s);
    SameEligible(s, Visit(s).0, c);
    VisitOf(s, c);
    var job := s.jobs[j];
    GapShrinks(s.currentJob, j, |s.jobs|);
    GapShrinks(job.currentTask, t, |job.tasks|);
    DigitsCountDown(Gap(s.currentJob, j, |s.jobs|), |s.jobs|, Gap(job.currentTask, t, |job.tasks|));
  }

  lemma {:induction false} ReturnsWithin(s: Schedule, n: nat, j: nat, t: nat)
    requires RunnableAt(s, j, t) && TaskDistance(s, j, t) < n
    ensures NextWithin(s, n).Some?
    decreases n
  {
    VisitApproachesTask(s, j, t);
    if Visit(s).1 == None {
      ReturnsWithin(Visit(s).0, n - 1, j, t);
    }
  }

  lemma {:induction false} NextChooses(s: Schedule, n: nat)
    requires s.jobs != [] && NextWithin(s, n).Some?
    ensures var (s', c) := NextWithin(s, n).value;
            SameLists(s, s') && Eligible(s, c) && Eligible(s', c)
            && s'.currentJob == c.job && s'.jobs[c.job].currentTask == c.task
            && s'.jobs[c.job].tasks[c.task].currentThread == c.thread
    decreases n
  {
    VisitKeepsLists(s);
    var (s1, r) := Visit(s);
    if r == None {
      NextChooses(s1, n - 1);
      var (s', c) := NextWithin(s, n).value;
      SameListsTransitive(s, s1, s');
      SameEligible(s, s1, c);
    } else {
      SameEligible(s, s1, r.value);
    }
  }

  /** next returns, after some number of turns, exactly when a job that does not sleep has a task with
      a thread; otherwise its loop never ends. */
  lemma NextReturnsExactly(s: Schedule)
    requires s.jobs != []
    ensures (exists n :: NextWithin(s, n).Some?) <==> Runnable(s)
  {
    if Runnable(s) {
      var j: nat, t: nat :| RunnableAt(s, j, t);
      ReturnsWithin(s, TaskDistance(s, j, t) + 1, j, t);
    }
    if n :| NextWithin(s, n).Some? {
      NextChooses(s, n);
      var c := NextWithin(s, n).value.1;
      assert RunnableAt(s, c.job, c.task);
    }
  }

  // ----- A bound on the turns of one call

  function TotalTasks(jobs: seq<Job>): nat {
    if jobs == [] then 0 else |jobs[0].tasks| + TotalTasks(jobs[1..])
  }

  lemma {:induction false} TotalTasksBound(jobs: seq<Job>, j: nat)
    requires j < |jobs|
    ensures |jobs[j].tasks| <= TotalTasks(jobs)
    decreases j
  {
    if j > 0 {
      TotalTasksBound(jobs[1..], j - 1);
    }
  }

  /** Enough turns for next to return from any position of the cursors. */
  function TurnBound(s: Schedule): nat {
    |s.jobs| * TotalTasks(s.jobs)
  }

  lemma ReturnsWithinBound(s: Schedule)
    requires Runnable(s)
    ensures NextWithin(s, TurnBound(s)).Some?
  {
    var j: nat, t: nat :| RunnableAt(s, j, t);
    var job := s.jobs[j];
    TotalTasksBound(s.jobs, j);
    DigitsBound(Gap(s.currentJob, j, |s.jobs|), |s.jobs|, Gap(job.currentTask, t, |job.tasks|), TotalTasks(s.jobs));
    ReturnsWithin(s, TurnBound(s), j, t);
  }

  /** next: the state it leaves and the thread it returns. */
  ghost function NextOf(s: Schedule): (Schedule, Choice)
    requires Runnable(s)
  {
    ReturnsWithinBound(s);
    NextWithin(s, TurnBound(s)).value
  }

  lemma NextKeepsRunnable(s: Schedule)
    requires Runnable(s)
    ensures var (s', c) := NextOf(s); SameLists(s, s') && Eligible(s, c) && Runnable(s')
  {
    ReturnsWithinBound(s);
    NextChooses(s, TurnBound(s));
    var (s', c) := NextOf(s);
    assert RunnableAt(s', c.job, c.task);
  }

  // ----- No starvation

  /** The state after m calls of next with the lists fixed. */
  ghost function AfterCalls(s: Schedule, m: nat): Schedule
    requires Runnable(s)
    decreases m
  {
    if m == 0 then s
    else
      NextKeepsRunnable(s);
      AfterCalls(NextOf(s).0, m - 1)
  }

  lemma {:induction false} CallsKeepRunnable(s: Schedule, m: nat)
    requires Runnable(s)
    ensures Runnable(AfterCalls(s, m)) && SameLists(s, AfterCalls(s, m))
    decreases m
  {
    if m > 0 {
      NextKeepsRunnable(s);
      CallsKeepRunnable(NextOf(s).0, m - 1);
      SameListsTransitive(s, NextOf(s).0, AfterCalls(s, m));
    }
  }

  /** The thread returned by call number m, counted from 0. */
  ghost function Returned(s: Schedule, m: nat): Choice
    requires Runnable(s)
  {
    CallsKeepRunnable(s, m);
    NextOf(AfterCalls(s, m)).1
  }

  lemma {:induction false} CallApproaches(s: Schedule, n: nat, c: Choice)
    requires Eligible(s, c) && NextWithin(s, n).Some?
    ensures var (s', r) := NextWithin(s, n).value;
            Eligible(s', c) && (r == c || Distance(s', c) < Distance(s, c))
    decreases n
  {
    VisitApproaches(s, c);
    if Visit(s).1 == None {
      CallApproaches(Visit(s).0, n - 1, c);
    }
  }

  lemma {:induction false} ChosenWithinDistance(s: Schedule, c: Choice) returns (m: nat)
    requires Eligible(s, c) && Runnable(s)
    ensures m <= Distance(s, c) && Returned(s, m) == c
    decreases Distance(s, c)
  {
    ReturnsWithinBound(s);
    CallApproaches(s, TurnBound(s), c);
    NextKeepsRunnable(s);
    var (s', r) := NextOf(s);
    if r == c {
      m := 0;
    } else {
      var m' := ChosenWithinDistance(s', c);
      m := m' + 1;
    }
  }

  /** With the lists fixed, every thread of a job that does not sleep is returned by one of jobs * tasks
      of the job * threads of the task consecutive calls, from whatever position of the cursors. */
  lemma NoStarvation(s: Schedule, c: Choice)
    requires Eligible(s, c)
    ensures Runnable(s)
    ensures exists m: nat :: m < |s.jobs| * (|s.jobs[c.job].tasks| * |s.jobs[c.job].tasks[c.task].threads|)
                             && Returned(s, m) == c
  {
    assert RunnableAt(s, c.job, c.task);
    DistanceBound(s, c);
    var m := ChosenWithinDistance(s, c);
  }

  // ----- The table of jobs

  predicate CursorIn(c: nat, n: nat) {
    c == 0 || c < n
  }

  /** Every cursor stands on an element of its list, or at 0 in front of an empty one. */
  ghost predicate CursorsValid(s: Schedule) {
    && CursorIn(s.currentJob, |s.jobs|)
    && forall j :: 0 <= j < |s.jobs| ==> JobCursorsValid(s.jobs[j])
  }

  ghost predicate JobCursorsValid(job: Job) {
    && CursorIn(job.currentTask, |job.tasks|)
    && forall t :: 0 <= t < |job.tasks| ==> CursorIn(job.tasks[t].currentThread, |job.tasks[t].threads|)
  }

  // ----- The order of turns

  /** A turn goes to the next job, and where that has a task to the next one of its tasks, and where that has a
      thread to the next one of its threads, each list in a circle. */
  lemma TurnRotates(s: Schedule)
    requires CursorsValid(s) && s.jobs != []
    ensures var (s', c) := Visit(s);
            var j := (s.currentJob + 1) % |s.jobs|;
            var job := s.jobs[j];
            && s'.currentJob == j && (forall i :: 0 <= i < |s.jobs| && i != j ==> s'.jobs[i] == s.jobs[i])
            && if job.sleeping || job.tasks == [] then c == None && s'.jobs[j] == job
               else
                 var t := (job.currentTask + 1) % |job.tasks|;
                 var task := job.tasks[t];
                 && s'.jobs[j].currentTask == t && !s'.jobs[j].sleeping
                 && if task.threads == [] then c == None && s'.jobs[j].tasks == job.tasks
                    else
                      var k := (task.currentThread + 1) % |task.threads|;
                      c == Some(Choice(j, t, k)) && s'.jobs[j].tasks == job.tasks[t := Task(task.threads, k)]
  {
    assert JobCursorsValid(s.jobs[(s.currentJob + 1) % |s.jobs|]);
    CircleStep(s.currentJob, |s.jobs|);
    var job := s.jobs[(s.currentJob + 1) % |s.jobs|];
    if job.tasks != [] {
      CircleStep(job.currentTask, |job.tasks|);
      var task := job.tasks[(job.currentTask + 1) % |job.tasks|];
      if task.threads != [] {
        CircleStep(task.currentThread, |task.threads|);
      }
    }
  }

  lemma CircleStep(c: nat, n: nat)
    requires CursorIn(c, n) && n > 0
    ensures Advance(c, n) == (c + 1) % n
  {
  }

  /** No job sleeps, every job has a task and every task a thread. */
  ghost predicate Busy(s: Schedule) {
    && s.jobs != []
    && forall j :: 0 <= j < |s.jobs| ==> BusyJob(s.jobs[j])
  }

  ghost predicate BusyJob(job: Job) {
    !job.sleeping && job.tasks != [] && forall t :: 0 <= t < |job.tasks| ==> job.tasks[t].threads != []
  }

  lemma BusyIsRunnable(s: Schedule)
    requires Busy(s)
    ensures Runnable(s)
  {
    assert BusyJob(s.jobs[0]);
    assert RunnableAt(s, 0, 0);
  }

  /** When all are busy a call takes one turn. */
  lemma BusyCall(s: Schedule)
    requires Busy(s) && CursorsValid(s)
    ensures Runnable(s) && NextOf(s).1.job == (s.currentJob + 1) % |s.jobs|
    ensures var s' := NextOf(s).0;
            Busy(s') && CursorsValid(s') && |s'.jobs| == |s.jobs| && s'.currentJob == (s.currentJob + 1) % |s.jobs|
  {
    BusyIsRunnable(s);
    ReturnsWithinBound(s);
    TurnRotates(s);
    VisitKeepsCursors(s);
    VisitKeepsLists(s);
    assert BusyJob(s.jobs[(s.currentJob + 1) % |s.jobs|]);
    var s' := Visit(s).0;
    forall j | 0 <= j < |s'.jobs|
      ensures BusyJob(s'.jobs[j])
    {
      assert SameJob(s.jobs[j], s'.jobs[j]) && BusyJob(s.jobs[j]);
      forall t | 0 <= t < |s'.jobs[j].tasks|
        ensures s'.jobs[j].tasks[t].threads != []
      {
        assert s.jobs[j].tasks[t].threads == s'.jobs[j].tasks[t].threads;
      }
    }
  }

  /** Busy jobs take turns in the order of the list: call number m serves the job m + 1 places on. */
  lemma {:induction false} JobsTakeTurns(s: Schedule, m: nat)
    requires Busy(s) && CursorsValid(s)
    ensures Runnable(s) && Returned(s, m).job == (s.currentJob + 1 + m) % |s.jobs|
    decreases m
  {
    BusyCall(s);
    if m > 0 {
      var s' := NextOf(s).0;
      JobsTakeTurns(s', m - 1);
      FurtherRound(s.currentJob + 1, m, |s.jobs|);
    }
  }

  lemma FurtherRound(a: nat, m: nat, n: nat)
    requires n > 0
    ensures (a % n + m) % n == (a + m) % n
  {
    var q := a / n;
    DivMod(a, n);
    ModOfSum(a % n + m, q, n);
    assert a + m == a % n + m + q * n;
  }

  lemma ModOfSum(a: nat, q: nat, n: nat)
    requires n > 0
    ensures (a + q * n) % n == a % n
  {
    var b := a / n;
    DivMod(a, n);
    assert a + q * n == n * (b + q) + a % n;
    ModUnique(a + q * n, b + q, a % n, n);
  }

  lemma ModUnique(x: nat, q: nat, r: nat, n: nat)
    requires n > 0 && x == n * q + r && r < n
    ensures x % n == r
  {
    DivMod(x, n);
    var p := x / n;
    if p < q {
      MultipleMonotone(n, p, q);
    } else if q < p {
      MultipleMonotone(n, q, p);
    }
  }

  // ----- Removals

  /** Which element of a list of n + 1 comes on the next turn when the one at k was removed and the cursor, which
      stood at c, stayed there or went to the start. */
  function NextAfterRemoval(k: nat, c: nat, n: nat): nat {
    if c + 1 < n then (if c + 1 < k then c + 1 else c + 2)
    else if n == 1 || c + 1 == n then (if k == 0 then 1 else 0)
    else (if k > 1 then 1 else 2)
  }

  lemma RemovedNext<T>(s: seq<T>, k: nat, c: nat)
    requires k < |s| && c < |s| && |s| > 1
    ensures var rest := Without(s, k);
            var c' := if c < |rest| then c else 0;
            NextAfterRemoval(k, c, |rest|) < |s| && rest[(c' + 1) % |rest|] == s[NextAfterRemoval(k, c, |rest|)]
  {
    var rest := Without(s, k);
    var c' := if c < |rest| then c else 0;
    CircleStep(c', |rest|);
  }

  /** A list goes on with the element that was to come next exactly when the removed one lies behind that one,
      or was the current one of two. */
  lemma RemovalKeepsNextExactly(k: nat, c: nat, n: nat)
    requires 0 < n && k <= n && c <= n
    ensures NextAfterRemoval(k, c, n) == (c + 1) % (n + 1) <==> k > c + 1 || (n == 1 && k == c)
  {
    CircleStep(c, n + 1);
  }

  /** The turn of a job that lost its task at k. */
  lemma TurnAfterRemovedTask(s: Schedule, k: nat, after: Schedule)
    requires CursorsValid(s) && s.jobs != []
    requires var j := (s.currentJob + 1) % |s.jobs|;
             var job := s.jobs[j];
             && k < |job.tasks| && |job.tasks| > 1 && !job.sleeping
             && after == s.(jobs := s.jobs[j := job.(tasks := Without(job.tasks, k), currentTask :=
                  if job.currentTask < |job.tasks| - 1 then job.currentTask else 0)])
    ensures CursorsValid(after)
    ensures var j := (s.currentJob + 1) % |s.jobs|;
            var job := s.jobs[j];
            var turn := Visit(after).0.jobs[j];
            turn.currentTask < |turn.tasks|
            && turn.tasks[turn.currentTask].threads
               == job.tasks[NextAfterRemoval(k, job.currentTask, |job.tasks| - 1)].threads
  {
    var j := (s.currentJob + 1) % |s.jobs|;
    var job := s.jobs[j];
    assert JobCursorsValid(job);
    RemovedNext(job.tasks, k, job.currentTask);
    assert forall u :: 0 <= u < |job.tasks| - 1 ==> Without(job.tasks, k)[u] == job.tasks[if u < k then u else u + 1];
    assert JobCursorsValid(after.jobs[j]);
    TurnRotates(after);
  }

  /** The turn of a task that lost its thread at k. */
  lemma TurnAfterRemovedThread(s: Schedule, k: nat, after: Schedule)
    requires CursorsValid(s) && s.jobs != []
    requires var j := (s.currentJob + 1) % |s.jobs|;
             var job := s.jobs[j];
             && job.tasks != [] && !job.sleeping
             && var t := (job.currentTask + 1) % |job.tasks|;
                var task := job.tasks[t];
                && k < |task.threads| && |task.threads| > 1
                && after == s.(jobs := s.jobs[j := job.(tasks := job.tasks[t := Task(Without(task.threads, k),
                     if task.currentThread < |task.threads| - 1 then task.currentThread else 0)])])
    ensures var j := (s.currentJob + 1) % |s.jobs|;
            var job := s.jobs[j];
            var t := (job.currentTask + 1) % |job.tasks|;
            var task := job.tasks[t];
            var c := Visit(after).1;
            c.Some? && c.value.job == j && c.value.task == t && c.value.thread < |task.threads| - 1
            && Without(task.threads, k)[c.value.thread]
               == task.threads[NextAfterRemoval(k, task.currentThread, |task.threads| - 1)]
  {
    var j := (s.currentJob + 1) % |s.jobs|;
    var job := s.jobs[j];
    var t := (job.currentTask + 1) % |job.tasks|;
    assert JobCursorsValid(job);
    RemovedNext(job.tasks[t].threads, k, job.tasks[t].currentThread);
    assert JobCursorsValid(after.jobs[j]);
    TurnRotates(after);
  }

  class Table {
    var jobs: seq<Job>
    var currentJob: nat

    constructor ()
      ensures Now() == Schedule([], 0)
    {
      jobs, currentJob := [], 0;
    }

    ghost function Now(): Schedule
      reads this
    {
      Schedule(jobs, currentJob)
    }

    /** One turn of the loop of next. */
    method Turn() returns (c: Option<Choice>)
      requires jobs != []
      modifies this
      ensures (Now(), c) == Visit(old(Now()))
    {
      currentJob := currentJob + 1;
      if currentJob >= |jobs| {
        currentJob := 0;
      }
      var job := jobs[currentJob];
      if job.sleeping || job.tasks == [] {
        return None;
      }
      job := job.(currentTask := job.currentTask + 1);
      if job.currentTask >= |job.tasks| {
        job := job.(currentTask := 0);
      }
      var task := job.tasks[job.currentTask];
      if task.threads == [] {
        jobs := jobs[currentJob := job];
        return None;
      }
      task := task.(currentThread := task.currentThread + 1);
      if task.currentThread >= |task.threads| {
        task := task.(currentThread := 0);
      }
      jobs := jobs[currentJob := job.(tasks := job.tasks[job.currentTask := task])];
      return Some(Choice(currentJob, job.currentTask, task.currentThread));
    }

    /** next: the thread that ran before and the chosen one, which the cursors point at. The cursors of
        the tasks of the jobs that are passed over rotate too. */
    method Next() returns (c: Choice, oldThread: Option<Thread>, newThread: Thread)
      requires Runnable(Now())
      modifies this
      ensures (Now(), c) == NextOf(old(Now()))
      ensures Eligible(Now(), c) && newThread == jobs[c.job].tasks[c.task].threads[c.thread]
      ensures Running(Now()) == Some(newThread) && oldThread == Running(old(Now()))
      ensures old(ThreadUnder(Now())) ==>
                var job := old(jobs[currentJob]);
                var task := job.tasks[job.currentTask];
                oldThread == Some(task.threads[task.currentThread])
      ensures old(CursorsValid(Now())) ==> CursorsValid(Now())
    {
      ghost var s := Now();
      oldThread := Running(Schedule(jobs, currentJob));
      ReturnsWithinBound(s);
      NextChooses(s, TurnBound(s));
      ghost var left := TurnBound(s);
      while true
        invariant jobs != [] && NextWithin(Now(), left) == NextWithin(s, TurnBound(s))
        invariant CursorsValid(s) ==> CursorsValid(Now())
        decreases left
      {
        VisitKeepsCursors(Now());
        var chosen := Turn();
        if chosen.Some? {
          c := chosen.value;
          newThread := jobs[c.job].tasks[c.task].threads[c.thread];
          return;
        }
        left := left - 1;
      }
    }

    /** job::create: the new job sleeps and has no tasks. */
    method CreateJob()
      requires CursorsValid(Now())
      modifies this
      ensures jobs == old(jobs) + [Job(true, [], 0)] && currentJob == old(currentJob)
      ensures CursorsValid(Now())
    {
      jobs := jobs + [Job(true, [], 0)];
    }

    method CreateTask(j: nat)
      requires CursorsValid(Now()) && j < |jobs|
      modifies this
      ensures jobs == old(jobs)[j := old(jobs)[j].(tasks := old(jobs)[j].tasks + [Task([], 0)])]
      ensures currentJob == old(currentJob)
      ensures CursorsValid(Now())
    {
      jobs := jobs[j := jobs[j].(tasks := jobs[j].tasks + [Task([], 0)])];
    }

    method CreateThread(j: nat, t: nat, thread: Thread)
      requires CursorsValid(Now()) && j < |jobs| && t < |jobs[j].tasks|
      modifies this
      ensures var job := old(jobs)[j];
              var task := job.tasks[t];
              jobs == old(jobs)[j := job.(tasks := job.tasks[t := task.(threads := task.threads + [thread])])]
      ensures currentJob == old(currentJob) && CursorsValid(Now())
    {
      var task := jobs[j].tasks[t];
      jobs := jobs[j := jobs[j].(tasks := jobs[j].tasks[t := task.(threads := task.threads + [thread])])];
    }

    /** job::remove of the task at index t; an index that is not in the list finds no task. */
    method RemoveTask(j: nat, t: nat) returns (ok: bool)
      requires CursorsValid(Now()) && j < |jobs|
      modifies this
      ensures ok <==> t < |old(jobs)[j].tasks|
      ensures ok ==> var job := old(jobs)[j];
                     jobs == old(jobs)[j := job.(tasks := Without(job.tasks, t), currentTask :=
                       if job.currentTask < |job.tasks| - 1 then job.currentTask else 0)]
      ensures !ok ==> jobs == old(jobs)
      ensures currentJob == old(currentJob) && CursorsValid(Now())
    {
      var i := 0;
      while i < |jobs[j].tasks|
        invariant i <= |jobs[j].tasks| && jobs == old(jobs) && i <= t
      {
        if i == t {
          var job := jobs[j].(tasks := jobs[j].tasks[..i] + jobs[j].tasks[i+1..]);
          if job.currentTask >= |job.tasks| {
            job := job.(currentTask := 0);
          }
          assert forall u :: 0 <= u < |job.tasks| ==> job.tasks[u] == jobs[j].tasks[if u < i then u else u + 1];
          jobs := jobs[j := job];
          return true;
        }
        i := i + 1;
      }
      return false;
    }

    /** task::remove of the thread at index k. */
    method RemoveThread(j: nat, t: nat, k: nat) returns (ok: bool)
      requires CursorsValid(Now()) && j < |jobs| && t < |jobs[j].tasks|
      modifies this
      ensures ok <==> k < |old(jobs)[j].tasks[t].threads|
      ensures ok ==> var job := old(jobs)[j];
                     var task := job.tasks[t];
                     jobs == old(jobs)[j := job.(tasks := job.tasks[t :=
                       Task(Without(task.threads, k),
                            if task.currentThread < |task.threads| - 1 then task.currentThread else 0)])]
      ensures !ok ==> jobs == old(jobs)
      ensures currentJob == old(currentJob) && CursorsValid(Now())
    {
      var i := 0;
      while i < |jobs[j].tasks[t].threads|
        invariant i <= |jobs[j].tasks[t].threads| && jobs == old(jobs) && i <= k
      {
        if i == k {
          var task := jobs[j].tasks[t];
          task := task.(threads := task.threads[..i] + task.threads[i+1..]);
          if task.currentThread >= |task.threads| {
            task := task.(currentThread := 0);
          }
          jobs := jobs[j := jobs[j].(tasks := jobs[j].tasks[t := task])];
          return true;
        }
        i := i + 1;
      }
      return false;
    }
  }

  /** The cursors stand on a thread; whether its job sleeps does not matter. */
  predicate ThreadUnder(s: Schedule) {
    && s.currentJob < |s.jobs| && s.jobs[s.currentJob].currentTask < |s.jobs[s.currentJob].tasks|
    && var task := s.jobs[s.currentJob].tasks[s.jobs[s.currentJob].currentTask]; task.currentThread < |task.threads|
  }

  /** What a call returned as the new thread the next call returns as the old one. */
  lemma OldIsLastNew(s: Schedule)
    requires Runnable(s)
    ensures var (s', c) := NextOf(s);
            Eligible(s, c) && Running(s') == Some(s.jobs[c.job].tasks[c.task].threads[c.thread])
  {
    ReturnsWithinBound(s);
    NextChooses(s, TurnBound(s));
    NextKeepsRunnable(s);
    var (s', c) := NextOf(s);
    assert SameJob(s.jobs[c.job], s'.jobs[c.job]);
  }

  /** The thread under the cursors. */
  function Running(s: Schedule): Option<Thread> {
    if s.currentJob < |s.jobs| && s.jobs[s.currentJob].currentTask < |s.jobs[s.currentJob].tasks| then
      var task := s.jobs[s.currentJob].tasks[s.jobs[s.currentJob].currentTask];
      if task.currentThread < |task.threads| then Some(task.threads[task.currentThread]) else None
    else None
  }

  lemma VisitKeepsCursors(s: Schedule)
    requires s.jobs != []
    ensures CursorsValid(s) ==> CursorsValid(Visit(s).0)
  {}
}

/** The synchronous release: the analysis is exact for it, and it decides when a bound holds in every run. */
module SynchronousRelease {
  import opened Options
  import opened ResponseTime
  import opened Scheduler
  import opened CriticalInstant

  /** `js` are the first jobs of the synchronous pattern of `t`. */
  ghost predicate SynchronousJobs(t: WholeTask, js: seq<Job>) {
    forall k :: 0 <= k < |js| ==> js[k].release == k * Period(t) && js[k].exec == Wcet(t)
  }

  /** Every task releases a job at time 0 and then once every period, and every job takes its
      worst-case time; the pattern reaches at least to `horizon`. */
  ghost predicate Synchronous(tasks: seq<WholeTask>, jobs: seq<seq<Job>>, horizon: int) {
    && |jobs| == |tasks|
    && forall j :: 0 <= j < |tasks| ==>
         && SynchronousJobs(tasks[j], jobs[j]) && |jobs[j]| >= 1
         && |jobs[j]| * Period(tasks[j]) >= horizon
  }

  lemma SynchronousIsLegal(tasks: seq<WholeTask>, jobs: seq<seq<Job>>, horizon: int)
    requires Synchronous(tasks, jobs, horizon)
    ensures Legal(tasks, jobs)
  {
    forall j, k | 0 <= j < |tasks| && 0 < k < |jobs[j]|
      ensures jobs[j][k].release >= jobs[j][k - 1].release + Period(tasks[j])
    {
      assert k * Period(tasks[j]) == (k - 1) * Period(tasks[j]) + Period(tasks[j]);
    }
  }

  /** Under the synchronous pattern a task asks for exactly its share. */
  lemma {:induction false} SynchronousDemand(t: WholeTask, js: seq<Job>, length: int)
    requires SynchronousJobs(t, js) && 0 <= length <= |js| * Period(t)
    ensures Asked(js, length) == WholeShare(t, length)
  {
    hide Wcet, Period, WholeShare;
    if js == [] {
      WholeShareMonotone(t, 0, 0);
    } else {
      var rest := js[..|js| - 1];
      if length <= |rest| * Period(t) {
        SynchronousDemand(t, rest, length);
      } else {
        SettledAfter(t, rest, length);
        WholeShareAt(t, |js|, length);
        SplitProduct(|js|, 1, Wcet(t));
      }
    }
  }

  lemma WholeShareAt(t: WholeTask, n: int, length: int)
    requires (n - 1) * Period(t) < length <= n * Period(t)
    ensures WholeShare(t, length) == n * Wcet(t)
  {
    CeilDivUnique(length, Period(t), n);
  }

  lemma {:induction false} SettledAfter(t: WholeTask, js: seq<Job>, time: int)
    requires SynchronousJobs(t, js) && |js| * Period(t) <= time
    ensures Asked(js, time) == |js| * Wcet(t)
  {
    if js != [] {
      var n := |js| - 1;
      assert |js| * Period(t) == n * Period(t) + Period(t);
      assert |js| * Wcet(t) == n * Wcet(t) + Wcet(t);
      SettledAfter(t, js[..n], time);
    }
  }

  lemma {:induction false} SynchronousInterference(tasks: seq<WholeTask>, jobs: seq<seq<Job>>, p: int, length: int)
    requires Synchronous(tasks, jobs, length) && length >= 0
    ensures UrgentSum(tasks, p, AskedBy(jobs, length)) == WholeInterference(tasks, p, length)
  {
    if tasks != [] {
      var n := |tasks| - 1;
      SynchronousInterference(tasks[..n], jobs[..n], p, length);
      assert AskedBy(jobs, length)[..n] == AskedBy(jobs[..n], length);
      SynchronousDemand(tasks[n], jobs[n], length);
    }
  }

  /** At the end of a unit that ran task `i`, everything more urgent that was released has been served,
      and the idle units have passed. */
  lemma ServedUpTo(tasks: seq<WholeTask>, jobs: seq<seq<Job>>, slots: seq<int>, i: int, b: nat, x: int)
    requires |jobs| == |tasks| && IdleFirst(tasks, jobs, slots, b) && 0 <= i < |tasks| && 0 < x <= |slots|
    requires Synchronous(tasks, jobs, |slots|) && slots[x - 1] == i
    ensures Served(slots, i, x) + b + WholeInterference(tasks, tasks[i].priority, x) <= x
  {
    var p := tasks[i].priority;
    LevelServedWindow(tasks, slots, i, 0, x);
    IdleUnits(tasks, slots, i, b);
    InversionsSplit(tasks, slots, i, 0, b, x);
    NothingServed(tasks, slots, i);
    forall j | 0 <= j < |tasks| && tasks[j].priority < p ensures Asked(jobs[j], x) <= Served(slots, j, x) {
      assert !Pending(jobs, slots, j, x - 1);
      ServedMonotone(slots, j, x - 1, x);
    }
    UrgentSumLe(tasks, p, AskedBy(jobs, x), ServedBy(tasks, slots, x));
    SynchronousInterference(tasks, jobs, p, x);
  }

  lemma {:induction false} IdleUnits(tasks: seq<WholeTask>, slots: seq<int>, i: int, b: nat)
    requires 0 <= i < |tasks| && b <= |slots| && forall t :: 0 <= t < b ==> slots[t] == -1
    ensures Inversions(tasks, slots, i, 0, b) == b
  {
    if b > 0 {
      IdleUnits(tasks, slots, i, b - 1);
    }
  }

  /** If the first `q` jobs of `i` are finished by `x`, a window up to `x` has room for them. */
  lemma {:induction false} CompletionCovers(tasks: seq<WholeTask>, jobs: seq<seq<Job>>, slots: seq<int>, i: int, b: nat,
                                            q: int, x: int)
    returns (f: int)
    requires |jobs| == |tasks| && IdleFirst(tasks, jobs, slots, b) && 0 <= i < |tasks| && 0 <= x <= |slots|
    requires Synchronous(tasks, jobs, |slots|)
    requires q >= 1 && Served(slots, i, x) >= q * Wcet(tasks[i])
    ensures 0 < f <= x && WindowNeed(tasks, i, b, q, f) <= f
    decreases x
  {
    hide WholeInterference, IdleFirst, Synchronous;
    MulLe(1, q, Wcet(tasks[i]));
    if Served(slots, i, x - 1) >= q * Wcet(tasks[i]) {
      f := CompletionCovers(tasks, jobs, slots, i, b, q, x - 1);
    } else {
      f := x;
      ServedUpTo(tasks, jobs, slots, i, b, x);
    }
  }

  lemma NothingServed(tasks: seq<WholeTask>, slots: seq<int>, i: int)
    requires 0 <= i < |tasks|
    ensures LevelServed(tasks, slots, i, 0) == 0
  {
    UrgentSumZero(tasks, tasks[i].priority, ServedBy(tasks, slots, 0));
  }

  lemma {:induction false} UrgentSumZero(tasks: seq<WholeTask>, p: int, g: seq<int>)
    requires |g| == |tasks| && forall j :: 0 <= j < |g| ==> g[j] == 0
    ensures UrgentSum(tasks, p, g) == 0
  {
    if tasks != [] {
      UrgentSumZero(tasks[..|tasks| - 1], p, g[..|g| - 1]);
    }
  }

  /** A length that equals its own demand suffices for the first job. */
  lemma FirstJobDone(tasks: seq<WholeTask>, jobs: seq<seq<Job>>, slots: seq<int>, i: int, r: int)
    requires |jobs| == |tasks| && 0 <= i < |tasks| && UniquePriority(tasks, i)
    requires IdleFirst(tasks, jobs, slots, Blocking(tasks[i])) && Synchronous(tasks, jobs, |slots|)
    requires 0 < r <= |slots| && WholeDemand(tasks, i, r) == r
    ensures Served(slots, i, r) >= Wcet(tasks[i])
  {
    if Served(slots, i, r) < Wcet(tasks[i]) {
      var p := tasks[i].priority;
      forall u | 0 <= u < r ensures LevelPending(tasks, jobs, slots, i, u) {
        ServedMonotone(slots, i, u, r);
        SynchronousFirst(tasks[i], jobs[i], u + 1);
        assert AtLevel(tasks, i, i) && Pending(jobs, slots, i, u);
      }
      IdleFirstBlocks(tasks, jobs, slots, i, Blocking(tasks[i]));
      LevelServedWindow(tasks, slots, i, 0, r);
      NothingServed(tasks, slots, i);
      UrgentWithinAsked(tasks, jobs, slots, p, r);
      SynchronousInterference(tasks, jobs, p, r);
    }
  }

  lemma {:induction false} SynchronousFirst(t: WholeTask, js: seq<Job>, time: int)
    requires js != [] && js[0].release == 0 && js[0].exec == Wcet(t) && time > 0
    ensures Asked(js, time) >= Wcet(t)
  {
    if |js| > 1 {
      SynchronousFirst(t, js[..|js| - 1], time);
    }
  }

  /** Exactness. Under the synchronous pattern with full execution times, and with the processor blocked
      for the whole blocking term at the start, the first job of task `i` is finished exactly at the
      reported response time, and the analysis rejects the task exactly when that job is not finished by
      its deadline. Without a blocking term the run is one of the preemptive policy. */
  lemma AnalysisIsExact(tasks: seq<WholeTask>, jobs: seq<seq<Job>>, slots: seq<int>, i: int, v: Option<real>)
    requires |jobs| == |tasks| && 0 <= i < |tasks| && UniquePriority(tasks, i)
    requires IdleFirst(tasks, jobs, slots, Blocking(tasks[i])) && Synchronous(tasks, jobs, |slots|)
    requires tasks[i].deadline.Floor <= |slots| && Analysed(tasks, i, v)
    ensures v.Some? ==> && 0 < v.value.Floor <= |slots| && Whole(v.value)
                        && Completed(jobs, slots, i, 0, v.value.Floor)
                        && !Completed(jobs, slots, i, 0, v.value.Floor - 1)
    ensures v.None? <==> !Completed(jobs, slots, i, 0, tasks[i].deadline.Floor)
  {
    var c, d := Wcet(tasks[i]), tasks[i].deadline.Floor;
    assert Work(jobs[i][..1]) == c by {
      assert jobs[i][..1] == [jobs[i][0]] && [jobs[i][0]][..0] == [];
    }
    match v {
      case Some(r) =>
        ResponseIsWhole(tasks, i, r);
        FirstJobDone(tasks, jobs, slots, i, r.Floor);
        ServedMonotone(slots, i, r.Floor, d);
        if Served(slots, i, r.Floor - 1) >= c {
          var f := CompletionCovers(tasks, jobs, slots, i, Blocking(tasks[i]), 1, r.Floor - 1);
          DemandIsWhole(tasks, i, f);
          assert Covers(tasks[i], HigherPriority(tasks, tasks[i].priority), f as real);
        }
      case None =>
        if Served(slots, i, d) >= c {
          var f := CompletionCovers(tasks, jobs, slots, i, Blocking(tasks[i]), 1, d);
          DemandIsWhole(tasks, i, f);
          assert Covers(tasks[i], HigherPriority(tasks, tasks[i].priority), f as real);
        }
    }
  }

  // ---------------------------------------------------------------- when a bound holds in every run

  /** `r` bounds the response of every job of `i` in every preemptive run. */
  ghost predicate BoundHolds(tasks: seq<WholeTask>, i: int, r: nat)
    requires 0 <= i < |tasks|
  {
    forall jobs: seq<seq<Job>>, slots: seq<int>, k: int ::
      Legal(tasks, jobs) && Preemptive(tasks, jobs, slots) && 0 <= k < |jobs[i]| && jobs[i][k].release + r <= |slots|
      ==> Completed(jobs, slots, i, k, jobs[i][k].release + r)
  }

  /** The first `n` jobs of the synchronous pattern. */
  function Pattern(t: WholeTask, n: nat): (js: seq<Job>)
    ensures |js| == n && SynchronousJobs(t, js)
  {
    if n == 0 then []
    else
      PeriodsAdd(t, n - 1);
      Pattern(t, n - 1) + [Job((n - 1) * Period(t), Wcet(t))]
  }

  lemma PeriodsAdd(t: WholeTask, n: nat)
    ensures n * Period(t) >= n
  {
    MulLe(1, Period(t), n);
  }

  function Patterns(tasks: seq<WholeTask>, n: nat): (jobs: seq<seq<Job>>)
    ensures |jobs| == |tasks| && forall j :: 0 <= j < |tasks| ==> jobs[j] == Pattern(tasks[j], n)
  {
    seq(|tasks|, j requires 0 <= j < |tasks| => Pattern(tasks[j], n))
  }

  lemma {:induction false} WorkOfPattern(t: WholeTask, js: seq<Job>, n: nat)
    requires SynchronousJobs(t, js) && n <= |js|
    ensures Work(js[..n]) == n * Wcet(t)
  {
    if n > 0 {
      WorkOfPattern(t, js, n - 1);
      assert js[..n][..n - 1] == js[..n - 1];
      assert n * Wcet(t) == (n - 1) * Wcet(t) + Wcet(t);
    }
  }

  /** The synchronous run of the first `q` jobs that idles for `b` units first; if the `q`-th is finished
      in time, there is room for all of them. */
  lemma SynchronousRun(tasks: seq<WholeTask>, i: int, b: nat, q: nat, r: nat) returns (jobs: seq<seq<Job>>, slots: seq<int>)
    requires 0 <= i < |tasks| && q >= 1
    ensures Legal(tasks, jobs) && IdleFirst(tasks, jobs, slots, b)
    ensures q <= |jobs[i]| && |slots| == jobs[i][q - 1].release + r
    ensures Completed(jobs, slots, i, q - 1, |slots|) ==> WindowFits(tasks, i, b, q, r)
  {
    PeriodsAdd(tasks[i], q - 1);
    var horizon := (q - 1) * Period(tasks[i]) + r;
    var n := q + horizon;
    jobs := Patterns(tasks, n);
    slots := RunExists(tasks, jobs, b, horizon);
    forall j | 0 <= j < |tasks| ensures |jobs[j]| * Period(tasks[j]) >= horizon {
      PeriodsAdd(tasks[j], n);
    }
    assert Synchronous(tasks, jobs, horizon);
    SynchronousIsLegal(tasks, jobs, horizon);
    WorkOfPattern(tasks[i], jobs[i], q);
    if Completed(jobs, slots, i, q - 1, horizon) {
      var f := CompletionCovers(tasks, jobs, slots, i, b, q, horizon);
    }
  }

  // ---------------------------------------------------------------- equal priorities

  /** The task set with task `i` a little more (`d` = -1) or less (`d` = 1) urgent than the tasks of its own
      priority, and with all other priorities in their old order. */
  function Ranked(tasks: seq<WholeTask>, i: int, d: int): (ranked: seq<WholeTask>)
    requires 0 <= i < |tasks|
    ensures |ranked| == |tasks|
    ensures forall j :: 0 <= j < |tasks| ==>
              ranked[j] == tasks[j].(priority := 2 * tasks[j].priority + (if j == i then d else 0))
  {
    seq(|tasks|, j requires 0 <= j < |tasks| => Moved(tasks[j], 2 * tasks[j].priority + (if j == i then d else 0)))
  }

  function Moved(t: WholeTask, priority: int): (m: WholeTask)
    ensures m == t.(priority := priority)
  {
    t.(priority := priority)
  }

  lemma SameTimes(t: WholeTask, priority: int)
    ensures var m := Moved(t, priority);
            Period(m) == Period(t) && Wcet(m) == Wcet(t) && Blocking(m) == Blocking(t)
  {
  }

  lemma RankedTimes(tasks: seq<WholeTask>, i: int, d: int)
    requires 0 <= i < |tasks|
    ensures forall j :: 0 <= j < |tasks| ==>
              Period(Ranked(tasks, i, d)[j]) == Period(tasks[j]) && Wcet(Ranked(tasks, i, d)[j]) == Wcet(tasks[j])
  {
    forall j | 0 <= j < |tasks|
      ensures Period(Ranked(tasks, i, d)[j]) == Period(tasks[j]) && Wcet(Ranked(tasks, i, d)[j]) == Wcet(tasks[j])
    {
      SameTimes(tasks[j], 2 * tasks[j].priority + (if j == i then d else 0));
    }
  }

  /** Two task sets with the same times, and the same tasks above a priority of each. */
  ghost predicate SameAbove(a: seq<WholeTask>, p: int, b: seq<WholeTask>, q: int) {
    && |a| == |b|
    && forall j :: 0 <= j < |a| ==>
         Period(a[j]) == Period(b[j]) && Wcet(a[j]) == Wcet(b[j]) && (a[j].priority < p <==> b[j].priority < q)
  }

  lemma {:induction false} SameInterference(a: seq<WholeTask>, p: int, b: seq<WholeTask>, q: int, length: int)
    requires SameAbove(a, p, b, q)
    ensures WholeInterference(a, p, length) == WholeInterference(b, q, length)
  {
    if a != [] {
      SameInterference(a[..|a| - 1], p, b[..|b| - 1], q, length);
    }
  }

  lemma RankedWindows(tasks: seq<WholeTask>, i: int, d: int, b: int, q: int, r: int)
    requires 0 <= i < |tasks| && (d == -1 || (d == 1 && UniquePriority(tasks, i)))
    ensures WindowFits(Ranked(tasks, i, d), i, b, q, r) <==> WindowFits(tasks, i, b, q, r)
  {
    hide WholeInterference;
    var ranked := Ranked(tasks, i, d);
    RankedTimes(tasks, i, d);
    assert SameAbove(ranked, ranked[i].priority, tasks, tasks[i].priority);
    forall f ensures WindowNeed(ranked, i, b, q, f) == WindowNeed(tasks, i, b, q, f) {
      SameInterference(ranked, ranked[i].priority, tasks, tasks[i].priority, f);
    }
  }

  lemma RankedLegal(tasks: seq<WholeTask>, jobs: seq<seq<Job>>, i: int, d: int)
    requires 0 <= i < |tasks|
    ensures Legal(Ranked(tasks, i, d), jobs) <==> Legal(tasks, jobs)
  {
    RankedTimes(tasks, i, d);
  }

  /** The level of a task that leads those of its own priority is the same as before, and so is its blocking. */
  lemma {:induction false} RankedInversions(tasks: seq<WholeTask>, slots: seq<int>, i: int, s: int, t: int)
    requires 0 <= i < |tasks| && 0 <= s <= t <= |slots|
    ensures Inversions(Ranked(tasks, i, -1), slots, i, s, t) == Inversions(tasks, slots, i, s, t)
    decreases t
  {
    if s < t {
      RankedInversions(tasks, slots, i, s, t - 1);
      RankedLevel(tasks, i, slots[t - 1]);
    }
  }

  lemma RankedLevel(tasks: seq<WholeTask>, i: int, j: int)
    requires 0 <= i < |tasks|
    ensures AtLevel(Ranked(tasks, i, -1), i, j) == AtLevel(tasks, i, j)
  {
  }

  lemma RankedBlocking(tasks: seq<WholeTask>, jobs: seq<seq<Job>>, slots: seq<int>, i: int, b: int)
    requires |jobs| == |tasks| && 0 <= i < |tasks| && BlockedAtMost(Ranked(tasks, i, -1), jobs, slots, i, b)
    ensures BlockedAtMost(tasks, jobs, slots, i, b)
  {
    hide Pending;
    var ranked := Ranked(tasks, i, -1);
    forall s, t | 0 <= s <= t <= |slots| && (forall u :: s <= u < t ==> LevelPending(tasks, jobs, slots, i, u))
      ensures Inversions(tasks, slots, i, s, t) <= b
    {
      forall u | s <= u < t ensures LevelPending(ranked, jobs, slots, i, u) {
        assert LevelPending(tasks, jobs, slots, i, u);
        var j :| 0 <= j < |tasks| && AtLevel(tasks, i, j) && Pending(jobs, slots, j, u);
        RankedLevel(tasks, i, j);
      }
      RankedInversions(tasks, slots, i, s, t);
    }
  }

  // ---------------------------------------------------------------- the exact conditions

  /** `r` bounds the response of every job of `i` in every run that blocks it for at most `b`. */
  ghost predicate BlockedBoundHolds(tasks: seq<WholeTask>, i: int, b: nat, r: nat)
    requires 0 <= i < |tasks|
  {
    forall jobs: seq<seq<Job>>, slots: seq<int>, k: int ::
      Legal(tasks, jobs) && IsRun(jobs, slots) && BlockedAtMost(tasks, jobs, slots, i, b)
      && 0 <= k < |jobs[i]| && jobs[i][k].release + r <= |slots|
      ==> Completed(jobs, slots, i, k, jobs[i][k].release + r)
  }

  /** With blocking: a number bounds every job of task `i` in every run that blocks it for at most `b`, if
      and only if all its windows fit. */
  lemma BlockedBoundExactly(tasks: seq<WholeTask>, i: int, b: nat, r: nat)
    requires 0 <= i < |tasks|
    ensures BlockedBoundHolds(tasks, i, b, r) <==> AllWindowsFit(tasks, i, b, r)
  {
    hide WindowFits, Completed, BlockedAtMost, IsRun;
    if BlockedBoundHolds(tasks, i, b, r) {
      forall q | q >= 1 ensures WindowFits(tasks, i, b, q, r) {
        BlockedWindowNeeded(tasks, i, b, q, r);
      }
    }
    if AllWindowsFit(tasks, i, b, r) {
      forall jobs: seq<seq<Job>>, slots: seq<int>, k: int
        | Legal(tasks, jobs) && IsRun(jobs, slots) && BlockedAtMost(tasks, jobs, slots, i, b)
          && 0 <= k < |jobs[i]| && jobs[i][k].release + r <= |slots|
        ensures Completed(jobs, slots, i, k, jobs[i][k].release + r)
      {
        WindowsSuffice(tasks, jobs, slots, i, b, k, r);
      }
    }
  }

  lemma BlockedWindowNeeded(tasks: seq<WholeTask>, i: int, b: nat, q: nat, r: nat)
    requires 0 <= i < |tasks| && q >= 1 && BlockedBoundHolds(tasks, i, b, r)
    ensures WindowFits(tasks, i, b, q, r)
  {
    hide WindowFits, Completed, BlockedAtMost;
    var ranked := Ranked(tasks, i, -1);
    var jobs, slots := SynchronousRun(ranked, i, b, q, r);
    RankedLegal(tasks, jobs, i, -1);
    IdleFirstBlocks(ranked, jobs, slots, i, b) by {
      RankIsUnique(tasks, i, -1);
    }
    RankedBlocking(tasks, jobs, slots, i, b);
    assert Completed(jobs, slots, i, q - 1, jobs[i][q - 1].release + r);
    RankedWindows(tasks, i, -1, b, q, r);
  }

  lemma RankIsUnique(tasks: seq<WholeTask>, i: int, d: int)
    requires 0 <= i < |tasks| && (d == -1 || d == 1)
    ensures UniquePriority(Ranked(tasks, i, d), i)
  {
  }

  /** The exact condition: a number bounds every job of task `i` in every preemptive run if and only if all
      its windows fit without blocking when the tasks of its own priority go first. */
  lemma BoundHoldsExactly(tasks: seq<WholeTask>, i: int, r: nat)
    requires 0 <= i < |tasks|
    ensures BoundHolds(tasks, i, r) <==> AllWindowsFit(Ranked(tasks, i, 1), i, 0, r)
  {
    hide WindowFits, Completed, Preemptive;
    var ranked := Ranked(tasks, i, 1);
    if BoundHolds(tasks, i, r) {
      forall q | q >= 1 ensures WindowFits(ranked, i, 0, q, r) {
        WindowNeeded(tasks, i, q, r);
      }
    }
    if AllWindowsFit(ranked, i, 0, r) {
      forall jobs: seq<seq<Job>>, slots: seq<int>, k: int
        | Legal(tasks, jobs) && Preemptive(tasks, jobs, slots) && 0 <= k < |jobs[i]| && jobs[i][k].release + r <= |slots|
        ensures Completed(jobs, slots, i, k, jobs[i][k].release + r)
      {
        RankedLegal(tasks, jobs, i, 1);
        EqualsGoFirst(tasks, jobs, slots, i);
        WindowsSuffice(ranked, jobs, slots, i, 0, k, r);
      }
    }
  }

  lemma WindowNeeded(tasks: seq<WholeTask>, i: int, q: nat, r: nat)
    requires 0 <= i < |tasks| && q >= 1 && BoundHolds(tasks, i, r)
    ensures WindowFits(Ranked(tasks, i, 1), i, 0, q, r)
  {
    hide WindowFits, Completed;
    var jobs, slots := SynchronousRun(Ranked(tasks, i, 1), i, 0, q, r);
    RankedLegal(tasks, jobs, i, 1);
    LastOfEquals(tasks, jobs, slots, i);
    assert Completed(jobs, slots, i, q - 1, jobs[i][q - 1].release + r);
  }

  /** A run that lets the equals of `i` go first is a run of the policy. */
  lemma LastOfEquals(tasks: seq<WholeTask>, jobs: seq<seq<Job>>, slots: seq<int>, i: int)
    requires |jobs| == |tasks| && 0 <= i < |tasks| && Preemptive(Ranked(tasks, i, 1), jobs, slots)
    ensures Preemptive(tasks, jobs, slots)
  {
    hide Pending;
  }

  /** In every run of the policy, only `i`, its equals and more urgent tasks run while one of them is pending. */
  lemma EqualsGoFirst(tasks: seq<WholeTask>, jobs: seq<seq<Job>>, slots: seq<int>, i: int)
    requires |jobs| == |tasks| && 0 <= i < |tasks| && Preemptive(tasks, jobs, slots)
    ensures IsRun(jobs, slots) && BlockedAtMost(Ranked(tasks, i, 1), jobs, slots, i, 0)
  {
    forall s, t | 0 <= s <= t <= |slots| && (forall u :: s <= u < t ==> LevelPending(Ranked(tasks, i, 1), jobs, slots, i, u))
      ensures Inversions(Ranked(tasks, i, 1), slots, i, s, t) <= 0
    {
      NoneBelow(tasks, jobs, slots, i, s, t);
    }
  }

  lemma {:induction false} NoneBelow(tasks: seq<WholeTask>, jobs: seq<seq<Job>>, slots: seq<int>, i: int, s: int, t: int)
    requires |jobs| == |tasks| && 0 <= i < |tasks| && Preemptive(tasks, jobs, slots) && 0 <= s <= t <= |slots|
    requires forall u :: s <= u < t ==> LevelPending(Ranked(tasks, i, 1), jobs, slots, i, u)
    ensures Inversions(Ranked(tasks, i, 1), slots, i, s, t) == 0
    decreases t
  {
    hide Pending;
    if s < t {
      NoneBelow(tasks, jobs, slots, i, s, t - 1);
      assert LevelPending(Ranked(tasks, i, 1), jobs, slots, i, t - 1);
      var j :| 0 <= j < |tasks| && AtLevel(Ranked(tasks, i, 1), i, j) && Pending(jobs, slots, j, t - 1);
      assert tasks[slots[t - 1]].priority <= tasks[j].priority <= tasks[i].priority;
    }
  }

  /** For a task whose priority is its own: if and only if all its windows fit. */
  lemma UniqueBoundExactly(tasks: seq<WholeTask>, i: int, r: nat)
    requires 0 <= i < |tasks| && UniquePriority(tasks, i)
    ensures BoundHolds(tasks, i, r) <==> AllWindowsFit(tasks, i, 0, r)
  {
    hide WindowFits, BoundHolds;
    BoundHoldsExactly(tasks, i, r);
    forall q ensures WindowFits(Ranked(tasks, i, 1), i, 0, q, r) <==> WindowFits(tasks, i, 0, q, r) {
      RankedWindows(tasks, i, 1, 0, q, r);
    }
  }

  // ---------------------------------------------------------------- deadlines beyond the period

  const SHORT: WholeTask := TaskFields("A", 0, 6.0, 3.0, 6.0, 0.0)
  const LONG: WholeTask := TaskFields("B", 1, 4.0, 2.0, 8.0, 0.0)

  const SET: seq<WholeTask> := [SHORT, LONG]
  /** The condition on the period in the critical-instant bound cannot be dropped. Task "B" sets its
      deadline beyond its period; the analysis reports 5, but two of its jobs need more than the nine
      units there are until the second one has to be finished. */
  lemma DeadlineBeyondPeriod()
    ensures UniquePriority(SET, 1) && Analysed(SET, 1, Some(5.0)) && !BoundHolds(SET, 1, 5)
  {
    ReportsFive();
    UniqueBoundExactly(SET, 1, 5);
    forall f | 0 < f <= 9 ensures WindowNeed(SET, 1, 0, 2, f) > f {
      assert SET[..1] == [SHORT] && [SHORT][..0] == [];
      assert WholeInterference([SHORT], 1, f) == WholeShare(SHORT, f);
    }
    assert !WindowFits(SET, 1, 0, 2, 5);
  }

  lemma ReportsFive()
    ensures Analysed(SET, 1, Some(5.0))
  {
    var hp := HigherPriority(SET, 1);
    OneUrgentTask();
    OneRelease(2);
    OneRelease(5);
    forall x: real | Covers(LONG, hp, x) ensures 5.0 <= x {
      InterferenceNonNegative(hp, x);
      InterferenceMonotone(hp, 2.0, x);
    }
  }

  lemma OneUrgentTask()
    ensures HigherPriority(SET, 1) == [SHORT]
  {
    assert SET[..1] == [SHORT] && [SHORT][..0] == [];
    assert HigherPriority([SHORT], 1) == [SHORT];
  }

  lemma OneRelease(length: int)
    requires 0 < length <= 6
    ensures Interference([SHORT], length as real) == 3.0
  {
    assert Period(SHORT) == 6 && Wcet(SHORT) == 3;
    WholeShareAt(SHORT, 1, length);
    ShareIsWhole(SHORT, length);
    OneShare(SHORT, length as real);
  }

  lemma OneShare(t: WholeTask, r: real)
    ensures Interference([t], r) == Share(t, r)
  {
    assert [t][..0] == [] && [t][1..] == [];
  }

  // ---------------------------------------------------------------- two tasks of one priority

  const LEFT: WholeTask := TaskFields("A", 0, 10.0, 5.0, 10.0, 0.0)
  const RIGHT: WholeTask := TaskFields("B", 0, 10.0, 5.0, 10.0, 0.0)

  const PAIR: seq<WholeTask> := [LEFT, RIGHT]

  /** The condition on the priority cannot be dropped either: the analysis counts no interference between
      two tasks of one priority, and reports 5 for each; a run that serves the other one first needs 10. */
  lemma EqualPriorities(i: int)
    requires 0 <= i < 2
    ensures Analysed(PAIR, i, Some(5.0)) && !BoundHolds(PAIR, i, 5)
  {
    NoneMoreUrgent(i);
    assert Covers(PAIR[i], [], 5.0);
    BoundHoldsExactly(PAIR, i, 5);
    forall f | 0 < f <= 5 ensures WindowNeed(Ranked(PAIR, i, 1), i, 0, 1, f) > f {
      OneEqual(i, f);
    }
    assert !WindowFits(Ranked(PAIR, i, 1), i, 0, 1, 5);
  }

  lemma NoneMoreUrgent(i: int)
    requires 0 <= i < 2
    ensures HigherPriority(PAIR, PAIR[i].priority) == []
  {
    assert PAIR[..1] == [LEFT] && [LEFT][..0] == [];
    assert HigherPriority([LEFT], 0) == [];
  }

  lemma OneEqual(i: int, f: int)
    requires 0 <= i < 2 && 0 < f <= 5
    ensures WindowNeed(Ranked(PAIR, i, 1), i, 0, 1, f) == 10
  {
    var ranked := Ranked(PAIR, i, 1);
    RankedTimes(PAIR, i, 1);
    assert Period(LEFT) == Period(RIGHT) == 10 && Wcet(LEFT) == Wcet(RIGHT) == 5;
    TwoTasks(ranked, ranked[i].priority, f);
    WholeShareAt(ranked[1 - i], 1, f);
  }

  lemma TwoTasks(a: seq<WholeTask>, p: int, f: int)
    requires |a| == 2
    ensures WholeInterference(a, p, f) ==
            (if a[0].priority < p then WholeShare(a[0], f) else 0) + (if a[1].priority < p then WholeShare(a[1], f) else 0)
  {
    assert a[..1][..0] == [] && a[..1][0] == a[0];
    assert WholeInterference(a[..1], p, f) == if a[0].priority < p then WholeShare(a[0], f) else 0;
  }
}

/** What the response-time analysis says about every run of the scheduler. */
module CriticalInstant {
  import opened Options
  import opened ResponseTime
  import opened Scheduler

  /** The verdict of the analysis on task `i` of `tasks`. */
  ghost predicate Analysed(tasks: seq<WholeTask>, i: int, v: Option<real>)
    requires 0 <= i < |tasks|
  {
    Verdict(tasks[i], HigherPriority(tasks, tasks[i].priority), v)
  }

  /** The recurrence on whole numbers. */
  function WholeDemand(tasks: seq<WholeTask>, i: int, length: int): int
    requires 0 <= i < |tasks|
  {
    Wcet(tasks[i]) + Blocking(tasks[i]) + WholeInterference(tasks, tasks[i].priority, length)
  }

  lemma DemandIsWhole(tasks: seq<WholeTask>, i: int, length: int)
    requires 0 <= i < |tasks|
    ensures Demand(tasks[i], HigherPriority(tasks, tasks[i].priority), length as real) == WholeDemand(tasks, i, length) as real
  {
    InterferenceIsWhole(tasks, tasks[i].priority, length);
  }

  /** The response time of a whole-number task set is a whole number. */
  lemma ResponseIsWhole(tasks: seq<WholeTask>, i: int, r: real)
    requires 0 <= i < |tasks| && Analysed(tasks, i, Some(r))
    ensures Whole(r) && r.Floor > 0 && WholeDemand(tasks, i, r.Floor) == r.Floor
  {
    var n := InterferenceWhole(tasks, tasks[i].priority, r);
    assert r == (Wcet(tasks[i]) + Blocking(tasks[i]) + n) as real;
    DemandIsWhole(tasks, i, r.Floor);
  }

  lemma {:induction false} InterferenceWhole(tasks: seq<WholeTask>, p: int, r: real) returns (n: int)
    ensures Interference(HigherPriority(tasks, p), r) == n as real
  {
    if tasks == [] {
      n := 0;
    } else {
      var m := InterferenceWhole(tasks[..|tasks| - 1], p, r);
      var s := ShareWhole(tasks[|tasks| - 1], r);
      InterferenceLast(tasks, p, r);
      n := m + (if tasks[|tasks| - 1].priority < p then s else 0);
    }
  }

  lemma ShareWhole(t: WholeTask, r: real) returns (n: int)
    ensures Share(t, r) == n as real
  {
    n := Ceil(r / t.period) * Wcet(t);
  }

  // ---------------------------------------------------------------- busy periods

  /** All work of the level of `i` released before `t` has been executed by `t`. */
  ghost predicate Quiet(tasks: seq<WholeTask>, jobs: seq<seq<Job>>, slots: seq<int>, i: int, t: int)
    requires |jobs| == |tasks| && 0 <= i < |tasks| && 0 <= t <= |slots|
  {
    forall j :: 0 <= j < |tasks| && AtLevel(tasks, i, j) ==> Served(slots, j, t) >= Asked(jobs[j], t)
  }

  lemma NotQuietMeansPending(tasks: seq<WholeTask>, jobs: seq<seq<Job>>, slots: seq<int>, i: int, t: int)
    requires |jobs| == |tasks| && 0 <= i < |tasks| && 0 <= t < |slots|
    requires !Quiet(tasks, jobs, slots, i, t + 1)
    ensures LevelPending(tasks, jobs, slots, i, t)
  {
    var j :| 0 <= j < |tasks| && AtLevel(tasks, i, j) && Served(slots, j, t + 1) < Asked(jobs[j], t + 1);
    ServedMonotone(slots, j, t, t + 1);
    assert Pending(jobs, slots, j, t);
  }

  /** Served work never exceeds asked work, summed over the more urgent tasks; where the sums agree,
      so do the summands. */
  lemma UrgentWithinAsked(tasks: seq<WholeTask>, jobs: seq<seq<Job>>, slots: seq<int>, p: int, t: int)
    requires |jobs| == |tasks| && IsRun(jobs, slots) && 0 <= t <= |slots|
    ensures UrgentSum(tasks, p, ServedBy(tasks, slots, t)) <= UrgentSum(tasks, p, AskedBy(jobs, t))
    ensures UrgentSum(tasks, p, ServedBy(tasks, slots, t)) == UrgentSum(tasks, p, AskedBy(jobs, t)) ==>
              forall j :: 0 <= j < |tasks| && tasks[j].priority < p ==> Served(slots, j, t) == Asked(jobs[j], t)
  {
    var g, h := ServedBy(tasks, slots, t), AskedBy(jobs, t);
    forall j | 0 <= j < |tasks| ensures g[j] <= h[j] {
      ServedWithinAsked(jobs, slots, j, t);
    }
    UrgentSumLe(tasks, p, g, h);
    forall j | 0 <= j < |tasks| && tasks[j].priority < p && UrgentSum(tasks, p, g) == UrgentSum(tasks, p, h)
      ensures Served(slots, j, t) == Asked(jobs[j], t)
    {
      assert g[j] == h[j];
    }
  }

  lemma {:induction false} NothingAskedAtStart(js: seq<Job>)
    ensures Asked(js, 0) == 0
  {
    if js != [] {
      NothingAskedAtStart(js[..|js| - 1]);
    }
  }

  lemma {:induction false} AskedCoversReleased(t: WholeTask, js: seq<Job>, k: int, time: int)
    requires LegalJobs(t, js) && 0 <= k < |js| && js[k].release < time
    ensures Asked(js, time) >= Work(js[..k + 1])
  {
    if k == |js| - 1 {
      AskedSettled(t, js, time);
      assert js[..k + 1] == js;
    } else {
      AskedCoversReleased(t, js[..|js| - 1], k, time);
      assert js[..|js| - 1][..k + 1] == js[..k + 1];
    }
  }

  lemma {:induction false} LastQuiet(tasks: seq<WholeTask>, jobs: seq<seq<Job>>, slots: seq<int>, i: int, a: int)
    returns (s: int)
    requires |jobs| == |tasks| && 0 <= i < |tasks| && 0 <= a <= |slots|
    ensures 0 <= s <= a && Quiet(tasks, jobs, slots, i, s)
    ensures forall u :: s < u <= a ==> !Quiet(tasks, jobs, slots, i, u)
  {
    if Quiet(tasks, jobs, slots, i, a) {
      s := a;
    } else {
      forall j | 0 <= j < |tasks| ensures Asked(jobs[j], 0) == 0 {
        NothingAskedAtStart(jobs[j]);
      }
      s := LastQuiet(tasks, jobs, slots, i, a - 1);
    }
  }

  /** From a quiet time on, while work of the level is pending, task `i` gets what the others leave it. */
  lemma BusyWindow(tasks: seq<WholeTask>, jobs: seq<seq<Job>>, slots: seq<int>, i: int, b: int, s: int, f: int)
    requires Legal(tasks, jobs) && 0 <= i < |tasks| && IsRun(jobs, slots)
    requires BlockedAtMost(tasks, jobs, slots, i, b)
    requires 0 <= s && 0 < f && s + f <= |slots| && Quiet(tasks, jobs, slots, i, s)
    requires forall u :: s < u <= s + f ==> !Quiet(tasks, jobs, slots, i, u)
    ensures Served(slots, i, s + f) - Served(slots, i, s) >= f - b - WholeInterference(tasks, tasks[i].priority, f)
  {
    var p, e := tasks[i].priority, s + f;
    forall u | s <= u < e ensures LevelPending(tasks, jobs, slots, i, u) {
      NotQuietMeansPending(tasks, jobs, slots, i, u);
    }
    LevelServedWindow(tasks, slots, i, s, e);
    LevelDemand(tasks, jobs, p, s, f);
    UrgentWithinAsked(tasks, jobs, slots, p, e);
    UrgentSumLe(tasks, p, AskedBy(jobs, s), ServedBy(tasks, slots, s));
  }

  // ---------------------------------------------------------------- windows of several jobs

  /** What `q` jobs of task `i`, `b` units of blocking, and everything more urgent need in a window. */
  function WindowNeed(tasks: seq<WholeTask>, i: int, b: int, q: int, f: int): int
    requires 0 <= i < |tasks|
  {
    q * Wcet(tasks[i]) + b + WholeInterference(tasks, tasks[i].priority, f)
  }

  /** In some window that ends by the time the `q`-th job of a synchronous pattern has to be finished,
      there is room for all that. */
  ghost predicate WindowFits(tasks: seq<WholeTask>, i: int, b: int, q: int, r: int)
    requires 0 <= i < |tasks|
  {
    exists f :: 0 < f <= (q - 1) * Period(tasks[i]) + r && WindowNeed(tasks, i, b, q, f) <= f
  }

  ghost predicate AllWindowsFit(tasks: seq<WholeTask>, i: int, b: int, r: int)
    requires 0 <= i < |tasks|
  {
    forall q :: q >= 1 ==> WindowFits(tasks, i, b, q, r)
  }

  /** The jobs of a task are at least a period apart, and take at most their worst-case time. */
  lemma {:induction false} JobsApart(t: WholeTask, js: seq<Job>, m: int, k: int)
    requires LegalJobs(t, js) && 0 <= m <= k < |js|
    ensures js[k].release >= js[m].release + (k - m) * Period(t)
    decreases k
  {
    if m < k {
      JobsApart(t, js, m, k - 1);
      assert (k - m) * Period(t) == (k - 1 - m) * Period(t) + Period(t);
    }
  }

  lemma {:induction false} WorkOfJobs(t: WholeTask, js: seq<Job>, m: int, n: int)
    requires LegalJobs(t, js) && 0 <= m <= n <= |js|
    ensures Work(js[..n]) <= Work(js[..m]) + (n - m) * Wcet(t)
    decreases n
  {
    hide Wcet;
    if m < n {
      WorkOfJobs(t, js, m, n - 1);
      assert js[..n][..n - 1] == js[..n - 1];
      SplitProduct(n - m, 1, Wcet(t));
    }
  }

  /** The first job released at `s` or later. */
  lemma {:induction false} FirstSince(js: seq<Job>, s: int, k: int) returns (m: int)
    requires 0 <= k < |js| && s <= js[k].release
    ensures 0 <= m <= k && s <= js[m].release && (m > 0 ==> js[m - 1].release < s)
    decreases k
  {
    m := k;
    if k > 0 && s <= js[k - 1].release {
      m := FirstSince(js, s, k - 1);
    }
  }

  /** If all windows fit, every job of `i` is finished within `r` of its release, in every run. */
  lemma WindowsSuffice(tasks: seq<WholeTask>, jobs: seq<seq<Job>>, slots: seq<int>, i: int, b: int, k: int, r: int)
    requires Legal(tasks, jobs) && IsRun(jobs, slots) && 0 <= i < |tasks| && 0 <= k < |jobs[i]|
    requires BlockedAtMost(tasks, jobs, slots, i, b)
    requires r >= 0 && AllWindowsFit(tasks, i, b, r) && jobs[i][k].release + r <= |slots|
    ensures Completed(jobs, slots, i, k, jobs[i][k].release + r)
  {
    hide WholeInterference;
    var js, a := jobs[i], jobs[i][k].release;
    if !Completed(jobs, slots, i, k, a + r) {
      forall e | a < e <= a + r ensures !Quiet(tasks, jobs, slots, i, e) {
        AskedCoversReleased(tasks[i], js, k, e);
        ServedMonotone(slots, i, e, a + r);
        assert AtLevel(tasks, i, i);
      }
      var s := LastQuiet(tasks, jobs, slots, i, a);
      var m := FirstSince(js, s, k);
      var q := k - m + 1;
      JobsApart(tasks[i], js, m, k);
      assert WindowFits(tasks, i, b, q, r);
      var f :| 0 < f <= (q - 1) * Period(tasks[i]) + r && WindowNeed(tasks, i, b, q, f) <= f;
      BusyWindow(tasks, jobs, slots, i, b, s, f);
      ServedBefore(tasks, jobs, slots, i, s, m);
      WorkOfJobs(tasks[i], js, m, k + 1);
      ServedMonotone(slots, i, s + f, a + r);
    }
  }

  /** At a quiet time every job released before it is finished. */
  lemma ServedBefore(tasks: seq<WholeTask>, jobs: seq<seq<Job>>, slots: seq<int>, i: int, s: int, m: int)
    requires Legal(tasks, jobs) && 0 <= i < |tasks| && 0 <= s <= |slots| && 0 <= m <= |jobs[i]|
    requires Quiet(tasks, jobs, slots, i, s) && (m > 0 ==> jobs[i][m - 1].release < s)
    ensures Served(slots, i, s) >= Work(jobs[i][..m])
  {
    assert AtLevel(tasks, i, i);
    if m > 0 {
      AskedCoversReleased(tasks[i], jobs[i], m - 1, s);
    }
  }

  /** The windows need only be looked at up to one that ends by the next release: the later ones are
      put together from these. */
  lemma {:induction false} FinitelyManyWindows(tasks: seq<WholeTask>, i: int, b: int, r: int, n: int, f: int, q: int)
    requires 0 <= i < |tasks| && n >= 1 && q >= 1 && b >= 0
    requires 0 < f <= n * Period(tasks[i]) && WindowNeed(tasks, i, b, n, f) <= f
    requires forall m :: 1 <= m <= n ==> WindowFits(tasks, i, b, m, r)
    ensures WindowFits(tasks, i, b, q, r)
    decreases q
  {
    hide WholeInterference;
    if q > n {
      FinitelyManyWindows(tasks, i, b, r, n, f, q - n);
      var f' :| 0 < f' <= (q - n - 1) * Period(tasks[i]) + r && WindowNeed(tasks, i, b, q - n, f') <= f';
      InterferenceAdds(tasks, tasks[i].priority, f, f');
      SplitProduct(q - 1, n, Period(tasks[i]));
      SplitProduct(q, n, Wcet(tasks[i]));
      assert WindowNeed(tasks, i, b, q, f + f') <= f + f';
    }
  }

  lemma SplitProduct(a: int, b: int, x: int)
    ensures a * x == (a - b) * x + b * x
  {
  }

  lemma {:induction false} InterferenceAdds(tasks: seq<WholeTask>, p: int, x: int, y: int)
    ensures WholeInterference(tasks, p, x + y) <= WholeInterference(tasks, p, x) + WholeInterference(tasks, p, y)
  {
    if tasks != [] {
      var n := |tasks| - 1;
      InterferenceAdds(tasks[..n], p, x, y);
      ShareAdds(tasks[n], x, y);
    }
  }

  lemma ShareAdds(t: WholeTask, x: int, y: int)
    ensures WholeShare(t, x + y) <= WholeShare(t, x) + WholeShare(t, y)
  {
    var d, a, b, c := Period(t), CeilDiv(x, Period(t)), CeilDiv(y, Period(t)), CeilDiv(x + y, Period(t));
    CeilDivBounds(x, d);
    CeilDivBounds(y, d);
    CeilDivBounds(x + y, d);
    assert (a + b) * d == a * d + b * d && (a + b) * Wcet(t) == a * Wcet(t) + b * Wcet(t);
    if c > a + b {
      MulLe(a + b, c - 1, d);
    }
    MulLe(c, a + b, Wcet(t));
  }

  /** A response time within the period makes all windows fit. */
  lemma ResponseTimeFits(tasks: seq<WholeTask>, i: int, r: int)
    requires 0 <= i < |tasks| && 0 < r <= Period(tasks[i]) && WholeDemand(tasks, i, r) == r
    ensures AllWindowsFit(tasks, i, Blocking(tasks[i]), r)
  {
    hide WholeInterference;
    var b := Blocking(tasks[i]);
    assert WindowNeed(tasks, i, b, 1, r) <= r <= 0 * Period(tasks[i]) + r;
    assert WindowFits(tasks, i, b, 1, r);
    forall q | q >= 1 ensures WindowFits(tasks, i, b, q, r) {
      FinitelyManyWindows(tasks, i, b, r, 1, r, q);
    }
  }

  /** The critical-instant bound. If the analysis gives task `i` a response time `r` within its
      period, then in every run (any releases at least a period apart, any execution times up to
      the worst case, any choice of the scheduler that never blocks the task for longer than its
      blocking term) every job of `i` is finished within `r` of its release. */
  lemma ResponseTimeBound(tasks: seq<WholeTask>, jobs: seq<seq<Job>>, slots: seq<int>, i: int, k: int, r: real)
    requires Legal(tasks, jobs) && IsRun(jobs, slots) && 0 <= i < |tasks| && 0 <= k < |jobs[i]|
    requires BlockedAtMost(tasks, jobs, slots, i, Blocking(tasks[i]))
    requires Analysed(tasks, i, Some(r)) && r <= tasks[i].period
    requires jobs[i][k].release + r.Floor <= |slots|
    ensures Completed(jobs, slots, i, k, jobs[i][k].release + r.Floor)
  {
    ResponseIsWhole(tasks, i, r);
    ResponseTimeFits(tasks, i, r.Floor);
    WindowsSuffice(tasks, jobs, slots, i, Blocking(tasks[i]), k, r.Floor);
  }

  /** The same for the preemptive policy, where nothing blocks: the blocking term of the analysis
      may be anything. */
  lemma PreemptiveResponseTimeBound(tasks: seq<WholeTask>, jobs: seq<seq<Job>>, slots: seq<int>, i: int, k: int, r: real)
    requires Legal(tasks, jobs) && Preemptive(tasks, jobs, slots)
    requires 0 <= i < |tasks| && UniquePriority(tasks, i) && 0 <= k < |jobs[i]|
    requires Analysed(tasks, i, Some(r)) && r <= tasks[i].period
    requires jobs[i][k].release + r.Floor <= |slots|
    ensures Completed(jobs, slots, i, k, jobs[i][k].release + r.Floor)
  {
    PreemptiveNeverBlocks(tasks, jobs, slots, i);
    ResponseTimeBound(tasks, jobs, slots, i, k, r);
  }
}

/** The fixed-priority response-time analysis: the task record with its construction checks, the
    iteration, and what its answer means. Quantities are reals, as in the analysis itself. */
module ResponseTime {

  import opened Options

  /** The fields of a task. A lower `priority` number means a more urgent task. */
  datatype TaskFields = TaskFields(name: string, priority: int, period: real, wcet: real, deadline: real, blocking: real)
  {
    /** What the construction checks leave true of every task. */
    predicate Valid() {
      wcet > 0.0 && period > 0.0 && blocking >= 0.0 && wcet <= deadline
    }
  }

  /** A task that passed its construction checks. */
  type Task = t: TaskFields | t.Valid() witness TaskFields("", 0, 1.0, 1.0, 1.0, 0.0)

  /** Builds a task; a missing deadline is the period. The checks run in the source's order. */
  function MakeTask(name: string, priority: int, period: real, wcet: real,
                    deadline: Option<real>, blocking: real): (r: Result<Task>)
    ensures r.Ok? <==>
            wcet > 0.0 && period > 0.0 && blocking >= 0.0 && wcet <= (if deadline.Some? then deadline.value else period)
    ensures r.Ok? ==> r.value == TaskFields(name, priority, period, wcet,
                                            if deadline.Some? then deadline.value else period, blocking)
  {
    var d := if deadline.Some? then deadline.value else period;
    if wcet <= 0.0 then Err(name + ": wcet must be positive")
    else if period <= 0.0 then Err(name + ": period must be positive")
    else if blocking < 0.0 then Err(name + ": blocking cannot be negative")
    else if wcet > d then Err(name + ": wcet exceeds its own deadline")
    else Ok(TaskFields(name, priority, period, wcet, d, blocking))
  }

  // ---------------------------------------------------------------- the recurrence

  function Ceil(x: real): int {
    -((-x).Floor)
  }

  /** The tasks strictly more urgent than `priority`, in their order in `tasks`. */
  function HigherPriority(tasks: seq<Task>, priority: int): seq<Task> {
    if tasks == [] then []
    else
      var last := tasks[|tasks| - 1];
      HigherPriority(tasks[..|tasks| - 1], priority) + (if last.priority < priority then [last] else [])
  }

  /** The work one more urgent task may demand in a window of length `r`. */
  function Share(task: Task, r: real): real {
    Ceil(r / task.period) as real * task.wcet
  }

  /** The work the tasks of `hp` may demand in a window of length `r`. */
  function Interference(hp: seq<Task>, r: real): real {
    if hp == [] then 0.0
    else Interference(hp[..|hp| - 1], r) + Share(hp[|hp| - 1], r)
  }

  /** One application of the recurrence for `task` against `hp`. */
  function Demand(task: Task, hp: seq<Task>, r: real): real
  {
    task.wcet + task.blocking + Interference(hp, r)
  }

  // ---------------------------------------------------------------- what an answer means

  /** `r` is a length of time that covers its own demand. */
  ghost predicate Covers(task: Task, hp: seq<Task>, r: real)
  {
    r >= 0.0 && Demand(task, hp, r) <= r
  }

  /** The meaning of a verdict, with no reference to the iteration: a reported response time is a
      fixed point, the least length that covers its own demand, and within the deadline; a missing
      one says that no length up to the deadline covers its demand. */
  ghost predicate Verdict(task: Task, hp: seq<Task>, v: Option<real>)
  {
    match v
    case Some(r) =>
      && 0.0 < r <= task.deadline
      && Demand(task, hp, r) == r
      && (forall x: real :: Covers(task, hp, x) ==> r <= x)
    case None =>
      forall x: real :: Covers(task, hp, x) ==> x > task.deadline
  }

  /** A verdict is determined by the task and its more urgent tasks. */
  lemma VerdictUnique(task: Task, hp: seq<Task>, v: Option<real>, w: Option<real>)
    requires Verdict(task, hp, v) && Verdict(task, hp, w)
    ensures v == w
  {
    if v.Some? { assert Covers(task, hp, v.value); }
    if w.Some? { assert Covers(task, hp, w.value); }
  }

  // ---------------------------------------------------------------- monotonicity

  lemma CeilMonotone(x: real, y: real)
    requires x <= y
    ensures Ceil(x) <= Ceil(y)
  {
  }

  lemma DivMonotone(x: real, y: real, p: real)
    requires x <= y && p > 0.0
    ensures x / p <= y / p
  {
    assert y / p - x / p == (y - x) / p;
  }

  lemma DivPositive(x: real, p: real)
    requires x >= 0.0 && p > 0.0
    ensures x / p >= 0.0
  {
  }

  lemma DivAntitone(x: real, p: real, q: real)
    requires x >= 0.0 && 0.0 < q <= p
    ensures x / p <= x / q
  {
    DivPositive(x, q);
    MulMonotone(x / q, q, p);
    DivMonotone(x, (x / q) * p, p);
    assert ((x / q) * p) / p == x / q;
  }

  lemma MulMonotone(k: real, x: real, y: real)
    requires k >= 0.0 && x <= y
    ensures k * x <= k * y
  {
    assert k * (y - x) >= 0.0;
  }

  lemma MulStrict(x: real, y: real, k: real)
    requires x < y && k > 0.0
    ensures x * k < y * k
  {
    assert (y - x) * k > 0.0;
  }

  /** How often the tasks of `hp` are counted by the recurrence at `r`: the loop's progress measure. */
  ghost function Releases(hp: seq<Task>, r: real): int
  {
    if hp == [] then 0
    else
      var last := hp[|hp| - 1];
      Releases(hp[..|hp| - 1], r) + Ceil(r / last.period)
  }

  lemma ShareMonotone(task: Task, r: real, s: real)
    requires r <= s
    ensures Share(task, r) <= Share(task, s)
    ensures Ceil(r / task.period) <= Ceil(s / task.period)
    ensures Ceil(r / task.period) == Ceil(s / task.period) ==> Share(task, r) == Share(task, s)
  {
    DivMonotone(r, s, task.period);
    CeilMonotone(r / task.period, s / task.period);
    MulMonotone(task.wcet, Ceil(r / task.period) as real, Ceil(s / task.period) as real);
  }

  lemma ShareNonNegative(task: Task, r: real)
    requires r >= 0.0
    ensures Share(task, r) >= 0.0
  {
    ShareMonotone(task, 0.0, r);
  }

  lemma {:induction false} InterferenceMonotone(hp: seq<Task>, r: real, s: real)
    requires r <= s
    ensures Interference(hp, r) <= Interference(hp, s)
    ensures Releases(hp, r) <= Releases(hp, s)
    ensures Releases(hp, r) == Releases(hp, s) ==> Interference(hp, r) == Interference(hp, s)
  {
    if hp != [] {
      InterferenceMonotone(hp[..|hp| - 1], r, s);
      ShareMonotone(hp[|hp| - 1], r, s);
    }
  }

  lemma {:induction false} InterferenceNonNegative(hp: seq<Task>, r: real)
    requires r >= 0.0
    ensures Interference(hp, r) >= 0.0
  {
    if hp != [] {
      InterferenceNonNegative(hp[..|hp| - 1], r);
      ShareNonNegative(hp[|hp| - 1], r);
    }
  }

  // ---------------------------------------------------------------- the iteration

  /** One pass of the loop: the next iterate is still below every covering length, and a pass that
      is not the last one makes progress. */
  lemma Pass(task: Task, hp: seq<Task>, r: real, x: real)
    requires r >= 0.0
    ensures Covers(task, hp, x) && r <= x ==> Demand(task, hp, r) <= x
    ensures r <= x ==> Releases(hp, r) <= Releases(hp, x)
    ensures r <= x ==> Demand(task, hp, r) <= Demand(task, hp, x)
    ensures r <= x && Releases(hp, r) == Releases(hp, x) ==> Demand(task, hp, x) == Demand(task, hp, r)
  {
    if r <= x {
      InterferenceMonotone(hp, r, x);
    }
  }

  /** The analysis of one task: the inner loop. */
  method ResponseTimeOf(task: Task, hp: seq<Task>) returns (v: Option<real>)
    ensures Verdict(task, hp, v)
  {
    var r := task.wcet + task.blocking;
    InterferenceNonNegative(hp, r);
    forall x: real | Covers(task, hp, x) ensures r <= x {
      InterferenceNonNegative(hp, x);
    }
    while true
      invariant 0.0 < r <= Demand(task, hp, r)
      invariant forall x: real :: Covers(task, hp, x) ==> r <= x
      decreases if r <= task.deadline then Releases(hp, task.deadline) - Releases(hp, r) else 0,
                if Demand(task, hp, r) == r then 0 else 1
    {
      var rNext := Demand(task, hp, r);
      forall x: real | Covers(task, hp, x) ensures rNext <= x {
        Pass(task, hp, r, x);
      }
      if rNext > task.deadline {
        return None;
      }
      if rNext == r {
        return Some(r);
      }
      Pass(task, hp, r, rNext);
      Pass(task, hp, rNext, task.deadline);
      r := rNext;
    }
  }

  type Report = (Option<real>, bool)

  /** A task's entry: its verdict, and whether it meets its deadline. */
  ghost predicate ReportOf(task: Task, hp: seq<Task>, report: Report) {
    Verdict(task, hp, report.0) && report.1 == report.0.Some?
  }

  function Names(tasks: seq<Task>, n: nat): set<string>
    requires n <= |tasks|
  {
    set k | 0 <= k < n :: tasks[k].name
  }

  lemma OneMoreName(tasks: seq<Task>, n: nat)
    requires n < |tasks|
    ensures Names(tasks, n + 1) == Names(tasks, n) + {tasks[n].name}
  {
  }

  /** `results` maps the names of the first `n` tasks, and each name to the report of the last task
      that bears it: with repeated names the later answer replaces the earlier. */
  ghost predicate Tabulates(tasks: seq<Task>, n: nat, results: map<string, Report>)
    requires n <= |tasks|
  {
    && results.Keys == Names(tasks, n)
    && forall k :: 0 <= k < n && (forall j :: k < j < n ==> tasks[j].name != tasks[k].name) ==>
         tasks[k].name in results && ReportOf(tasks[k], HigherPriority(tasks, tasks[k].priority), results[tasks[k].name])
  }

  /** The whole analysis. */
  method ResponseTimeAnalysis(tasks: seq<Task>) returns (results: map<string, Report>)
    ensures Tabulates(tasks, |tasks|, results)
  {
    results := map[];
    for i := 0 to |tasks|
      invariant Tabulates(tasks, i, results)
    {
      var v := ResponseTimeOf(tasks[i], HigherPriority(tasks, tasks[i].priority));
      Tabulate(tasks, i, results, (v, v.Some?));
      results := results[tasks[i].name := (v, v.Some?)];
    }
  }

  lemma Tabulate(tasks: seq<Task>, i: nat, results: map<string, Report>, report: Report)
    requires i < |tasks| && Tabulates(tasks, i, results)
    requires ReportOf(tasks[i], HigherPriority(tasks, tasks[i].priority), report)
    ensures Tabulates(tasks, i + 1, results[tasks[i].name := report])
  {
    hide ReportOf, HigherPriority, Names;
    var after := results[tasks[i].name := report];
    OneMoreName(tasks, i);
    forall k | 0 <= k < i + 1 && (forall j :: k < j < i + 1 ==> tasks[j].name != tasks[k].name)
      ensures tasks[k].name in after
      ensures ReportOf(tasks[k], HigherPriority(tasks, tasks[k].priority), after[tasks[k].name])
    {
      if k < i {
        assert tasks[i].name != tasks[k].name;
        KeepsEntry(tasks, i, results, k);
      }
    }
  }

  lemma KeepsEntry(tasks: seq<Task>, i: nat, results: map<string, Report>, k: nat)
    requires k < i < |tasks| && Tabulates(tasks, i, results)
    requires forall j :: k < j < i ==> tasks[j].name != tasks[k].name
    ensures tasks[k].name in results
    ensures ReportOf(tasks[k], HigherPriority(tasks, tasks[k].priority), results[tasks[k].name])
  {
    hide ReportOf, HigherPriority, Names;
  }

  // ---------------------------------------------------------------- robustness of the answer

  /** `easy` asks no more of the processor than `hard`, task by task. */
  ghost predicate NoHarder(easy: seq<Task>, hard: seq<Task>) {
    && |easy| == |hard|
    && forall k :: 0 <= k < |easy| ==> easy[k].wcet <= hard[k].wcet && easy[k].period >= hard[k].period
  }

  lemma ProductMonotone(a: real, b: real, x: real, y: real)
    requires 0.0 <= a <= b && 0.0 <= x <= y
    ensures a * x <= b * y
  {
    MulMonotone(a, x, y);
    MulMonotone(y, a, b);
  }

  lemma CeilNoHarder(easy: Task, hard: Task, r: real)
    requires easy.period >= hard.period && r >= 0.0
    ensures 0 <= Ceil(r / easy.period) <= Ceil(r / hard.period)
  {
    DivPositive(r, easy.period);
    DivAntitone(r, easy.period, hard.period);
    CeilMonotone(r / easy.period, r / hard.period);
  }

  lemma ShareNoHarder(easy: Task, hard: Task, r: real)
    requires easy.wcet <= hard.wcet && easy.period >= hard.period && r >= 0.0
    ensures Share(easy, r) <= Share(hard, r)
  {
    CeilNoHarder(easy, hard, r);
    ProductMonotone(Ceil(r / easy.period) as real, Ceil(r / hard.period) as real, easy.wcet, hard.wcet);
  }

  lemma {:induction false} InterferenceNoHarder(easy: seq<Task>, hard: seq<Task>, r: real)
    requires NoHarder(easy, hard) && r >= 0.0
    ensures Interference(easy, r) <= Interference(hard, r)
  {
    if easy != [] {
      var n := |easy| - 1;
      InterferenceNoHarder(easy[..n], hard[..n], r);
      ShareNoHarder(easy[n], hard[n], r);
    }
  }

  /** Raising an execution time or the blocking, or shortening a period or the deadline, never lowers a
      response time and never turns a rejection into an acceptance. */
  lemma VerdictMonotone(easyTask: Task, easy: seq<Task>, hardTask: Task, hard: seq<Task>,
                        v: Option<real>, w: Option<real>)
    requires NoHarder(easy, hard)
    requires easyTask.wcet <= hardTask.wcet && easyTask.blocking <= hardTask.blocking
    requires easyTask.deadline >= hardTask.deadline
    requires Verdict(easyTask, easy, v) && Verdict(hardTask, hard, w)
    ensures w.Some? ==> v.Some? && v.value <= w.value
  {
    if w.Some? {
      InterferenceNoHarder(easy, hard, w.value);
      assert Covers(easyTask, easy, w.value);
    }
  }

  ghost predicate SamePriorities(a: seq<Task>, b: seq<Task>) {
    |a| == |b| && forall k :: 0 <= k < |a| ==> a[k].priority == b[k].priority
  }

  lemma {:induction false} HigherPriorityNoHarder(easy: seq<Task>, hard: seq<Task>, p: int)
    requires NoHarder(easy, hard) && SamePriorities(easy, hard)
    ensures NoHarder(HigherPriority(easy, p), HigherPriority(hard, p))
  {
    if easy != [] {
      HigherPriorityNoHarder(easy[..|easy| - 1], hard[..|hard| - 1], p);
    }
  }

  /** The same over whole task sets: making any tasks of the set harder never lowers a response time
      and never turns a rejection of any task into an acceptance. */
  lemma AnalysisMonotone(easy: seq<Task>, hard: seq<Task>, i: int, v: Option<real>, w: Option<real>)
    requires NoHarder(easy, hard) && SamePriorities(easy, hard) && 0 <= i < |easy|
    requires easy[i].blocking <= hard[i].blocking && easy[i].deadline >= hard[i].deadline
    requires Verdict(easy[i], HigherPriority(easy, easy[i].priority), v)
    requires Verdict(hard[i], HigherPriority(hard, hard[i].priority), w)
    ensures w.Some? ==> v.Some? && v.value <= w.value
  {
    HigherPriorityNoHarder(easy, hard, easy[i].priority);
    VerdictMonotone(easy[i], HigherPriority(easy, easy[i].priority),
                    hard[i], HigherPriority(hard, hard[i].priority), v, w);
  }

  // ---------------------------------------------------------------- the unit of time does not matter

  function InUnit(c: real, x: real): real {
    c * x
  }

  /** The same task with its times in another unit. */
  function Scaled(task: Task, c: real): Task
    requires c > 0.0
  {
    ScaledFields(task, c);
    TaskFields(task.name, task.priority, c * task.period, c * task.wcet, c * task.deadline, c * task.blocking)
  }

  lemma ScaledFields(task: Task, c: real)
    requires c > 0.0
    ensures c * task.period > 0.0 && c * task.wcet > 0.0 && c * task.blocking >= 0.0
    ensures c * task.wcet <= c * task.deadline
  {
    MulMonotone(c, task.wcet, task.deadline);
  }

  function AllScaled(tasks: seq<Task>, c: real): (s: seq<Task>)
    requires c > 0.0
    ensures |s| == |tasks|
  {
    if tasks == [] then [] else AllScaled(tasks[..|tasks| - 1], c) + [Scaled(tasks[|tasks| - 1], c)]
  }

  lemma ScaleQuotient(x: real, p: real, c: real)
    requires p > 0.0 && c > 0.0
    ensures c * p > 0.0 && (c * x) / (c * p) == x / p
  {
    assert (c * x) == (x / p) * (c * p);
  }

  lemma ScaleProduct(k: real, x: real, c: real)
    ensures k * (c * x) == c * (k * x)
  {
  }

  lemma InUnitSum(c: real, x: real, y: real)
    ensures InUnit(c, x + y) == InUnit(c, x) + InUnit(c, y) && InUnit(c, 0.0) == 0.0
  {
  }

  lemma ScaledShare(task: Task, r: real, c: real)
    requires c > 0.0
    ensures Share(Scaled(task, c), InUnit(c, r)) == InUnit(c, Share(task, r))
  {
    hide Ceil;
    ScaleQuotient(r, task.period, c);
    ScaleProduct(Ceil(r / task.period) as real, task.wcet, c);
    var t := Scaled(task, c);
    assert t.period == c * task.period && t.wcet == c * task.wcet;
    assert InUnit(c, r) / t.period == r / task.period;
  }

  lemma AllScaledSnoc(hp: seq<Task>, c: real)
    requires c > 0.0 && hp != []
    ensures AllScaled(hp, c)[..|hp| - 1] == AllScaled(hp[..|hp| - 1], c)
    ensures AllScaled(hp, c)[|hp| - 1] == Scaled(hp[|hp| - 1], c)
  {
    hide Scaled;
  }

  lemma InterferenceSnoc(hp: seq<Task>, r: real)
    requires hp != []
    ensures Interference(hp, r) == Interference(hp[..|hp| - 1], r) + Share(hp[|hp| - 1], r)
  {
    hide Share;
  }

  lemma NoInterference(r: real)
    ensures Interference([], r) == 0.0
  {
  }

  lemma {:induction false} ScaledInterference(hp: seq<Task>, r: real, c: real)
    requires c > 0.0
    ensures Interference(AllScaled(hp, c), InUnit(c, r)) == InUnit(c, Interference(hp, r))
  {
    hide Share, Scaled, InUnit, AllScaled, Interference;
    if hp == [] {
      InUnitSum(c, 0.0, 0.0);
      NoInterference(r);
      NoInterference(InUnit(c, r));
      assert AllScaled(hp, c) == [];
    } else {
      var n := |hp| - 1;
      ScaledInterference(hp[..n], r, c);
      ScaledShare(hp[n], r, c);
      AllScaledSnoc(hp, c);
      InterferenceSnoc(hp, r);
      InterferenceSnoc(AllScaled(hp, c), InUnit(c, r));
      InUnitSum(c, Interference(hp[..n], r), Share(hp[n], r));
    }
  }

  lemma ScaledDemand(task: Task, hp: seq<Task>, r: real, c: real)
    requires c > 0.0
    ensures Demand(Scaled(task, c), AllScaled(hp, c), InUnit(c, r)) == InUnit(c, Demand(task, hp, r))
  {
    hide Interference, AllScaled, InUnit;
    ScaledInterference(hp, r, c);
    InUnitSum(c, task.wcet, task.blocking);
    InUnitSum(c, task.wcet + task.blocking, Interference(hp, r));
    ScaledTimes(task, c);
  }

  lemma ScaledTimes(task: Task, c: real)
    requires c > 0.0
    ensures var t := Scaled(task, c);
            && t.wcet == InUnit(c, task.wcet) && t.blocking == InUnit(c, task.blocking)
            && t.deadline == InUnit(c, task.deadline)
  {
  }

  lemma InUnitOrder(c: real, x: real, y: real)
    requires c > 0.0
    ensures InUnit(c, x) <= InUnit(c, y) <==> x <= y
    ensures InUnit(c, x) == InUnit(c, y) <==> x == y
  {
    if x < y {
      MulStrict(x, y, c);
    } else if y < x {
      MulStrict(y, x, c);
    }
  }

  lemma ScaledCovers(task: Task, hp: seq<Task>, r: real, c: real)
    requires c > 0.0
    ensures Covers(Scaled(task, c), AllScaled(hp, c), InUnit(c, r)) <==> Covers(task, hp, r)
  {
    hide Demand, Scaled, AllScaled, InUnit;
    ScaledDemand(task, hp, r, c);
    InUnitOrder(c, Demand(task, hp, r), r);
    InUnitOrder(c, 0.0, r);
    InUnitSum(c, 0.0, 0.0);
  }

  /** Every length is one in the other unit. */
  lemma Unscaled(x: real, c: real) returns (r: real)
    requires c > 0.0
    ensures x == InUnit(c, r)
  {
    r := x / c;
  }

  /** A number is below, or not above, everything that covers the demand in one unit exactly if it is
      in the other. */
  lemma LeastScales(task: Task, hp: seq<Task>, r: real, c: real)
    requires c > 0.0
    ensures var t, h, q := Scaled(task, c), AllScaled(hp, c), InUnit(c, r);
            && ((forall x: real :: Covers(t, h, x) ==> q <= x) <==> (forall x: real :: Covers(task, hp, x) ==> r <= x))
            && ((forall x: real :: Covers(t, h, x) ==> x > q) <==> (forall x: real :: Covers(task, hp, x) ==> x > r))
  {
    hide Covers, Scaled, AllScaled, InUnit;
    var t, h, q := Scaled(task, c), AllScaled(hp, c), InUnit(c, r);
    forall x: real | Covers(t, h, x)
      ensures exists y :: Covers(task, hp, y) && (r <= y <==> q <= x) && (y > r <==> x > q)
    {
      var y := Unscaled(x, c);
      ScaledCovers(task, hp, y, c);
      InUnitOrder(c, r, y);
      InUnitOrder(c, y, r);
    }
    forall y: real | Covers(task, hp, y)
      ensures exists x :: Covers(t, h, x) && (r <= y <==> q <= x) && (y > r <==> x > q)
    {
      ScaledCovers(task, hp, y, c);
      InUnitOrder(c, r, y);
      InUnitOrder(c, y, r);
      assert Covers(t, h, InUnit(c, y));
    }
  }

  /** With all times in another unit the verdict is the same, in that unit: so a set of fractional times
      is decided by the whole-number set in their smallest common unit. */
  lemma VerdictScales(task: Task, hp: seq<Task>, v: Option<real>, w: Option<real>, c: real)
    requires c > 0.0 && v.Some? == w.Some? && (v.Some? ==> w.value == InUnit(c, v.value))
    ensures Verdict(Scaled(task, c), AllScaled(hp, c), w) <==> Verdict(task, hp, v)
  {
    hide Covers, Demand, AllScaled, Scaled, InUnit;
    ScaledTimes(task, c);
    LeastScales(task, hp, task.deadline, c);
    if v.Some? {
      var r := v.value;
      LeastScales(task, hp, r, c);
      InUnitOrder(c, r, task.deadline);
      InUnitOrder(c, r, 0.0);
      InUnitSum(c, 0.0, 0.0);
      ScaledDemand(task, hp, r, c);
      InUnitOrder(c, Demand(task, hp, r), r);
    }
  }
}

/** A unit-step scheduler over integer task sets: the runs the response-time analysis speaks about. */
module Scheduler {
  import opened ResponseTime

  // ---------------------------------------------------------------- integer task sets

  predicate Whole(x: real) {
    x == x.Floor as real
  }

  /** A task whose quantities are whole numbers of time units. */
  predicate Integral(t: Task) {
    Whole(t.period) && Whole(t.wcet) && Whole(t.deadline) && Whole(t.blocking)
  }

  type WholeTask = t: Task | Integral(t) witness TaskFields("", 0, 1.0, 1.0, 1.0, 0.0)

  function Period(t: WholeTask): (p: int)
    ensures p > 0 && p as real == t.period
  {
    t.period.Floor
  }

  function Wcet(t: WholeTask): (c: int)
    ensures c > 0 && c as real == t.wcet
  {
    t.wcet.Floor
  }

  function Blocking(t: WholeTask): (b: int)
    ensures b >= 0 && b as real == t.blocking
  {
    t.blocking.Floor
  }

  function CeilDiv(x: int, d: int): int
    requires d > 0
  {
    (x + d - 1) / d
  }

  // ---------------------------------------------------------------- jobs and runs

  /** One activation of a task: when it is released and how long it executes. */
  datatype Job = Job(release: nat, exec: nat)

  /** Any release pattern at least a period apart, any execution times up to the worst case. */
  ghost predicate LegalJobs(t: WholeTask, js: seq<Job>) {
    && (forall k :: 0 <= k < |js| ==> js[k].exec <= Wcet(t))
    && (forall k :: 0 < k < |js| ==> js[k].release >= js[k - 1].release + Period(t))
  }

  /** A task set with its job sequences. */
  ghost predicate Legal(tasks: seq<WholeTask>, jobs: seq<seq<Job>>) {
    && |jobs| == |tasks|
    && (forall j :: 0 <= j < |tasks| ==> LegalJobs(tasks[j], jobs[j]))
  }

  /** The total execution of a sequence of jobs. */
  function Work(js: seq<Job>): nat {
    if js == [] then 0 else Work(js[..|js| - 1]) + js[|js| - 1].exec
  }

  /** The work released strictly before time `t`. */
  function Asked(js: seq<Job>, t: int): nat {
    if js == [] then 0
    else
      var last := js[|js| - 1];
      Asked(js[..|js| - 1], t) + (if last.release < t then last.exec else 0)
  }

  /** The number of the first `t` time units given to task `j`; `slots[u]` is the task that runs in
      unit `u`, or -1 when the processor is idle. */
  function Served(slots: seq<int>, j: int, t: int): nat
    requires 0 <= t <= |slots|
  {
    if t == 0 then 0 else Served(slots, j, t - 1) + (if slots[t - 1] == j then 1 else 0)
  }

  /** At the start of unit `t`, task `j` has released work that has not been executed. */
  predicate Pending(jobs: seq<seq<Job>>, slots: seq<int>, j: int, t: int)
    requires 0 <= j < |jobs| && 0 <= t <= |slots|
  {
    Served(slots, j, t) < Asked(jobs[j], t + 1)
  }

  /** Every unit is idle or executes released work. */
  ghost predicate IsRun(jobs: seq<seq<Job>>, slots: seq<int>) {
    forall t :: 0 <= t < |slots| ==>
      -1 <= slots[t] < |jobs| && (slots[t] >= 0 ==> Pending(jobs, slots, slots[t], t))
  }

  /** The policy, from time `b` on: never idle while work is pending, and never a less urgent task before
      a more urgent one. */
  ghost predicate PreemptiveFrom(tasks: seq<WholeTask>, jobs: seq<seq<Job>>, slots: seq<int>, b: int)
    requires |jobs| == |tasks|
  {
    && IsRun(jobs, slots)
    && forall t, j :: 0 <= t < |slots| && b <= t && 0 <= j < |tasks| && Pending(jobs, slots, j, t) ==>
         slots[t] >= 0 && tasks[slots[t]].priority <= tasks[j].priority
  }

  ghost predicate Preemptive(tasks: seq<WholeTask>, jobs: seq<seq<Job>>, slots: seq<int>)
    requires |jobs| == |tasks|
  {
    PreemptiveFrom(tasks, jobs, slots, 0)
  }

  /** The processor is idle for `b` units, and follows the policy from then on. */
  ghost predicate IdleFirst(tasks: seq<WholeTask>, jobs: seq<seq<Job>>, slots: seq<int>, b: int)
    requires |jobs| == |tasks|
  {
    PreemptiveFrom(tasks, jobs, slots, b) && forall t :: 0 <= t < |slots| && t < b ==> slots[t] == -1
  }

  /** No other task has the priority of task `i`. */
  ghost predicate UniquePriority(tasks: seq<WholeTask>, i: int)
    requires 0 <= i < |tasks|
  {
    forall j :: 0 <= j < |tasks| && j != i ==> tasks[j].priority != tasks[i].priority
  }

  /** Job `k` of task `i` is finished at time `t`; the jobs of one task run in release order. */
  predicate Completed(jobs: seq<seq<Job>>, slots: seq<int>, i: int, k: int, t: int)
    requires 0 <= i < |jobs| && 0 <= k < |jobs[i]| && 0 <= t <= |slots|
  {
    Served(slots, i, t) >= Work(jobs[i][..k + 1])
  }

  // ---------------------------------------------------------------- priority levels

  predicate AtLevel(tasks: seq<WholeTask>, i: int, j: int)
    requires 0 <= i < |tasks|
  {
    j == i || (0 <= j < |tasks| && tasks[j].priority < tasks[i].priority)
  }

  /** Some task at least as urgent as `i` is pending. */
  ghost predicate LevelPending(tasks: seq<WholeTask>, jobs: seq<seq<Job>>, slots: seq<int>, i: int, t: int)
    requires |jobs| == |tasks| && 0 <= i < |tasks| && 0 <= t <= |slots|
  {
    exists j :: 0 <= j < |tasks| && AtLevel(tasks, i, j) && Pending(jobs, slots, j, t)
  }

  /** How many units of `[s, t)` a task outside the level of `i` holds the processor. */
  function Inversions(tasks: seq<WholeTask>, slots: seq<int>, i: int, s: int, t: int): nat
    requires 0 <= i < |tasks| && 0 <= s <= t <= |slots|
    decreases t
  {
    if s == t then 0
    else Inversions(tasks, slots, i, s, t - 1) + (if AtLevel(tasks, i, slots[t - 1]) then 0 else 1)
  }

  /** What the blocking term of task `i` stands for: in any stretch of time during which work at its
      level is pending, less urgent tasks hold the processor for at most `b` units. */
  ghost predicate BlockedAtMost(tasks: seq<WholeTask>, jobs: seq<seq<Job>>, slots: seq<int>, i: int, b: int)
    requires |jobs| == |tasks| && 0 <= i < |tasks|
  {
    forall s, t :: 0 <= s <= t <= |slots| && (forall u :: s <= u < t ==> LevelPending(tasks, jobs, slots, i, u)) ==>
      Inversions(tasks, slots, i, s, t) <= b
  }

  /** The preemptive policy never blocks a task whose priority is its own. */
  lemma PreemptiveNeverBlocks(tasks: seq<WholeTask>, jobs: seq<seq<Job>>, slots: seq<int>, i: int)
    requires |jobs| == |tasks| && 0 <= i < |tasks|
    requires Preemptive(tasks, jobs, slots) && UniquePriority(tasks, i)
    ensures BlockedAtMost(tasks, jobs, slots, i, 0)
  {
    IdleFirstBlocks(tasks, jobs, slots, i, 0);
  }

  lemma {:induction false} NoInversions(tasks: seq<WholeTask>, jobs: seq<seq<Job>>, slots: seq<int>, i: int,
                                        b: int, s: int, t: int)
    requires |jobs| == |tasks| && 0 <= i < |tasks| && 0 <= s <= t <= |slots| && b <= s
    requires PreemptiveFrom(tasks, jobs, slots, b) && UniquePriority(tasks, i)
    requires forall u :: s <= u < t ==> LevelPending(tasks, jobs, slots, i, u)
    ensures Inversions(tasks, slots, i, s, t) == 0
    decreases t
  {
    if s < t {
      NoInversions(tasks, jobs, slots, i, b, s, t - 1);
      assert LevelPending(tasks, jobs, slots, i, t - 1);
    }
  }

  lemma {:induction false} InversionsSplit(tasks: seq<WholeTask>, slots: seq<int>, i: int, s: int, m: int, t: int)
    requires 0 <= i < |tasks| && 0 <= s <= m <= t <= |slots|
    ensures Inversions(tasks, slots, i, s, t) == Inversions(tasks, slots, i, s, m) + Inversions(tasks, slots, i, m, t)
    ensures Inversions(tasks, slots, i, s, m) <= m - s
    decreases t
  {
    if m < t {
      InversionsSplit(tasks, slots, i, s, m, t - 1);
    } else if s < m {
      InversionsSplit(tasks, slots, i, s, m - 1, m - 1);
    }
  }

  /** A run that idles for `b` units and then follows the policy blocks a task for at most `b`. */
  lemma IdleFirstBlocks(tasks: seq<WholeTask>, jobs: seq<seq<Job>>, slots: seq<int>, i: int, b: int)
    requires |jobs| == |tasks| && 0 <= i < |tasks| && b >= 0
    requires PreemptiveFrom(tasks, jobs, slots, b) && UniquePriority(tasks, i)
    ensures BlockedAtMost(tasks, jobs, slots, i, b)
  {
    forall s, t | 0 <= s <= t <= |slots| && (forall u :: s <= u < t ==> LevelPending(tasks, jobs, slots, i, u))
      ensures Inversions(tasks, slots, i, s, t) <= b
    {
      var m := if b < s then s else if b < t then b else t;
      InversionsSplit(tasks, slots, i, s, m, t);
      if m < t {
        NoInversions(tasks, jobs, slots, i, b, m, t);
      } else {
        assert Inversions(tasks, slots, i, t, t) == 0;
      }
    }
  }

  /** The policy can always be followed: every job pattern has a run of every length that idles for `b`
      units and then follows it. */
  lemma {:induction false} RunExists(tasks: seq<WholeTask>, jobs: seq<seq<Job>>, b: nat, n: nat) returns (slots: seq<int>)
    requires |jobs| == |tasks|
    ensures |slots| == n && IdleFirst(tasks, jobs, slots, b)
  {
    if n == 0 {
      return [];
    }
    var before := RunExists(tasks, jobs, b, n - 1);
    var pick := MostUrgent(tasks, jobs, before, |tasks|);
    slots := before + [if n <= b then -1 else pick];
    forall t, j | 0 <= t < n ensures Served(slots, j, t) == Served(before, j, t) {
      ServedPrefix(slots, before, j, t);
    }
    forall t, j | 0 <= t < n && 0 <= j < |tasks|
      ensures Pending(jobs, slots, j, t) == Pending(jobs, before, j, t)
    {
    }
  }

  lemma {:induction false} MostUrgent(tasks: seq<WholeTask>, jobs: seq<seq<Job>>, slots: seq<int>, n: nat) returns (pick: int)
    requires |jobs| == |tasks| && n <= |tasks|
    ensures -1 <= pick < n
    ensures pick >= 0 ==> Pending(jobs, slots, pick, |slots|)
    ensures forall j :: 0 <= j < n && Pending(jobs, slots, j, |slots|) ==>
              pick >= 0 && tasks[pick].priority <= tasks[j].priority
  {
    if n == 0 {
      return -1;
    }
    pick := MostUrgent(tasks, jobs, slots, n - 1);
    if Pending(jobs, slots, n - 1, |slots|) && (pick < 0 || tasks[n - 1].priority < tasks[pick].priority) {
      pick := n - 1;
    }
  }

  lemma {:induction false} ServedPrefix(slots: seq<int>, before: seq<int>, j: int, t: int)
    requires before <= slots && 0 <= t <= |before|
    ensures Served(slots, j, t) == Served(before, j, t)
  {
    if t > 0 {
      ServedPrefix(slots, before, j, t - 1);
    }
  }

  // ---------------------------------------------------------------- sums over the more urgent tasks

  /** The sum of the entries of `g` that belong to tasks more urgent than `p`. */
  function UrgentSum(tasks: seq<WholeTask>, p: int, g: seq<int>): int
    requires |g| == |tasks|
  {
    if tasks == [] then 0
    else
      var n := |tasks| - 1;
      UrgentSum(tasks[..n], p, g[..n]) + (if tasks[n].priority < p then g[n] else 0)
  }

  lemma {:induction false} UrgentSumLe(tasks: seq<WholeTask>, p: int, g: seq<int>, h: seq<int>)
    requires |g| == |h| == |tasks|
    requires forall j :: 0 <= j < |tasks| && tasks[j].priority < p ==> g[j] <= h[j]
    ensures UrgentSum(tasks, p, g) <= UrgentSum(tasks, p, h)
    ensures UrgentSum(tasks, p, g) == UrgentSum(tasks, p, h) ==>
              forall j :: 0 <= j < |tasks| && tasks[j].priority < p ==> g[j] == h[j]
  {
    if tasks != [] {
      var n := |tasks| - 1;
      UrgentSumLe(tasks[..n], p, g[..n], h[..n]);
    }
  }

  lemma {:induction false} UrgentSumBump(tasks: seq<WholeTask>, p: int, g: seq<int>, h: seq<int>, k: int)
    requires |g| == |h| == |tasks|
    requires forall j :: 0 <= j < |tasks| ==> h[j] == g[j] + (if j == k then 1 else 0)
    ensures UrgentSum(tasks, p, h) ==
            UrgentSum(tasks, p, g) + (if 0 <= k < |tasks| && tasks[k].priority < p then 1 else 0)
  {
    if tasks != [] {
      var n := |tasks| - 1;
      UrgentSumBump(tasks[..n], p, g[..n], h[..n], k);
    }
  }

  function ServedBy(tasks: seq<WholeTask>, slots: seq<int>, t: int): (g: seq<int>)
    requires 0 <= t <= |slots|
  {
    seq(|tasks|, j requires 0 <= j < |tasks| => Served(slots, j, t))
  }

  function AskedBy(jobs: seq<seq<Job>>, t: int): (g: seq<int>) {
    seq(|jobs|, j requires 0 <= j < |jobs| => Asked(jobs[j], t))
  }

  /** The units of the first `t` that went to the level of task `i`. */
  function LevelServed(tasks: seq<WholeTask>, slots: seq<int>, i: int, t: int): int
    requires 0 <= i < |tasks| && 0 <= t <= |slots|
  {
    UrgentSum(tasks, tasks[i].priority, ServedBy(tasks, slots, t)) + Served(slots, i, t)
  }

  lemma LevelServedStep(tasks: seq<WholeTask>, slots: seq<int>, i: int, t: int)
    requires 0 <= i < |tasks| && 0 <= t < |slots|
    ensures LevelServed(tasks, slots, i, t + 1) ==
            LevelServed(tasks, slots, i, t) + (if AtLevel(tasks, i, slots[t]) then 1 else 0)
  {
    UrgentSumBump(tasks, tasks[i].priority, ServedBy(tasks, slots, t), ServedBy(tasks, slots, t + 1), slots[t]);
  }

  /** Every unit of a window is either served at the level of `i` or an inversion. */
  lemma {:induction false} LevelServedWindow(tasks: seq<WholeTask>, slots: seq<int>, i: int, s: int, t: int)
    requires 0 <= i < |tasks| && 0 <= s <= t <= |slots|
    ensures LevelServed(tasks, slots, i, t) - LevelServed(tasks, slots, i, s) + Inversions(tasks, slots, i, s, t) == t - s
    decreases t
  {
    if s < t {
      LevelServedWindow(tasks, slots, i, s, t - 1);
      LevelServedStep(tasks, slots, i, t - 1);
    }
  }

  lemma {:induction false} ServedMonotone(slots: seq<int>, j: int, s: int, t: int)
    requires 0 <= s <= t <= |slots|
    ensures Served(slots, j, s) <= Served(slots, j, t)
    decreases t
  {
    if s < t {
      ServedMonotone(slots, j, s, t - 1);
    }
  }

  lemma {:induction false} AskedMonotone(js: seq<Job>, s: int, t: int)
    requires s <= t
    ensures Asked(js, s) <= Asked(js, t)
  {
    if js != [] {
      AskedMonotone(js[..|js| - 1], s, t);
    }
  }

  /** No task is served more than it asked for. */
  lemma {:induction false} ServedWithinAsked(jobs: seq<seq<Job>>, slots: seq<int>, j: int, t: int)
    requires IsRun(jobs, slots) && 0 <= j < |jobs| && 0 <= t <= |slots|
    ensures Served(slots, j, t) <= Asked(jobs[j], t)
  {
    if t > 0 {
      ServedWithinAsked(jobs, slots, j, t - 1);
      AskedMonotone(jobs[j], t - 1, t);
      assert slots[t - 1] == j ==> Pending(jobs, slots, j, t - 1);
    }
  }

  // ---------------------------------------------------------------- the demand of a window

  lemma CeilDivBounds(x: int, d: int)
    requires d > 0
    ensures (CeilDiv(x, d) - 1) * d < x <= CeilDiv(x, d) * d
  {
    var q := (x + d - 1) / d;
    assert x + d - 1 == q * d + (x + d - 1) % d;
    assert (q - 1) * d == q * d - d;
  }

  lemma CeilDivUnique(x: int, d: int, c: int)
    requires d > 0 && (c - 1) * d < x <= c * d
    ensures CeilDiv(x, d) == c
  {
    var q := CeilDiv(x, d);
    CeilDivBounds(x, d);
    if q < c { MulLe(q, c - 1, d); }
    if q > c { MulLe(c, q - 1, d); }
  }

  lemma MulLe(x: int, y: int, d: int)
    requires x <= y && d >= 0
    ensures x * d <= y * d
  {
    assert (y - x) * d >= 0;
    assert y * d == x * d + (y - x) * d;
  }

  lemma CeilDivShift(x: int, d: int)
    requires d > 0
    ensures CeilDiv(x + d, d) == CeilDiv(x, d) + 1
  {
    CeilDivBounds(x, d);
    var c := CeilDiv(x, d);
    assert (c + 1) * d == c * d + d && (c - 1) * d == c * d - d;
    CeilDivUnique(x + d, d, c + 1);
  }

  lemma CeilDivMonotone(x: int, y: int, d: int)
    requires d > 0 && x <= y
    ensures CeilDiv(x, d) <= CeilDiv(y, d)
  {
    var a, b := CeilDiv(x, d), CeilDiv(y, d);
    CeilDivBounds(x, d);
    CeilDivBounds(y, d);
    if a > b { MulLe(b, a - 1, d); }
  }

  lemma QuotientBounds(x: real, d: real, lo: real, hi: real)
    requires d > 0.0 && lo * d < x <= hi * d
    ensures lo < x / d <= hi
  {
    var q := x / d;
    assert q * d == x;
    if q <= lo { MulMonotone(d, q, lo); }
    if q > hi { MulStrict(hi, q, d); }
  }

  lemma CeilBetween(x: real, c: int)
    requires (c - 1) as real < x <= c as real
    ensures Ceil(x) == c
  {
  }

  /** The rounding of the analysis, on whole numbers. */
  lemma CeilIsCeilDiv(x: int, d: int)
    requires d > 0
    ensures Ceil(x as real / d as real) == CeilDiv(x, d)
  {
    var c := CeilDiv(x, d);
    CeilDivBounds(x, d);
    assert (c as real) * (d as real) == (c * d) as real;
    assert ((c - 1) as real) * (d as real) == ((c - 1) * d) as real;
    QuotientBounds(x as real, d as real, (c - 1) as real, c as real);
    CeilBetween(x as real / d as real, c);
  }

  /** The share of the analysis, on whole numbers. */
  function WholeShare(t: WholeTask, length: int): int {
    CeilDiv(length, Period(t)) * Wcet(t)
  }

  lemma ShareIsWhole(t: WholeTask, length: int)
    ensures Share(t, length as real) == WholeShare(t, length) as real
  {
    CeilIsCeilDiv(length, Period(t));
  }

  /** In a window of length `length`, a task releases at most its share. */
  lemma {:induction false} WindowDemand(t: WholeTask, js: seq<Job>, start: int, length: int)
    requires LegalJobs(t, js) && length >= 0
    ensures Asked(js, start + length) - Asked(js, start) <= WholeShare(t, length)
    decreases |js|
  {
    WholeShareMonotone(t, 0, length);
    if js != [] {
      var rest, last := js[..|js| - 1], js[|js| - 1];
      if start <= last.release < start + length {
        var d := last.release - Period(t) + 1 - start;
        ReleasesApart(t, js, start + d, start + length);
        if d >= 0 {
          WindowDemand(t, rest, start, d);
          WholeShareNext(t, d);
          WholeShareMonotone(t, d + Period(t), length);
        } else {
          AskedMonotone(rest, start + d, start);
          WholeShareOne(t, length);
        }
      } else {
        WindowDemand(t, rest, start, length);
      }
    }
  }

  lemma WholeShareMonotone(t: WholeTask, x: int, y: int)
    requires x <= y
    ensures WholeShare(t, x) <= WholeShare(t, y)
    ensures WholeShare(t, 0) == 0
  {
    CeilDivUnique(0, Period(t), 0);
    CeilDivMonotone(x, y, Period(t));
    MulLe(CeilDiv(x, Period(t)), CeilDiv(y, Period(t)), Wcet(t));
  }

  lemma WholeShareNext(t: WholeTask, x: int)
    ensures WholeShare(t, x + Period(t)) == WholeShare(t, x) + Wcet(t)
  {
    CeilDivShift(x, Period(t));
  }

  lemma WholeShareOne(t: WholeTask, x: int)
    requires x > 0
    ensures WholeShare(t, x) >= Wcet(t)
  {
    CeilDivUnique(1, Period(t), 1);
    WholeShareMonotone(t, 1, x);
  }

  /** All jobs before the last are released at least a period before it. */
  lemma {:induction false} ReleasesApart(t: WholeTask, js: seq<Job>, from: int, to: int)
    requires LegalJobs(t, js) && js != []
    requires from == js[|js| - 1].release - Period(t) + 1 && from <= to
    ensures Asked(js[..|js| - 1], to) == Asked(js[..|js| - 1], from)
  {
    var rest := js[..|js| - 1];
    if rest != [] {
      AskedSettled(t, rest, from);
      AskedSettled(t, rest, to);
    }
  }

  lemma {:induction false} AskedSettled(t: WholeTask, js: seq<Job>, time: int)
    requires LegalJobs(t, js)
    requires js != [] ==> js[|js| - 1].release < time
    ensures Asked(js, time) == Work(js)
  {
    if js != [] {
      AskedSettled(t, js[..|js| - 1], time);
    }
  }

  /** The interference of the analysis, on whole numbers. */
  function WholeInterference(tasks: seq<WholeTask>, p: int, length: int): int {
    if tasks == [] then 0
    else
      var n := |tasks| - 1;
      WholeInterference(tasks[..n], p, length) + (if tasks[n].priority < p then WholeShare(tasks[n], length) else 0)
  }

  lemma {:induction false} InterferenceIsWhole(tasks: seq<WholeTask>, p: int, length: int)
    ensures Interference(HigherPriority(tasks, p), length as real) == WholeInterference(tasks, p, length) as real
  {
    if tasks != [] {
      var n := |tasks| - 1;
      InterferenceIsWhole(tasks[..n], p, length);
      InterferenceLast(tasks, p, length as real);
      ShareIsWhole(tasks[n], length);
    }
  }

  /** The recurrence takes the tasks one by one. */
  lemma InterferenceLast(tasks: seq<WholeTask>, p: int, r: real)
    requires tasks != []
    ensures var n := |tasks| - 1;
            Interference(HigherPriority(tasks, p), r) ==
            Interference(HigherPriority(tasks[..n], p), r) + (if tasks[n].priority < p then Share(tasks[n], r) else 0.0)
  {
    var n := |tasks| - 1;
    var hp := HigherPriority(tasks[..n], p);
    assert (hp + [tasks[n]])[..|hp|] == hp && hp + [] == hp;
  }

  /** The more urgent tasks together release at most the interference term. */
  lemma {:induction false} LevelDemand(tasks: seq<WholeTask>, jobs: seq<seq<Job>>, p: int, start: int, length: int)
    requires Legal(tasks, jobs) && length >= 0
    ensures UrgentSum(tasks, p, AskedBy(jobs, start + length)) - UrgentSum(tasks, p, AskedBy(jobs, start))
            <= WholeInterference(tasks, p, length)
  {
    if tasks != [] {
      var n := |tasks| - 1;
      LevelDemand(tasks[..n], jobs[..n], p, start, length);
      assert AskedBy(jobs, start)[..n] == AskedBy(jobs[..n], start);
      assert AskedBy(jobs, start + length)[..n] == AskedBy(jobs[..n], start + length);
      WindowDemand(tasks[n], jobs[n], start, length);
    }
  }
}

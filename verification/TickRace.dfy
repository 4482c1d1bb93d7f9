/** What the tick does to the allocator when it is not held off: the runs in which it lands between the
    read and the write of the bump pointer or of the counter, and the exact condition under which no run
    is such a run. */
module TickRace {
  import opened Heap
  import opened Preemption
  import opened Uninterrupted

  // ---------------------------------------------------------------- putting runs together

  lemma RunsOn(m: Machine, s: State, steps: seq<Step>, step: Step)
    requires WellFormed(s) && Enabled(m, Run(m, s, steps), step)
    ensures Run(m, s, steps + [step]) == Apply(m, Run(m, s, steps), step)
  {
    hide Apply, Enabled;
    assert (steps + [step])[..|steps|] == steps;
  }

  lemma {:induction false} RunsSolo(m: Machine, s: State, steps: seq<Step>, n: nat) returns (more: seq<Step>)
    requires WellFormed(s)
    ensures Run(m, s, more) == Solo(m, Run(m, s, steps), n)
    decreases n
  {
    hide Execute, Run;
    var before := Run(m, s, steps);
    if n == 0 {
      more := steps;
    } else if Running(before).point.Outside? {
      StaysOutside(m, before, n);
      more := steps;
    } else {
      RunsOn(m, s, steps, Advance);
      more := RunsSolo(m, s, steps + [Advance], n - 1);
    }
  }

  lemma {:induction false} StaysOutside(m: Machine, s: State, n: nat)
    requires WellFormed(s) && Running(s).point.Outside?
    ensures Solo(m, s, n) == s
  {
    if n > 0 {
      StaysOutside(m, s, n - 1);
    }
  }

  /** The smallest request there is to lose. */
  function OneByte(mask: Mask): Request {
    Request(1, false, mask)
  }

  /** A tick lands, another task makes a whole call, and the next tick comes back. */
  lemma Intrude(m: Machine, s: State, steps: seq<Step>, to: nat, mask: Mask) returns (more: seq<Step>)
    requires WellFormed(s) && mask in m.callers && mask.fiq
    requires var t := Run(m, s, steps);
             && Running(t).mask.fiq && to < |t.tasks| && t.tasks[to] == Task(Outside, mask)
             && t.used <= HEAP_BYTES && t.countdown == 0 && PlaceOf(m.base, t.used, OneByte(mask)).hi <= HEAP_BYTES
    ensures var t := Run(m, s, steps);
            Run(m, s, more) == AfterCall(m, t.(current := to), OneByte(mask)).(current := t.current)
  {
    hide Execute, Run, PlaceOf;
    var t := Run(m, s, steps);
    RunsOn(m, s, steps, Tick(to));
    var there := steps + [Tick(to)];
    RunsOn(m, s, there, Call(1, false));
    var n := SoloCall(m, t.(current := to), 1, false);
    var back := RunsSolo(m, s, there + [Call(1, false)], n);
    RunsOn(m, s, back, Tick(t.current));
    more := back + [Tick(t.current)];
  }

  /** All tasks are outside any call, in the same interrupt state. */
  function Start(tasks: nat, mask: Mask): (s: State)
    requires tasks > 0
    ensures Initial(s) && |s.tasks| == tasks && s.current == 0 && s.countdown == 0
    ensures forall t :: 0 <= t < tasks ==> s.tasks[t] == Task(Outside, mask)
  {
    State(0, 0, 0, seq(HEAP_BYTES, _ => 0), {}, seq(tasks, _ => Task(Outside, mask)), 0, [])
  }

  /** The first task on its way: it has read the bump pointer, and the tick is not held off. */
  lemma ReadsPointer(m: Machine, tasks: nat, mask: Mask) returns (steps: seq<Step>)
    requires tasks > 0 && mask in m.callers
    ensures var s := Start(tasks, mask);
            Run(m, s, steps) == Goto(WithMask(s, Masked(m, mask)), WritingUsed(OneByte(mask), mask, 0))
  {
    hide Run, Masked;
    var s := Start(tasks, mask);
    assert Run(m, s, []) == s by {
      RunNothing(m, s);
    }
    RunsOn(m, s, [], Call(1, false));
    var s1 := Apply(m, s, Call(1, false));
    var n := Masks(m, s1);
    SoloAdds(m, s1, n, 1);
    SoloOne(m, Solo(m, s1, n));
    FirstPlace(m.base, mask);
    steps := RunsSolo(m, s, [] + [Call(1, false)], n + 1);
  }

  lemma RunNothing(m: Machine, s: State)
    requires WellFormed(s)
    ensures Run(m, s, []) == s
  {
  }

  lemma FirstPlace(base: HeapAddress, mask: Mask)
    ensures PlaceOf(base, 0, OneByte(mask)) == Place(0, 0, 1) && Fits(base, 0, 1, false)
    ensures PlaceOf(base, 1, OneByte(mask)) == Place(8, 8, 9)
  {
  }

  // ---------------------------------------------------------------- what is lost

  /** The tick is not held off between masking and restoring. */
  ghost predicate Exposed(m: Machine, tasks: nat, mask: Mask) {
    tasks >= 2 && !m.masksFiq && mask in m.callers && mask.fiq
  }

  lemma ExposedUnlessProtected(m: Machine, tasks: nat) returns (mask: Mask)
    requires !Protected(m, tasks)
    ensures Exposed(m, tasks, mask)
  {
    mask :| mask in m.callers && mask.fiq;
  }

  /** The tick lands between the read and the write of the bump pointer: two calls are given the same
      byte. The second of them has yet to zero it. */
  lemma OverlappingRun(m: Machine, tasks: nat, mask: Mask) returns (steps: seq<Step>)
    requires Exposed(m, tasks, mask)
    ensures var t := Run(m, Start(tasks, mask), steps);
            && t.log == [Entry(1, OneByte(mask), Place(0, 0, 1), true), Entry(0, OneByte(mask), Place(0, 0, 1), false)]
            && t.current == 0 && t.tasks[0] == Task(ReadingCount(OneByte(mask), mask, 1), Masked(m, mask))
            && t.tasks[1] == Task(Outside, mask)
  {
    hide Run, AfterCall, PlaceOf;
    var s, r := Start(tasks, mask), OneByte(mask);
    var reading := ReadsPointer(m, tasks, mask);
    FirstPlace(m.base, mask);
    var back := Intrude(m, s, reading, 1, mask);
    RunsOn(m, s, back, Advance) by {
      AfterCallIs(m, Run(m, s, reading).(current := 1), r);
    }
    AfterCallIs(m, Run(m, s, reading).(current := 1), r);
    steps := back + [Advance];
  }

  lemma AfterCallIs(m: Machine, s: State, r: Request)
    requires WellFormed(s)
    ensures var t := AfterCall(m, s, r);
            && t.tasks == s.tasks && t.current == s.current && t.used == PlaceOf(m.base, s.used, r).hi
            && t.count == (s.count + 1) % WORD && |t.mem| == |s.mem|
            && t.log == s.log + [Entry(s.current, r, PlaceOf(m.base, s.used, r), true)]
  {
    hide PlaceOf;
  }

  /** No two reservations of any run share a byte. */
  ghost predicate AlwaysDisjoint(m: Machine, tasks: nat) {
    forall s: State, steps: seq<Step>, i: nat, j: nat ::
      Initial(s) && |s.tasks| == tasks && i < j < |Run(m, s, steps).log|
      ==> Apart(Run(m, s, steps).log[i].place, Run(m, s, steps).log[j].place)
  }

  /** The regions of every run are disjoint if and only if no tick can land between masking and
      restoring: there is one task, or the FIQ is masked too, or no call is made with it let through. */
  lemma DisjointExactly(m: Machine, tasks: nat)
    ensures AlwaysDisjoint(m, tasks) <==> Protected(m, tasks)
  {
    hide Run, Apart, Chained;
    if Protected(m, tasks) {
      forall s: State, steps: seq<Step>, i: nat, j: nat
        | Initial(s) && |s.tasks| == tasks && i < j < |Run(m, s, steps).log|
        ensures Apart(Run(m, s, steps).log[i].place, Run(m, s, steps).log[j].place)
      {
        RegionsDisjoint(m, s, steps, i, j);
      }
    } else {
      var mask := ExposedUnlessProtected(m, tasks);
      var steps := OverlappingRun(m, tasks, mask);
      Overlap(m, Start(tasks, mask), steps);
    }
  }

  lemma Overlap(m: Machine, s: State, steps: seq<Step>)
    requires Initial(s) && |Run(m, s, steps).log| == 2
    requires Run(m, s, steps).log[0].place == Run(m, s, steps).log[1].place == Place(0, 0, 1)
    ensures !AlwaysDisjoint(m, |s.tasks|)
  {
    hide Run;
    var i: nat, j: nat := 0, 1;
    assert !Apart(Run(m, s, steps).log[i].place, Run(m, s, steps).log[j].place);
  }

  /** Every region is all zero when its call returns. */
  ghost predicate AlwaysZeroed(m: Machine, tasks: nat) {
    forall s: State, steps: seq<Step>, step: Step, k: nat ::
      Initial(s) && |s.tasks| == tasks && Returns(m, Run(m, s, steps), step, k)
      ==> ReturnsZeros(m, Run(m, s, steps), step, k)
  }

  ghost predicate ReturnsZeros(m: Machine, before: State, step: Step, k: nat)
    requires WellFormed(before) && Returns(m, before, step, k)
  {
    forall x :: before.log[k].place.start <= x < before.log[k].place.hi && x < HEAP_BYTES
                ==> Apply(m, before, step).mem[x] == 0
  }

  /** The owner of a shared byte writes to it while the other call finishes. */
  lemma DirtyRun(m: Machine, tasks: nat, mask: Mask) returns (steps: seq<Step>)
    requires Exposed(m, tasks, mask)
    ensures var before := Run(m, Start(tasks, mask), steps);
            && Returns(m, before, Advance, 1) && before.log[1].place == Place(0, 0, 1)
            && Apply(m, before, Advance).mem[0] == 1
  {
    hide Run;
    var s, r := Start(tasks, mask), OneByte(mask);
    steps := OverlappingRun(m, tasks, mask);
    var t0 := Run(m, s, steps);
    Counts(m, t0);
    var t1 := Solo(m, t0, 2);
    SoloAdds(m, t0, 2, 2);
    SoloTwo(m, t1);
    steps := RunsSolo(m, s, steps, 4);
    var t2 := Run(m, s, steps);
    assert t2.current == 0 && t2.tasks[0] == Task(Zeroing(r, 1, 1), mask) && t2.tasks[1] == Task(Outside, mask);
    assert t2.log == t0.log;
    RunsOn(m, s, steps, Tick(1));
    steps := steps + [Tick(1)];
    RunsOn(m, s, steps, Write(0, 0, 1));
    steps := steps + [Write(0, 0, 1)];
    RunsOn(m, s, steps, Tick(0));
    steps := steps + [Tick(0)];
  }

  lemma ZeroedExactly(m: Machine, tasks: nat)
    ensures AlwaysZeroed(m, tasks) <==> Protected(m, tasks)
  {
    hide Run, Apply, Returns;
    if Protected(m, tasks) {
      forall s: State, steps: seq<Step>, step: Step, k: nat
        | Initial(s) && |s.tasks| == tasks && Returns(m, Run(m, s, steps), step, k)
        ensures ReturnsZeros(m, Run(m, s, steps), step, k)
      {
        ZerosReturned(m, s, steps, step, k);
      }
    } else {
      var mask := ExposedUnlessProtected(m, tasks);
      var steps := DirtyRun(m, tasks, mask);
      NotZeros(m, Run(m, Start(tasks, mask), steps));
    }
  }

  lemma ZerosReturned(m: Machine, s: State, steps: seq<Step>, step: Step, k: nat)
    requires Initial(s) && Protected(m, |s.tasks|) && Returns(m, Run(m, s, steps), step, k)
    ensures ReturnsZeros(m, Run(m, s, steps), step, k)
  {
    hide Run, Protected;
    ReturnsZeroed(m, s, steps, step, k);
  }

  lemma NotZeros(m: Machine, before: State)
    requires WellFormed(before) && Returns(m, before, Advance, 1) && before.log[1].place == Place(0, 0, 1)
    requires Apply(m, before, Advance).mem[0] == 1
    ensures !ReturnsZeros(m, before, Advance, 1)
  {
  }

  /** No task is between masking and restoring. */
  ghost predicate Settled(s: State) {
    forall t :: 0 <= t < |s.tasks| ==> !Critical(s.tasks[t].point)
  }

  /** Whenever no call is half-way through its bookkeeping, the counter is the number of allocations. */
  ghost predicate AlwaysCounted(m: Machine, tasks: nat) {
    forall s: State, steps: seq<Step> ::
      Initial(s) && |s.tasks| == tasks && Settled(Run(m, s, steps))
      ==> Run(m, s, steps).count == |Run(m, s, steps).log| % WORD
  }

  /** The first task has reserved its byte and read the counter. */
  lemma ReadsCounter(m: Machine, tasks: nat, mask: Mask) returns (steps: seq<Step>)
    requires Exposed(m, tasks, mask)
    ensures var s, t := Start(tasks, mask), Run(m, Start(tasks, mask), steps);
            && t.tasks == s.tasks[0 := Task(WritingCount(OneByte(mask), mask, 0, 0), Masked(m, mask))]
            && t.current == 0 && t.used == 1 && t.count == 0 && t.countdown == 0
            && t.log == [Entry(0, OneByte(mask), Place(0, 0, 1), false)]
  {
    hide Run, PlaceOf;
    var s := Start(tasks, mask);
    FirstPlace(m.base, mask);
    var reading := ReadsPointer(m, tasks, mask);
    SoloTwo(m, Run(m, s, reading));
    steps := RunsSolo(m, s, reading, 2);
  }

  /** The tick lands between the read and the write of the counter: two allocations are counted as one. */
  lemma LostCountRun(m: Machine, tasks: nat, mask: Mask) returns (steps: seq<Step>)
    requires Exposed(m, tasks, mask)
    ensures var t := Run(m, Start(tasks, mask), steps);
            Settled(t) && |t.log| == 2 && t.count == 1
  {
    hide Run, AfterCall, PlaceOf, Execute;
    var s := Start(tasks, mask);
    FirstPlace(m.base, mask);
    var counting := ReadsCounter(m, tasks, mask);
    var back := Intrude(m, s, counting, 1, mask);
    AfterCallIs(m, Run(m, s, counting).(current := 1), OneByte(mask));
    var t2 := Run(m, s, back);
    SoloTwo(m, t2);
    CountsStale(m, t2);
    steps := RunsSolo(m, s, back, 2);
  }

  /** The write of a stale count, and the restored interrupt state. */
  lemma CountsStale(m: Machine, s: State)
    requires WellFormed(s) && Running(s).point.WritingCount? && Running(s).point.seen == 0
    requires !Running(s).point.r.guarded && forall t :: 0 <= t < |s.tasks| && t != s.current ==> s.tasks[t].point.Outside?
    ensures var t := Execute(m, Execute(m, s));
            Settled(t) && t.log == s.log && t.count == 1
  {
  }

  lemma CountedExactly(m: Machine, tasks: nat)
    ensures AlwaysCounted(m, tasks) <==> Protected(m, tasks)
  {
    hide Run, Protected;
    if Protected(m, tasks) {
      forall s: State, steps: seq<Step> | Initial(s) && |s.tasks| == tasks && Settled(Run(m, s, steps))
        ensures Run(m, s, steps).count == |Run(m, s, steps).log| % WORD
      {
        CountIsExact(m, s, steps);
      }
    } else {
      var mask := ExposedUnlessProtected(m, tasks);
      var steps := LostCountRun(m, tasks, mask);
    }
  }

  /** The kernel's own setting: `cpsid i` only, and calls from running tasks, which let both interrupts
      through. With two tasks or more, some run gives one byte to two calls. */
  lemma KernelAllocatorRaces(m: Machine, tasks: nat)
    requires !m.masksFiq && Mask(true, true) in m.callers && tasks >= 2
    ensures !AlwaysDisjoint(m, tasks) && !AlwaysZeroed(m, tasks) && !AlwaysCounted(m, tasks)
  {
    hide AlwaysDisjoint, AlwaysZeroed, AlwaysCounted;
    DisjointExactly(m, tasks);
    ZeroedExactly(m, tasks);
    CountedExactly(m, tasks);
    assert Mask(true, true).fiq;
  }

  // ---------------------------------------------------------------- the halt

  /** No step is possible but the halted task's own spinning. */
  lemma {:induction false} SpinsForever(m: Machine, t: State, more: seq<Step>)
    requires WellFormed(t) && Running(t).point.Halted? && !Running(t).mask.irq
    requires |t.tasks| < 2 || !Running(t).mask.fiq
    ensures Run(m, t, more) == t
  {
    if more != [] {
      SpinsForever(m, t, more[..|more| - 1]);
    }
  }

  /** A task that has halted stops the machine if and only if there is no other task, or the FIQ was
      masked by the allocator or by the caller; otherwise the next tick goes on with the others. */
  lemma HaltStopsExactly(m: Machine, s: State, steps: seq<Step>)
    requires Initial(s) && Running(Run(m, s, steps)).point.Halted?
    ensures var t := Run(m, s, steps);
            (forall more :: Run(m, t, more) == t) <==>
            |t.tasks| < 2 || m.masksFiq || !Running(t).point.r.entered.fiq
  {
    hide GuardsOk, Shaped;
    var t := Run(m, s, steps);
    RunKeepsInv(m, s, steps);
    assert TaskOk(m, t, t.current);
    if |t.tasks| < 2 || m.masksFiq || !Running(t).point.r.entered.fiq {
      forall more ensures Run(m, t, more) == t {
        SpinsForever(m, t, more);
      }
    } else {
      var other := if t.current == 0 then 1 else 0;
      RunNothing(m, t);
      RunsOn(m, t, [], Tick(other));
      assert Run(m, t, [] + [Tick(other)]).current == other;
    }
  }
}

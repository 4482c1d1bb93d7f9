/** The allocator under preemption: any number of tasks, each inside its own allocation call at its own
    point. The timer tick is an FIQ and the serial line an IRQ, and each may switch tasks whenever the
    running task lets it through; the allocator's `cpsid i` holds off the IRQ only. */
module Preemption {
  import opened Crc32
  import opened Heap

  /** The setting of a run: the heap's address, the interrupt states in which allocation calls are made,
      and whether the allocator masks the FIQ as well. The kernel's does not. */
  datatype Machine = Machine(base: HeapAddress, callers: set<Mask>, masksFiq: bool)

  /** Where a task stands: in its own code, before one of the memory accesses of a call, or in the halt.
      `saved` is the CPSR the call saved, `k` the index of the call's reservation in the history. */
  datatype Point =
    | Outside
    | SavingCpsr(r: Request)
    | Masking(r: Request, saved: Mask)
    | ReadingCountdown(r: Request, saved: Mask)
    | WritingCountdown(r: Request, saved: Mask, seen: nat)
    | ReadingUsed(r: Request, saved: Mask)
    | WritingUsed(r: Request, saved: Mask, seen: nat)
    | ReadingCount(r: Request, saved: Mask, k: nat)
    | WritingCount(r: Request, saved: Mask, k: nat, seen: nat)
    | Restoring(r: Request, saved: Mask, k: nat)
    | Installing(r: Request, k: nat)
    | Zeroing(r: Request, k: nat, i: nat)
    | Halted(r: Request)

  /** A task: its point, and the interrupt bits of its CPSR, which a switch saves and restores. */
  datatype Task = Task(point: Point, mask: Mask)

  datatype State = State(
    used: nat, count: nat, countdown: nat, mem: seq<Byte>, guards: set<nat>,
    tasks: seq<Task>, current: nat, log: seq<Entry>)

  /** What can happen next. Outside a call a task may do anything to the memory handed out so far. */
  datatype Step =
    | Call(n: Size, guarded: bool)
    | Advance
    | Arm(afterN: int)
    | Write(k: nat, at: nat, v: Byte)
    | SetMask(mask: Mask)
    | Tick(to: nat)
    | SerialIrq(to: nat)

  predicate WellFormed(s: State) {
    s.current < |s.tasks| && |s.mem| == HEAP_BYTES
  }

  function Running(s: State): Task
    requires WellFormed(s)
  {
    s.tasks[s.current]
  }

  function Goto(s: State, p: Point): State
    requires WellFormed(s)
  {
    s.(tasks := s.tasks[s.current := Running(s).(point := p)])
  }

  function WithMask(s: State, mask: Mask): State
    requires WellFormed(s)
  {
    s.(tasks := s.tasks[s.current := Running(s).(mask := mask)])
  }

  /** What the allocator's masking leaves of an interrupt state. */
  function Masked(m: Machine, mask: Mask): Mask {
    Mask(false, mask.fiq && !m.masksFiq)
  }

  /** One memory access of the call the running task is in. */
  function Execute(m: Machine, s: State): (s': State)
    requires WellFormed(s)
    ensures WellFormed(s') && |s'.tasks| == |s.tasks| && s'.current == s.current
  {
    match Running(s).point
    case Outside => s
    case SavingCpsr(r) => Goto(s, Masking(r, Running(s).mask))
    case Masking(r, saved) =>
      Goto(WithMask(s, Masked(m, Running(s).mask)), if r.guarded then ReadingUsed(r, saved) else ReadingCountdown(r, saved))
    case ReadingCountdown(r, saved) =>
      Goto(s, if s.countdown > 0 then WritingCountdown(r, saved, s.countdown) else ReadingUsed(r, saved))
    case WritingCountdown(r, saved, seen) =>
      var next := if seen > 0 then seen - 1 else 0;
      Goto(s.(countdown := next), if next == 0 then Halted(r) else ReadingUsed(r, saved))
    case ReadingUsed(r, saved) =>
      Goto(s, if Fits(m.base, s.used, r.n, r.guarded) then WritingUsed(r, saved, s.used) else Halted(r))
    case WritingUsed(r, saved, seen) =>
      var place := PlaceOf(m.base, seen, r);
      Goto(s.(used := place.hi, log := s.log + [Entry(s.current, r, place, false)]), ReadingCount(r, saved, |s.log|))
    case ReadingCount(r, saved, k) => Goto(s, WritingCount(r, saved, k, s.count))
    case WritingCount(r, saved, k, seen) => Goto(s.(count := (seen + 1) % WORD), Restoring(r, saved, k))
    case Restoring(r, saved, k) => Goto(WithMask(s, saved), if r.guarded then Installing(r, k) else Zeroing(r, k, 0))
    case Installing(r, k) =>
      if k < |s.log| then Goto(s.(guards := s.guards + {s.log[k].place.lo}), Zeroing(r, k, 0)) else s
    case Zeroing(r, k, i) =>
      if k >= |s.log| then s
      else if i < r.n then
        var at := s.log[k].place.start + i;
        Goto(s.(mem := if at < |s.mem| then s.mem[at := 0] else s.mem), Zeroing(r, k, i + 1))
      else Goto(s.(log := s.log[k := s.log[k].(returned := true)]), Outside)
    case Halted(r) => s
  }

  /** Byte `at` is in a region that some call has returned. */
  predicate HandedOut(s: State, k: nat, at: nat) {
    k < |s.log| && s.log[k].returned && s.log[k].place.start <= at < s.log[k].place.hi && at < |s.mem|
  }

  /** When a step is possible. */
  predicate Enabled(m: Machine, s: State, step: Step)
    requires WellFormed(s)
  {
    match step
    case Call(_, _) => Running(s).point.Outside? && Running(s).mask in m.callers
    case Advance => !Running(s).point.Outside?
    case Arm(_) => Running(s).point.Outside?
    case Write(k, at, _) => Running(s).point.Outside? && HandedOut(s, k, at)
    case SetMask(_) => Running(s).point.Outside?
    case Tick(to) => Running(s).mask.fiq && to < |s.tasks|
    case SerialIrq(to) => Running(s).mask.irq && to < |s.tasks|
  }

  function Apply(m: Machine, s: State, step: Step): (s': State)
    requires WellFormed(s) && Enabled(m, s, step)
    ensures WellFormed(s') && |s'.tasks| == |s.tasks|
  {
    match step
    case Call(n, guarded) => Goto(s, SavingCpsr(Request(n, guarded, Running(s).mask)))
    case Advance => Execute(m, s)
    case Arm(afterN) => s.(countdown := Armed(afterN))
    case Write(k, at, v) => s.(mem := s.mem[at := v])
    case SetMask(mask) => WithMask(s, mask)
    case Tick(to) => s.(current := to)
    case SerialIrq(to) => s.(current := to)
  }

  /** A machine that has just come up: no allocation yet, every task outside any call. The contents of
      the heap are arbitrary. */
  ghost predicate Initial(s: State) {
    && WellFormed(s) && s.used == 0 && s.count == 0 && s.guards == {} && s.log == []
    && forall t :: 0 <= t < |s.tasks| ==> s.tasks[t].point.Outside?
  }

  /** A run, for any choice of steps: a step that is not possible does nothing. */
  function Run(m: Machine, s: State, steps: seq<Step>): (s': State)
    requires WellFormed(s)
    ensures WellFormed(s') && |s'.tasks| == |s.tasks|
  {
    if steps == [] then s
    else
      var before := Run(m, s, steps[..|steps| - 1]);
      if Enabled(m, before, steps[|steps| - 1]) then Apply(m, before, steps[|steps| - 1]) else before
  }

  /** Between masking and restoring. */
  predicate Critical(p: Point) {
    p.ReadingCountdown? || p.WritingCountdown? || p.ReadingUsed? || p.WritingUsed? || p.ReadingCount? || p.WritingCount?
    || p.Restoring?
  }

  // ---------------------------------------------------------------- what holds in every run

  /** A call between its reservation and its return. */
  predicate Holds(s: State, t: nat, r: Request, k: nat) {
    k < |s.log| && s.log[k].owner == t && s.log[k].req == r && !s.log[k].returned
  }

  /** A call has saved the state it was made in, and masked it. */
  predicate HeldOff(m: Machine, r: Request, saved: Mask, mask: Mask) {
    saved == r.entered && saved in m.callers && mask == Masked(m, saved)
  }

  /** What is true of a task at each point of a call, wherever it is interrupted. */
  ghost predicate TaskOk(m: Machine, s: State, t: nat)
    requires t < |s.tasks|
  {
    var mask := s.tasks[t].mask;
    match s.tasks[t].point
    case Outside => true
    case SavingCpsr(r) => mask == r.entered && mask in m.callers
    case Masking(r, saved) => mask == saved == r.entered && mask in m.callers
    case ReadingCountdown(r, saved) => HeldOff(m, r, saved, mask) && !r.guarded
    case WritingCountdown(r, saved, seen) => HeldOff(m, r, saved, mask) && seen > 0
    case ReadingUsed(r, saved) => HeldOff(m, r, saved, mask)
    case WritingUsed(r, saved, seen) =>
      && HeldOff(m, r, saved, mask)
      && seen <= HEAP_BYTES && Fits(m.base, seen, r.n, r.guarded)
    case ReadingCount(r, saved, k) => HeldOff(m, r, saved, mask) && Holds(s, t, r, k)
    case WritingCount(r, saved, k, _) => HeldOff(m, r, saved, mask) && Holds(s, t, r, k)
    case Restoring(r, saved, k) => HeldOff(m, r, saved, mask) && Holds(s, t, r, k)
    case Installing(r, k) => mask == r.entered && Holds(s, t, r, k) && r.guarded
    case Zeroing(r, k, i) =>
      mask == r.entered && Holds(s, t, r, k) && i <= r.n && (r.guarded ==> s.log[k].place.lo in s.guards)
    case Halted(r) => HeldOff(m, r, r.entered, mask)
  }

  /** A reservation lies in the heap, and a guard page is aligned and directly below its stack. */
  ghost predicate Shaped(m: Machine, e: Entry) {
    && e.place.lo <= e.place.start && e.place.hi == e.place.start + e.req.n && e.place.hi <= HEAP_BYTES
    && (e.req.guarded ==> e.place.start == e.place.lo + PAGE && (m.base + e.place.lo) % PAGE == 0)
    && (!e.req.guarded ==> e.place.start == e.place.lo)
  }

  /** The guard pages are those of returned guarded calls, and of calls about to return. */
  ghost predicate GuardsOk(s: State) {
    && (forall g :: g in s.guards ==> exists k :: 0 <= k < |s.log| && s.log[k].req.guarded && s.log[k].place.lo == g)
    && (forall k :: 0 <= k < |s.log| && s.log[k].returned && s.log[k].req.guarded ==> s.log[k].place.lo in s.guards)
  }

  ghost predicate Inv(m: Machine, s: State) {
    && WellFormed(s) && s.used <= HEAP_BYTES && GuardsOk(s)
    && (forall t :: 0 <= t < |s.tasks| ==> TaskOk(m, s, t))
    && (forall k :: 0 <= k < |s.log| ==> Shaped(m, s.log[k]))
  }

  /** What a step of the running task must leave in place for the others. */
  ghost predicate KeepsOthers(s: State, s': State)
    requires WellFormed(s)
  {
    && |s'.tasks| == |s.tasks| && s'.current == s.current && s.guards <= s'.guards
    && (forall t :: 0 <= t < |s.tasks| && t != s.current ==> s'.tasks[t] == s.tasks[t])
    && |s.log| <= |s'.log|
    && (forall k :: 0 <= k < |s.log| && s.log[k].owner != s.current ==> s'.log[k] == s.log[k])
  }

  lemma AdvanceKeepsOthers(m: Machine, s: State)
    requires Inv(m, s) && Enabled(m, s, Advance)
    ensures KeepsOthers(s, Execute(m, s))
  {
    hide PlaceOf, Fits, GuardsOk, Shaped;
    assert TaskOk(m, s, s.current);
  }

  lemma OthersOk(m: Machine, s: State, s': State, t: nat)
    requires Inv(m, s) && KeepsOthers(s, s') && t < |s.tasks| && t != s.current
    ensures TaskOk(m, s', t)
  {
    hide Fits, GuardsOk, Shaped;
    assert TaskOk(m, s, t) && s'.tasks[t] == s.tasks[t];
  }

  lemma AdvanceKeepsOwn(m: Machine, s: State)
    requires Inv(m, s) && Enabled(m, s, Advance)
    ensures TaskOk(m, Execute(m, s), s.current)
  {
    hide PlaceOf, Fits, GuardsOk, Shaped;
    assert TaskOk(m, s, s.current);
    var p := Running(s).point;
    if !p.SavingCpsr? && !p.Masking? && !p.Restoring? {
      BookkeepingKeepsOwn(m, s);
    }
  }

  lemma BookkeepingKeepsOwn(m: Machine, s: State)
    requires Inv(m, s) && Enabled(m, s, Advance)
    requires var p := Running(s).point; !p.SavingCpsr? && !p.Masking? && !p.Restoring?
    ensures TaskOk(m, Execute(m, s), s.current)
  {
    hide PlaceOf, Fits, GuardsOk, Shaped, HeldOff;
    assert TaskOk(m, s, s.current);
    if Running(s).point.ReadingUsed? || Running(s).point.WritingCountdown? {
      HaltsMasked(m, Running(s).point.r, Running(s).point.saved, Running(s).mask);
    }
  }

  lemma HaltsMasked(m: Machine, r: Request, saved: Mask, mask: Mask)
    requires HeldOff(m, r, saved, mask)
    ensures HeldOff(m, r, r.entered, mask)
  {
  }

  /** A reservation that passed the test is in the heap. */
  lemma ReservationShaped(m: Machine, used: nat, r: Request, owner: nat)
    requires used <= HEAP_BYTES && Fits(m.base, used, r.n, r.guarded)
    ensures Shaped(m, Entry(owner, r, PlaceOf(m.base, used, r), false))
  {
    hide PlaceOf, Fits;
    RequestShape(m.base, used, r);
    FitsForPlace(m.base, used, r);
  }

  lemma FitsForPlace(base: HeapAddress, used: nat, r: Request)
    requires used <= HEAP_BYTES
    ensures Fits(base, used, r.n, r.guarded) <==> PlaceOf(base, used, r).hi <= HEAP_BYTES
  {
    hide PlaceFor, Fits;
    FitsForSizes(base, used, r.n, r.guarded);
  }

  lemma AdvanceKeepsLog(m: Machine, s: State)
    requires Inv(m, s) && Enabled(m, s, Advance)
    ensures var s' := Execute(m, s);
            s'.used <= HEAP_BYTES && forall k :: 0 <= k < |s'.log| ==> Shaped(m, s'.log[k])
  {
    hide PlaceOf, Fits, GuardsOk;
    assert TaskOk(m, s, s.current);
    var p := Running(s).point;
    if p.WritingUsed? {
      ReservationShaped(m, p.seen, p.r, s.current);
    }
  }

  lemma AdvanceKeepsGuards(m: Machine, s: State)
    requires Inv(m, s) && Enabled(m, s, Advance)
    ensures GuardsOk(Execute(m, s))
  {
    hide PlaceOf, Fits, Shaped;
    assert TaskOk(m, s, s.current);
    var s' := Execute(m, s);
    forall g | g in s'.guards ensures exists k :: 0 <= k < |s'.log| && s'.log[k].req.guarded && s'.log[k].place.lo == g {
      if g in s.guards {
        var k :| 0 <= k < |s.log| && s.log[k].req.guarded && s.log[k].place.lo == g;
        assert s'.log[k].req.guarded && s'.log[k].place.lo == g;
      } else {
        var k := Running(s).point.k;
        assert s'.log[k].req.guarded && s'.log[k].place.lo == g;
      }
    }
  }

  /** Every step of every task keeps this, tick or no tick. */
  lemma StepKeepsInv(m: Machine, s: State, step: Step)
    requires Inv(m, s) && Enabled(m, s, step)
    ensures Inv(m, Apply(m, s, step))
  {
    hide PlaceOf, Fits, GuardsOk, Execute, Shaped;
    var s' := Apply(m, s, step);
    if step.Advance? {
      AdvanceKeepsOthers(m, s);
      AdvanceKeepsLog(m, s);
      AdvanceKeepsGuards(m, s);
      forall t | 0 <= t < |s.tasks| ensures TaskOk(m, s', t) {
        if t == s.current {
          AdvanceKeepsOwn(m, s);
        } else {
          OthersOk(m, s, s', t);
        }
      }
    } else {
      forall t | 0 <= t < |s.tasks| ensures TaskOk(m, s', t) {
        assert TaskOk(m, s, t);
      }
      GuardsFromLog(s, s');
    }
  }

  lemma GuardsFromLog(s: State, s': State)
    requires GuardsOk(s) && s'.log == s.log && s'.guards == s.guards
    ensures GuardsOk(s')
  {
  }

  lemma {:induction false} RunKeepsInv(m: Machine, s: State, steps: seq<Step>)
    requires Initial(s)
    ensures Inv(m, Run(m, s, steps))
  {
    if steps != [] {
      hide Inv, Apply;
      var before := Run(m, s, steps[..|steps| - 1]);
      RunKeepsInv(m, s, steps[..|steps| - 1]);
      if Enabled(m, before, steps[|steps| - 1]) {
        StepKeepsInv(m, before, steps[|steps| - 1]);
      }
    }
  }

  /** In every run each reservation lies in the heap, each guard page is aligned and directly below its
      stack, every returned guarded stack has its guard page in place, and nothing else is inaccessible. */
  lemma RegionsInHeap(m: Machine, s: State, steps: seq<Step>)
    requires Initial(s)
    ensures var after := Run(m, s, steps);
            GuardsOk(after) && forall k :: 0 <= k < |after.log| ==> Shaped(m, after.log[k])
  {
    hide Run, GuardsOk, Shaped, TaskOk;
    RunKeepsInv(m, s, steps);
  }

  /** The step at which the call with reservation `k` returns. */
  ghost predicate Returns(m: Machine, before: State, step: Step, k: nat)
    requires WellFormed(before)
  {
    && Enabled(m, before, step) && k < |before.log| && !before.log[k].returned
    && k < |Apply(m, before, step).log| && Apply(m, before, step).log[k].returned
  }

  /** In every run a call returns to its caller, in the interrupt state it was entered with. */
  lemma MaskRestored(m: Machine, s: State, steps: seq<Step>, step: Step, k: nat)
    requires Initial(s) && Returns(m, Run(m, s, steps), step, k)
    ensures var before := Run(m, s, steps);
            var after := Apply(m, before, step);
            && before.log[k].owner == before.current && after.tasks[before.current].point.Outside?
            && after.tasks[before.current].mask == before.log[k].req.entered
  {
    hide Run, PlaceOf, Fits, GuardsOk, Shaped;
    var before := Run(m, s, steps);
    RunKeepsInv(m, s, steps);
    assert TaskOk(m, before, before.current);
  }

  /** In every run each byte that changes is in a region handed out to the tasks, or in the reservation
      of the call that is zeroing it. */
  lemma WritesStayInside(m: Machine, s: State, steps: seq<Step>, step: Step, x: nat)
    requires Initial(s) && Enabled(m, Run(m, s, steps), step) && x < HEAP_BYTES
    requires Apply(m, Run(m, s, steps), step).mem[x] != Run(m, s, steps).mem[x]
    ensures var before := Run(m, s, steps);
            exists k :: 0 <= k < |before.log| && before.log[k].place.start <= x < before.log[k].place.hi
                        && (if step.Write? then before.log[k].returned
                            else before.log[k].owner == before.current && !before.log[k].returned)
  {
    hide Run, PlaceOf, Fits, GuardsOk;
    var before := Run(m, s, steps);
    RunKeepsInv(m, s, steps);
    assert TaskOk(m, before, before.current);
    if step.Write? {
      assert before.log[step.k].returned;
    } else {
      var k := Running(before).point.k;
      assert Shaped(m, before.log[k]);
      assert before.log[k].owner == before.current;
    }
  }

  // ---------------------------------------------------------------- what holds when the tick is held off

  /** No tick can land between masking and restoring: there is no other task, or the allocator masks the
      FIQ, or no call is made with the FIQ let through. */
  ghost predicate Protected(m: Machine, tasks: nat) {
    tasks < 2 || m.masksFiq || forall mask :: mask in m.callers ==> !mask.fiq
  }

  /** The first `i` bytes of a reservation are zero. */
  ghost predicate ZeroedUpTo(s: State, k: nat, i: nat)
    requires k < |s.log|
  {
    forall x :: s.log[k].place.start <= x < s.log[k].place.start + i && x < |s.mem| ==> s.mem[x] == 0
  }

  /** The running task has reserved but not yet counted. */
  predicate Uncounted(s: State)
    requires WellFormed(s)
  {
    Running(s).point.ReadingCount? || Running(s).point.WritingCount?
  }

  /** The bookkeeping: the history is that of a sequential allocator, and the counter counts it. */
  ghost predicate BooksOk(m: Machine, s: State)
    requires WellFormed(s)
  {
    && Chained(m.base, s.log) && s.used == UsedBefore(s.log, |s.log|)
    && s.count == (if Uncounted(s) then |s.log| - 1 else |s.log|) % WORD
  }

  /** What a task has read is still so, and what it has zeroed is still zero. */
  ghost predicate Fresh(s: State, t: nat)
    requires t < |s.tasks|
  {
    match s.tasks[t].point
    case WritingCountdown(_, _, seen) => seen == s.countdown
    case WritingUsed(_, _, seen) => seen == s.used
    case WritingCount(_, _, _, seen) => seen == s.count
    case Zeroing(_, k, i) => k < |s.log| ==> ZeroedUpTo(s, k, i)
    case _ => true
  }

  ghost predicate Exclusive(m: Machine, s: State) {
    && Inv(m, s) && BooksOk(m, s)
    && (forall t :: 0 <= t < |s.tasks| ==> Fresh(s, t))
    && (forall t :: 0 <= t < |s.tasks| && t != s.current ==> !Critical(s.tasks[t].point))
  }

  /** Two reservations share no byte. */
  lemma NoSharedByte(m: Machine, s: State, j: nat, k: nat, x: nat)
    requires Exclusive(m, s) && j < |s.log| && k < |s.log| && j != k
    requires s.log[j].place.start <= x < s.log[j].place.hi
    ensures !(s.log[k].place.start <= x < s.log[k].place.hi)
  {
    hide PlaceOf, TaskOk, GuardsOk, Shaped, Fresh;
    AllocationsDisjoint(m.base, s.log, j, k);
    AllocationsDisjoint(m.base, s.log, k, j);
  }

  /** A zero loop that is not the running step's keeps what it has done. */
  lemma ZerosKept(m: Machine, s: State, s': State, k: nat, i: nat, at: nat, v: Byte, j: nat)
    requires Exclusive(m, s) && k < |s.log| && i <= s.log[k].req.n && ZeroedUpTo(s, k, i)
    requires |s.log| <= |s'.log| && s'.log[k].place == s.log[k].place
    requires at < |s.mem| && s'.mem == s.mem[at := v] && j < |s.log| && (j != k || v == 0)
    requires s.log[j].place.start <= at < s.log[j].place.hi
    ensures ZeroedUpTo(s', k, i)
  {
    hide PlaceOf, TaskOk, GuardsOk, Fresh, BooksOk;
    assert Shaped(m, s.log[k]);
    if j != k {
      NoSharedByte(m, s, j, k, at);
    }
  }

  lemma AdvanceStaysFresh(m: Machine, s: State, t: nat)
    requires Exclusive(m, s) && Enabled(m, s, Advance) && t < |s.tasks|
    ensures Fresh(Execute(m, s), t)
    ensures t != s.current ==> !Critical(Execute(m, s).tasks[t].point)
  {
    hide PlaceOf, Fits, GuardsOk, BooksOk, Shaped;
    var s' := Execute(m, s);
    assert TaskOk(m, s, s.current) && TaskOk(m, s, t) && Fresh(s, t);
    var p, q := Running(s).point, s'.tasks[t].point;
    if p.Zeroing? && p.i < p.r.n {
      ZeroStepStaysFresh(m, s, t);
    }
  }

  lemma ZeroStepStaysFresh(m: Machine, s: State, t: nat)
    requires Exclusive(m, s) && t < |s.tasks|
    requires Running(s).point.Zeroing? && Running(s).point.i < Running(s).point.r.n
    ensures Fresh(Execute(m, s), t)
  {
    hide PlaceOf, Fits, GuardsOk, BooksOk, ZeroedUpTo;
    var s' := Execute(m, s);
    assert TaskOk(m, s, s.current) && TaskOk(m, s, t) && Fresh(s, t);
    var p, q := Running(s).point, s.tasks[t].point;
    var at := s.log[p.k].place.start + p.i;
    assert Shaped(m, s.log[p.k]);
    if q.Zeroing? {
      ZerosKept(m, s, s', q.k, q.i, at, 0, p.k);
      if t == s.current {
        OneMoreZero(s', p.k, p.i, at);
      }
    }
  }

  lemma OneMoreZero(s: State, k: nat, i: nat, at: nat)
    requires k < |s.log| && at == s.log[k].place.start + i < |s.mem| && s.mem[at] == 0 && ZeroedUpTo(s, k, i)
    ensures ZeroedUpTo(s, k, i + 1)
  {
  }

  /** Returning an entry leaves the history a sequential one. */
  lemma ReturnKeepsChain(base: HeapAddress, log: seq<Entry>, k: nat)
    requires Chained(base, log) && k < |log|
    ensures var log' := log[k := log[k].(returned := true)];
            Chained(base, log') && UsedBefore(log', |log|) == UsedBefore(log, |log|)
  {
    hide PlaceOf;
    var log' := log[k := log[k].(returned := true)];
    forall j | 0 <= j <= |log| ensures UsedBefore(log', j) == UsedBefore(log, j) {
    }
  }

  lemma CountsUp(count: nat, n: nat)
    requires count == n % WORD
    ensures (count + 1) % WORD == (n + 1) % WORD
  {
  }

  lemma AdvanceKeepsBooks(m: Machine, s: State)
    requires Exclusive(m, s) && Enabled(m, s, Advance)
    ensures BooksOk(m, Execute(m, s))
  {
    hide PlaceOf, Fits, GuardsOk, ZeroedUpTo, Chained, UsedBefore, Shaped;
    assert TaskOk(m, s, s.current) && Fresh(s, s.current);
    var p := Running(s).point;
    if p.WritingUsed? {
      ChainedSnoc(m.base, s.log, Entry(s.current, p.r, PlaceOf(m.base, s.used, p.r), false));
    } else if p.WritingCount? {
      CountsUp(s.count, |s.log| - 1);
    } else if p.Zeroing? {
      ReturnKeepsChain(m.base, s.log, p.k);
    }
  }

  /** A switch never finds the running task between masking and restoring, unless there is no other. */
  lemma SwitchKeepsExclusive(m: Machine, s: State, step: Step)
    requires Exclusive(m, s) && Protected(m, |s.tasks|) && Enabled(m, s, step) && (step.Tick? || step.SerialIrq?)
    ensures Exclusive(m, Apply(m, s, step))
  {
    hide PlaceOf, Fits, Chained, Shaped, GuardsOk;
    assert TaskOk(m, s, s.current);
    var s' := Apply(m, s, step);
    GuardsFromLog(s, s');
    forall t | 0 <= t < |s'.tasks| ensures TaskOk(m, s', t) && Fresh(s', t) {
      assert TaskOk(m, s, t) && Fresh(s, t);
    }
  }

  /** A step of a task outside any call. */
  lemma QuietKeepsExclusive(m: Machine, s: State, step: Step)
    requires Exclusive(m, s) && Enabled(m, s, step) && !step.Advance? && !step.Tick? && !step.SerialIrq?
    ensures Exclusive(m, Apply(m, s, step))
  {
    hide PlaceOf, Fits, Chained, Shaped, GuardsOk, ZeroedUpTo, TaskOk;
    var s' := Apply(m, s, step);
    StepKeepsInv(m, s, step);
    forall t | 0 <= t < |s'.tasks| ensures Fresh(s', t) {
      QuietStaysFresh(m, s, step, t);
    }
  }

  lemma QuietStaysFresh(m: Machine, s: State, step: Step, t: nat)
    requires Exclusive(m, s) && Enabled(m, s, step) && !step.Advance? && !step.Tick? && !step.SerialIrq? && t < |s.tasks|
    ensures Fresh(Apply(m, s, step), t)
  {
    hide PlaceOf, Fits, GuardsOk, BooksOk;
    var s' := Apply(m, s, step);
    assert TaskOk(m, s, t) && Fresh(s, t);
    var q := s.tasks[t].point;
    if step.Write? && q.Zeroing? {
      assert q.k != step.k;
      ZerosKept(m, s, s', q.k, q.i, step.at, step.v, step.k);
    }
  }

  lemma StepKeepsExclusive(m: Machine, s: State, step: Step)
    requires Exclusive(m, s) && Protected(m, |s.tasks|) && Enabled(m, s, step)
    ensures Exclusive(m, Apply(m, s, step))
  {
    if step.Tick? || step.SerialIrq? {
      hide Exclusive;
      SwitchKeepsExclusive(m, s, step);
    } else if step.Advance? {
      hide BooksOk, Inv, Execute, Fresh;
      StepKeepsInv(m, s, step);
      AdvanceKeepsBooks(m, s);
      forall t | 0 <= t < |s.tasks|
        ensures Fresh(Execute(m, s), t) && (t != s.current ==> !Critical(Execute(m, s).tasks[t].point))
      {
        AdvanceStaysFresh(m, s, t);
      }
    } else {
      hide Exclusive;
      QuietKeepsExclusive(m, s, step);
    }
  }

  lemma {:induction false} RunKeepsExclusive(m: Machine, s: State, steps: seq<Step>)
    requires Initial(s) && Protected(m, |s.tasks|)
    ensures Exclusive(m, Run(m, s, steps))
  {
    if steps != [] {
      hide Exclusive, Apply;
      var before := Run(m, s, steps[..|steps| - 1]);
      RunKeepsExclusive(m, s, steps[..|steps| - 1]);
      if Enabled(m, before, steps[|steps| - 1]) {
        StepKeepsExclusive(m, before, steps[|steps| - 1]);
      }
    }
  }

  /** Everything that was allocated is disjoint, guard pages included; the history is the one a sequential
      allocator produces in the order of the reservations; and no byte that was handed out lies on a
      guard page. */
  lemma RegionsDisjoint(m: Machine, s: State, steps: seq<Step>, i: nat, j: nat)
    requires Initial(s) && Protected(m, |s.tasks|)
    requires i < |Run(m, s, steps).log| && j < |Run(m, s, steps).log|
    ensures var log := Run(m, s, steps).log;
            && Chained(m.base, log)
            && (i != j ==> Apart(log[i].place, log[j].place))
            && (log[j].req.guarded ==>
                  log[j].place.start <= log[i].place.start || log[i].place.hi <= log[j].place.lo)
  {
    hide Run, Chained, GuardsOk, TaskOk, Fresh, Shaped, Protected;
    RunKeepsExclusive(m, s, steps);
    AllocationsDisjoint(m.base, Run(m, s, steps).log, i, j);
  }

  /** At the moment a call returns, its region is all zero. */
  lemma ReturnsZeroed(m: Machine, s: State, steps: seq<Step>, step: Step, k: nat)
    requires Initial(s) && Protected(m, |s.tasks|) && Returns(m, Run(m, s, steps), step, k)
    ensures var before := Run(m, s, steps);
            forall x :: before.log[k].place.start <= x < before.log[k].place.hi
                        ==> x < HEAP_BYTES && Apply(m, before, step).mem[x] == 0
  {
    hide Run, PlaceOf, Fits, BooksOk, GuardsOk, Protected;
    var before := Run(m, s, steps);
    RunKeepsExclusive(m, s, steps);
    assert TaskOk(m, before, before.current) && Fresh(before, before.current) && Shaped(m, before.log[k]);
  }

  /** No update of the bump pointer or the counter is lost. */
  lemma CountIsExact(m: Machine, s: State, steps: seq<Step>)
    requires Initial(s) && Protected(m, |s.tasks|)
    ensures var after := Run(m, s, steps);
            && after.used == UsedBefore(after.log, |after.log|)
            && (!Critical(Running(after).point) ==> after.count == |after.log| % WORD)
  {
    hide Run, Chained, GuardsOk, TaskOk, Fresh, Protected;
    RunKeepsExclusive(m, s, steps);
  }
}

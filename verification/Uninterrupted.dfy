/** An allocation call that no interrupt breaks into: it does exactly what the sequential allocator does. */
module Uninterrupted {
  import opened Crc32
  import opened Heap
  import opened Preemption

  /** `n` steps of the running task, with no switch in between. */
  function Solo(m: Machine, s: State, n: nat): (s': State)
    requires WellFormed(s)
    ensures WellFormed(s')
    decreases n
  {
    if n == 0 then s else Solo(m, Execute(m, s), n - 1)
  }

  lemma {:induction false} SoloAdds(m: Machine, s: State, a: nat, b: nat)
    requires WellFormed(s)
    ensures Solo(m, s, a + b) == Solo(m, Solo(m, s, a), b)
    decreases a
  {
    hide Execute;
    if a > 0 {
      SoloAdds(m, Execute(m, s), a - 1, b);
    }
  }

  lemma SoloOne(m: Machine, s: State)
    requires WellFormed(s)
    ensures Solo(m, s, 1) == Execute(m, s)
  {
    hide Execute;
    assert Solo(m, s, 1) == Solo(m, Execute(m, s), 0);
  }

  lemma SoloTwo(m: Machine, s: State)
    requires WellFormed(s)
    ensures Solo(m, s, 2) == Execute(m, Execute(m, s))
  {
    hide Execute;
    assert Solo(m, s, 2) == Solo(m, Execute(m, s), 1);
    SoloOne(m, Execute(m, s));
  }

  function Zeroed(mem: seq<Byte>, lo: nat, hi: nat): (z: seq<Byte>)
    ensures |z| == |mem|
  {
    seq(|mem|, x requires 0 <= x < |mem| => if lo <= x < hi then 0 else mem[x])
  }

  /** The zero loop, to its end. */
  lemma {:induction false} ZeroLoopEnds(m: Machine, s: State) returns (n: nat)
    requires WellFormed(s) && Running(s).point.Zeroing?
    requires var p := Running(s).point;
             p.k < |s.log| && p.i <= p.r.n && s.log[p.k].place.start + p.r.n <= HEAP_BYTES
    ensures var p := Running(s).point;
            var e := s.log[p.k];
            Solo(m, s, n) == Goto(s.(mem := Zeroed(s.mem, e.place.start + p.i, e.place.start + p.r.n),
                                     log := s.log[p.k := e.(returned := true)]), Outside)
    decreases Running(s).point.r.n - Running(s).point.i
  {
    var p := Running(s).point;
    var at, hi := s.log[p.k].place.start + p.i, s.log[p.k].place.start + p.r.n;
    var next := Execute(m, s);
    if p.i < p.r.n {
      var n' := ZeroLoopEnds(m, next);
      n := n' + 1;
      assert Zeroed(s.mem[at := 0], at + 1, hi) == Zeroed(s.mem, at, hi);
    } else {
      n := 1;
      SoloOne(m, s);
      assert Zeroed(s.mem, at, hi) == s.mem;
    }
  }

  /** The countdown after a call that did not inject a fault. */
  function CountedDown(s: State, r: Request): nat {
    if !r.guarded && s.countdown > 0 then s.countdown - 1 else s.countdown
  }

  /** Everything a finished call has done to the state. */
  function AfterCall(m: Machine, s: State, r: Request): State
    requires WellFormed(s)
  {
    var place := PlaceOf(m.base, s.used, r);
    s.(used := place.hi, count := (s.count + 1) % WORD,
       countdown := CountedDown(s, r),
       mem := Zeroed(s.mem, place.start, place.hi),
       guards := if r.guarded then s.guards + {place.lo} else s.guards,
       log := s.log + [Entry(s.current, r, place, true)])
  }

  /** From the read of the bump pointer to the entry in the history. */
  lemma ReservesPlace(m: Machine, s: State)
    requires WellFormed(s) && Running(s).point.ReadingUsed?
    requires Fits(m.base, s.used, Running(s).point.r.n, Running(s).point.r.guarded)
    ensures var p := Running(s).point;
            var place := PlaceOf(m.base, s.used, p.r);
            Solo(m, s, 2) == Goto(s.(used := place.hi, log := s.log + [Entry(s.current, p.r, place, false)]),
                                  ReadingCount(p.r, p.saved, |s.log|))
  {
    hide PlaceOf, Fits;
    SoloTwo(m, s);
  }

  lemma Counts(m: Machine, s: State)
    requires WellFormed(s) && Running(s).point.ReadingCount?
    ensures var p := Running(s).point;
            Solo(m, s, 2) == Goto(s.(count := (s.count + 1) % WORD), Restoring(p.r, p.saved, p.k))
  {
    SoloTwo(m, s);
  }

  function AddGuard(s: State, r: Request, k: nat): State
    requires k < |s.log|
  {
    s.(guards := if r.guarded then s.guards + {s.log[k].place.lo} else s.guards)
  }

  /** From the restored interrupt state to the zero loop. */
  lemma Restores(m: Machine, s: State) returns (n: nat)
    requires WellFormed(s) && Running(s).point.Restoring? && Running(s).point.k < |s.log|
    ensures var p := Running(s).point;
            Solo(m, s, n) == Goto(WithMask(AddGuard(s, p.r, p.k), p.saved), Zeroing(p.r, p.k, 0))
  {
    if Running(s).point.r.guarded {
      n := 2;
      SoloTwo(m, s);
    } else {
      n := 1;
      SoloOne(m, s);
    }
  }

  /** From the call to the read of the bump pointer, past the countdown. */
  lemma Masks(m: Machine, s: State) returns (n: nat)
    requires WellFormed(s) && Running(s).point.SavingCpsr?
    ensures var r := Running(s).point.r;
            var masked := WithMask(s, Masked(m, Running(s).mask));
            Solo(m, s, n) == if !r.guarded && s.countdown == 1 then Goto(masked.(countdown := 0), Halted(r))
                             else Goto(masked.(countdown := CountedDown(s, r)), ReadingUsed(r, Running(s).mask))
  {
    hide Masked;
    var s2 := Execute(m, Execute(m, s));
    SoloTwo(m, s);
    if Running(s).point.r.guarded {
      n := 2;
    } else if s.countdown == 0 {
      n := 3;
      SoloAdds(m, s, 2, 1);
      SoloOne(m, s2);
    } else {
      n := 4;
      SoloAdds(m, s, 2, 2);
      SoloTwo(m, s2);
    }
  }

  /** The task has halted, and the call has changed nothing but the countdown. */
  ghost predicate HasHalted(m: Machine, s: State, t: State, r: Request)
    requires WellFormed(s)
  {
    exists countdown :: t == Goto(WithMask(s.(countdown := countdown), Masked(m, r.entered)), Halted(r))
  }

  /** A call that is not interrupted ends, and has done exactly what the sequential allocator does:
      the task halts, with nothing handed out, or the call returns with its place reserved, zeroed,
      guarded and counted, and with everything else as it was. */
  lemma SoloCall(m: Machine, s: State, n: Size, guarded: bool) returns (steps: nat)
    requires WellFormed(s) && s.used <= HEAP_BYTES && Enabled(m, s, Call(n, guarded))
    ensures var r := Request(n, guarded, Running(s).mask);
            var t := Solo(m, Apply(m, s, Call(n, guarded)), steps);
            if (!guarded && s.countdown == 1) || PlaceOf(m.base, s.used, r).hi > HEAP_BYTES
            then HasHalted(m, s, t, r)
            else t == AfterCall(m, s, r)
  {
    hide Execute, PlaceOf, Fits, Masked;
    var r := Request(n, guarded, Running(s).mask);
    var s0 := Apply(m, s, Call(n, guarded));
    steps := Masks(m, s0);
    FitsForPlace(m.base, s.used, r);
    if !guarded && s.countdown == 1 {
      assert Solo(m, s0, steps) == Goto(WithMask(s.(countdown := 0), Masked(m, r.entered)), Halted(r));
    } else {
      var s1 := Solo(m, s0, steps);
      if Fits(m.base, s.used, n, guarded) {
        var more := Completes(m, s1);
        SoloAdds(m, s0, steps, more);
        steps := steps + more;
        AfterCallReached(m, s, s1, r);
      } else {
        SoloAdds(m, s0, steps, 1);
        SoloOne(m, s1);
        steps := steps + 1;
        HaltsFull(m, s1);
        assert Execute(m, s1) == Goto(WithMask(s.(countdown := CountedDown(s, r)), Masked(m, r.entered)), Halted(r));
      }
    }
  }

  lemma HaltsFull(m: Machine, s: State)
    requires WellFormed(s) && Running(s).point.ReadingUsed?
    requires !Fits(m.base, s.used, Running(s).point.r.n, Running(s).point.r.guarded)
    ensures Execute(m, s) == Goto(s, Halted(Running(s).point.r))
  {
    hide Fits, PlaceOf;
  }

  /** A request that fits, from the read of the bump pointer to the return. */
  function Completed(m: Machine, s: State, r: Request, saved: Mask): State
    requires WellFormed(s)
  {
    Goto(WithMask(AfterCall(m, s, r).(countdown := s.countdown), saved), Outside)
  }

  lemma Completes(m: Machine, s: State) returns (n: nat)
    requires WellFormed(s) && Running(s).point.ReadingUsed?
    requires PlaceOf(m.base, s.used, Running(s).point.r).hi <= HEAP_BYTES
    requires Fits(m.base, s.used, Running(s).point.r.n, Running(s).point.r.guarded)
    ensures Solo(m, s, n) == Completed(m, s, Running(s).point.r, Running(s).point.saved)
  {
    hide Execute, PlaceOf, Fits;
    var p := Running(s).point;
    var place := PlaceOf(m.base, s.used, p.r);
    RequestShape(m.base, s.used, p.r);
    ReservesPlace(m, s);
    var s1 := Solo(m, s, 2);
    Counts(m, s1);
    var s2 := Solo(m, s1, 2);
    var n1 := Restores(m, s2);
    var s3 := Solo(m, s2, n1);
    var n2 := ZeroLoopEnds(m, s3);
    SoloAdds(m, s, 2, 2);
    SoloAdds(m, s, 4, n1);
    SoloAdds(m, s, 4 + n1, n2);
    n := 4 + n1 + n2;
    assert s3.log[|s.log| := s3.log[|s.log|].(returned := true)] == s.log + [Entry(s.current, p.r, place, true)];
  }

  lemma AfterCallReached(m: Machine, s: State, s1: State, r: Request)
    requires WellFormed(s) && Running(s).point.Outside? && r.entered == Running(s).mask
    requires s1 == Goto(WithMask(Goto(s, SavingCpsr(r)), Masked(m, r.entered)).(countdown := CountedDown(s, r)),
                        ReadingUsed(r, r.entered))
    ensures Completed(m, s1, r, r.entered) == AfterCall(m, s, r)
  {
    hide PlaceOf, Masked;
    assert Completed(m, s1, r, r.entered).tasks == s.tasks;
  }
}

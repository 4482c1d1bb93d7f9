/** What one boot does to the slot-state record: attempt counter, boot limit, fallback, reset reason. */
module BootPolicy {
  import opened LittleEndian
  import opened SlotRecord

  const DEFAULT_BOOTLIMIT: U32 := 3
  const U32_MAX: U32 := 0xFFFF_FFFF

  const REASON_POWER_ON: bv8 := 0
  const REASON_CLEAN_REBOOT: bv8 := 1
  const REASON_WATCHDOG_OR_HANG: bv8 := 2
  const REASON_AUTO_FALLBACK: bv8 := 3

  function Increment(x: U32): U32 {
    (x + 1) % 0x1_0000_0000
  }

  /** The limit in force; 0 stands for the default. */
  function BootLimit(s: SlotState): U32 {
    if s.bootlimit != 0 then s.bootlimit else DEFAULT_BOOTLIMIT
  }

  /** Slot A is active; every other value of the field means slot B. */
  predicate OnA(s: SlotState) {
    s.activeSlot == 0
  }

  predicate OtherReady(s: SlotState) {
    if OnA(s) then s.slotBReady != 0 else s.slotAReady != 0
  }

  predicate FallsBack(s: SlotState) {
    Increment(s.attemptCount) > BootLimit(s) && OtherReady(s)
  }

  /** The record a boot writes back. */
  function NextState(s: SlotState): SlotState {
    var fellBack := FallsBack(s);
    s.(attemptCount := if fellBack then 0 else Increment(s.attemptCount),
       activeSlot := if fellBack then (if OnA(s) then 1 else 0) else s.activeSlot,
       lastResetReason :=
         if fellBack then REASON_AUTO_FALLBACK
         else if s.lastResetReason == REASON_CLEAN_REBOOT then REASON_CLEAN_REBOOT
         else if s.attemptCount > 0 then REASON_WATCHDOG_OR_HANG
         else REASON_POWER_ON,
       generation := Increment(s.generation))
  }

  /** The record after `k` boots with no success mark in between. */
  function After(s: SlotState, k: nat): SlotState {
    if k == 0 then s else NextState(After(s, k - 1))
  }

  /** Everything a boot never touches. */
  predicate SameContents(s: SlotState, t: SlotState) {
    && s.bootlimit == t.bootlimit && s.preferredSlot == t.preferredSlot
    && s.slotAReady == t.slotAReady && s.slotBReady == t.slotBReady
    && s.slotALen == t.slotALen && s.slotBLen == t.slotBLen
    && s.slotASha256 == t.slotASha256 && s.slotBSha256 == t.slotBSha256
  }

  lemma {:induction false} ContentsKept(s: SlotState, k: nat)
    ensures SameContents(After(s, k), s)
  {
    if k > 0 {
      ContentsKept(s, k - 1);
    }
  }

  lemma {:induction false} GenerationAfter(s: SlotState, k: nat)
    ensures After(s, k).generation == (s.generation + k) % 0x1_0000_0000
  {
    if k > 0 {
      GenerationAfter(s, k - 1);
      WrappedIncrement(s.generation + k - 1);
    }
  }

  lemma WrappedIncrement(x: nat)
    ensures (x % 0x1_0000_0000 + 1) % 0x1_0000_0000 == (x + 1) % 0x1_0000_0000
  {
  }

  lemma {:induction false} AfterAdds(s: SlotState, j: nat, k: nat)
    ensures After(s, j + k) == After(After(s, j), k)
  {
    if k > 0 {
      AfterAdds(s, j, k - 1);
    }
  }

  predicate BothReady(s: SlotState) {
    s.slotAReady != 0 && s.slotBReady != 0
  }

  /** One failed boot, with both slots ready and the counter within the limit. */
  lemma FailedBoot(t: SlotState)
    requires BothReady(t) && t.attemptCount <= BootLimit(t) < U32_MAX
    ensures NextState(t).attemptCount == (if t.attemptCount == BootLimit(t) then 0 else t.attemptCount + 1)
    ensures OnA(NextState(t)) == OnA(t) <==> t.attemptCount != BootLimit(t)
  {
  }

  lemma OneMoreRound(period: int, q: nat)
    ensures period * (q + 1) == period * q + period
    ensures (q + 1) % 2 == 0 <==> q % 2 != 0
  {
  }

  /** How many of the first `k` boots changed the active slot. */
  function SlotChanges(s: SlotState, k: nat): nat {
    if k == 0 then 0
    else SlotChanges(s, k - 1) + (if OnA(After(s, k)) != OnA(After(s, k - 1)) then 1 else 0)
  }

  /** `q` full rounds of the counter, each ending in a change of slots, and `r` more boots. */
  lemma {:induction false} Rounds(s: SlotState, k: nat) returns (q: nat, r: nat)
    requires BothReady(s) && s.attemptCount <= BootLimit(s) < U32_MAX
    ensures s.attemptCount + k == (BootLimit(s) + 1) * q + r && r == After(s, k).attemptCount <= BootLimit(s)
    ensures q == SlotChanges(s, k) && (OnA(After(s, k)) == OnA(s) <==> q % 2 == 0)
  {
    hide NextState;
    if k == 0 {
      q, r := 0, s.attemptCount;
    } else {
      q, r := Rounds(s, k - 1);
      ContentsKept(s, k - 1);
      FailedBoot(After(s, k - 1));
      if r == BootLimit(s) {
        OneMoreRound(BootLimit(s) + 1, q);
        q, r := q + 1, 0;
      } else {
        r := r + 1;
      }
    }
  }

  /** Boots without a success mark: with both slots ready, the counter runs modulo the limit plus one
      and the active slot changes once every full round. */
  lemma FailedBoots(s: SlotState, k: nat)
    requires BothReady(s) && s.attemptCount <= BootLimit(s) < U32_MAX
    ensures var t, n, period := After(s, k), s.attemptCount + k, BootLimit(s) + 1;
            && t.attemptCount == n % period && SlotChanges(s, k) == n / period
            && (OnA(t) == OnA(s) <==> n / period % 2 == 0)
  {
    hide NextState, After, SlotChanges;
    var q, r := Rounds(s, k);
    Quotient(s.attemptCount + k, BootLimit(s) + 1, q, r);
  }

  lemma Quotient(n: int, d: int, q: int, r: int)
    requires d > 0 && n == d * q + r && 0 <= r < d
    ensures n / d == q && n % d == r
  {
    var q', r' := n / d, n % d;
    assert n == d * q' + r';
    assert d * (q - q') == r' - r;
    if q > q' { Multiple(d, q - q'); }
    if q < q' { Multiple(d, q' - q); }
  }

  lemma Multiple(d: int, k: int)
    requires d > 0 && k >= 1
    ensures d * k >= d
  {
    assert d * (k - 1) >= 0;
  }

  /** A counter that starts beyond the limit: the first boot already falls back, unless the counter wraps. */
  lemma BeyondLimit(s: SlotState)
    requires BothReady(s) && s.attemptCount > BootLimit(s)
    ensures NextState(s).attemptCount == 0
    ensures OnA(NextState(s)) == OnA(s) <==> s.attemptCount == U32_MAX
  {
  }

  /** The largest limit is never exceeded: the counter wraps first, and no run of boots changes slots. */
  lemma {:induction false} LargestLimitNeverFalls(s: SlotState, k: nat)
    requires BootLimit(s) == U32_MAX
    ensures After(s, k).activeSlot == s.activeSlot
  {
    if k > 0 {
      LargestLimitNeverFalls(s, k - 1);
      ContentsKept(s, k - 1);
    }
  }

  lemma {:induction false} NotReadyKeepsSlot(s: SlotState, k: nat)
    requires !OtherReady(s)
    ensures After(s, k).activeSlot == s.activeSlot
  {
    if k > 0 {
      NotReadyKeepsSlot(s, k - 1);
      ContentsKept(s, k - 1);
    }
  }

  /** The other slot is reached, sooner or later, exactly when it is ready and the limit can be exceeded. */
  lemma FallbackReached(s: SlotState)
    ensures (exists k: nat :: OnA(After(s, k)) != OnA(s)) <==> OtherReady(s) && BootLimit(s) < U32_MAX
  {
    if OtherReady(s) && BootLimit(s) < U32_MAX {
      var k := ReachFallback(s);
      assert OnA(After(s, k)) != OnA(s);
    } else {
      forall k: nat ensures OnA(After(s, k)) == OnA(s) {
        if OtherReady(s) {
          LargestLimitNeverFalls(s, k);
        } else {
          NotReadyKeepsSlot(s, k);
        }
      }
    }
  }

  /** The first boot that falls back: count up to the limit, from the wrapped counter if it starts beyond. */
  lemma ReachFallback(s: SlotState) returns (k: nat)
    requires OtherReady(s) && BootLimit(s) < U32_MAX
    ensures k > 0 && OnA(After(s, k)) != OnA(s)
  {
    if Increment(s.attemptCount) > BootLimit(s) {
      k := 1;
      assert After(s, 1) == NextState(After(s, 0));
    } else if s.attemptCount == U32_MAX {
      var t := NextState(s);
      var j := CountUp(t, BootLimit(t) + 1);
      k := 1 + j;
      AfterAdds(s, 1, j);
      assert After(s, 1) == NextState(After(s, 0));
    } else {
      k := CountUp(s, BootLimit(s) + 1 - s.attemptCount);
    }
  }

  lemma {:induction false} CountUp(s: SlotState, boots: nat) returns (k: nat)
    requires OtherReady(s) && BootLimit(s) < U32_MAX
    requires s.attemptCount <= BootLimit(s) && boots == BootLimit(s) + 1 - s.attemptCount
    ensures k > 0 && OnA(After(s, k)) != OnA(s)
    decreases boots
  {
    var t := NextState(s);
    if FallsBack(s) {
      k := 1;
      assert After(s, 1) == NextState(After(s, 0));
    } else {
      var j := CountUp(t, boots - 1);
      k := 1 + j;
      AfterAdds(s, 1, j);
      assert After(s, 1) == NextState(After(s, 0));
    }
  }

  /** A clean reboot is reported by every later boot, and not once only: the reason stays until a
      fallback replaces it, and after that it does not come back. */
  lemma {:induction false} CleanRebootStays(s: SlotState, k: nat)
    requires s.lastResetReason == REASON_CLEAN_REBOOT
    ensures After(s, k).lastResetReason == REASON_CLEAN_REBOOT <==> forall j: nat :: j < k ==> !FallsBack(After(s, j))
  {
    if k > 0 {
      CleanRebootStays(s, k - 1);
      assert After(s, k) == NextState(After(s, k - 1));
    }
  }

  /** The reasons reported while no boot succeeds: power-on for the first boot in a slot, a hang for
      the others, and a fallback for the one that changes slots. */
  lemma {:induction false} FailedBootReasons(s: SlotState, k: nat)
    requires BothReady(s) && s.attemptCount <= BootLimit(s) < U32_MAX
    requires s.lastResetReason != REASON_CLEAN_REBOOT
    ensures k > 0 ==> After(s, k).lastResetReason ==
                      (if (s.attemptCount + k) % (BootLimit(s) + 1) == 0 then REASON_AUTO_FALLBACK
                       else if (s.attemptCount + k) % (BootLimit(s) + 1) == 1 then REASON_POWER_ON
                       else REASON_WATCHDOG_OR_HANG)
    ensures After(s, k).lastResetReason != REASON_CLEAN_REBOOT
  {
    if k > 0 {
      var t, limit := After(s, k - 1), BootLimit(s);
      FailedBootReasons(s, k - 1);
      FailedBoots(s, k - 1);
      FailedBoots(s, k);
      ContentsKept(s, k - 1);
      FailedBoot(t);
      assert After(s, k).attemptCount == (s.attemptCount + k) % (limit + 1);
    }
  }

  // ---------------------------------------------------------------- boots that succeed

  /** What happens to the record over time: a boot, or the running system marking its boot as good. */
  datatype Event = Boot | MarkGood

  function Step(s: SlotState, e: Event): SlotState {
    match e
    case Boot => NextState(s)
    case MarkGood => s.(attemptCount := 0)
  }

  function Play(s: SlotState, es: seq<Event>): SlotState {
    if es == [] then s else Step(Play(s, es[..|es| - 1]), es[|es| - 1])
  }

  /** The boots since the last success mark. */
  function SinceMark(es: seq<Event>): nat {
    if es == [] || es[|es| - 1].MarkGood? then 0 else SinceMark(es[..|es| - 1]) + 1
  }

  /** A slot that is not ready is never selected, whatever boots and success marks there are. */
  lemma {:induction false} NotReadyNeverSelected(s: SlotState, es: seq<Event>)
    requires !OtherReady(s)
    ensures Play(s, es).activeSlot == s.activeSlot && SameContents(Play(s, es), s)
  {
    if es != [] {
      NotReadyNeverSelected(s, es[..|es| - 1]);
    }
  }

  lemma BootWithinLimit(t: SlotState)
    requires t.attemptCount < BootLimit(t)
    ensures var n := NextState(t);
            n.attemptCount == t.attemptCount + 1 && n.activeSlot == t.activeSlot && SameContents(n, t)
  {
  }

  lemma BootBeyondLimit(t: SlotState)
    requires t.attemptCount == BootLimit(t) < U32_MAX && OtherReady(t)
    ensures OnA(NextState(t)) != OnA(t)
  {
  }

  /** While no more boots than the limit go without a success mark, the slot is kept, and the counter
      counts them. */
  lemma {:induction false} HealthyKeepsSlot(s: SlotState, es: seq<Event>)
    requires s.attemptCount == 0
    requires forall k :: 0 <= k <= |es| ==> SinceMark(es[..k]) <= BootLimit(s)
    ensures var t := Play(s, es);
            t.activeSlot == s.activeSlot && t.attemptCount == SinceMark(es) && SameContents(t, s)
  {
    hide NextState;
    if es != [] {
      var n := |es| - 1;
      var before := es[..n];
      forall k | 0 <= k <= n ensures SinceMark(before[..k]) <= BootLimit(s) {
        assert before[..k] == es[..k];
      }
      HealthyKeepsSlot(s, before);
      assert es[..n + 1] == es;
      if es[n].Boot? {
        BootWithinLimit(Play(s, before));
      }
    }
  }

  /** A slot is left, sooner or later, if and only if some stretch of more boots than the limit has no
      success mark. */
  lemma LeftExactly(s: SlotState, es: seq<Event>)
    requires s.attemptCount == 0 && OtherReady(s) && BootLimit(s) < U32_MAX
    ensures (exists k :: 0 <= k <= |es| && OnA(Play(s, es[..k])) != OnA(s))
            <==> (exists k :: 0 <= k <= |es| && SinceMark(es[..k]) > BootLimit(s))
  {
    if m :| 0 <= m <= |es| && SinceMark(es[..m]) > BootLimit(s) {
      var k := LeavesSlot(s, es, m);
      assert OnA(Play(s, es[..k])) != OnA(s);
    } else {
      forall k | 0 <= k <= |es| ensures OnA(Play(s, es[..k])) == OnA(s) {
        forall j | 0 <= j <= k ensures SinceMark(es[..k][..j]) <= BootLimit(s) {
          assert es[..k][..j] == es[..j];
        }
        HealthyKeepsSlot(s, es[..k]);
      }
    }
  }

  /** The first stretch that is too long ends in another slot. */
  lemma {:induction false} LeavesSlot(s: SlotState, es: seq<Event>, m: nat) returns (k: nat)
    requires s.attemptCount == 0 && OtherReady(s) && BootLimit(s) < U32_MAX
    requires m <= |es| && SinceMark(es[..m]) > BootLimit(s)
    ensures k <= m && OnA(Play(s, es[..k])) != OnA(s)
    decreases m
  {
    hide NextState;
    if j :| 0 <= j < m && SinceMark(es[..j]) > BootLimit(s) {
      k := LeavesSlot(s, es, j);
    } else {
      k := m;
      var before := es[..m - 1];
      assert es[..m][..m - 1] == before;
      forall j | 0 <= j <= |before| ensures SinceMark(before[..j]) <= BootLimit(s) {
        assert before[..j] == es[..j];
      }
      HealthyKeepsSlot(s, before);
      BootBeyondLimit(Play(s, before));
    }
  }

  // ---------------------------------------------------------------- every record, every run

  /** The boots counted so far: from the record's own count on, those since the last success mark or
      change of slots. */
  function Unbroken(s: SlotState, es: seq<Event>): nat {
    if es == [] then s.attemptCount
    else
      var before := es[..|es| - 1];
      if es[|es| - 1].MarkGood? || OnA(Play(s, es)) != OnA(Play(s, before)) then 0 else Unbroken(s, before) + 1
  }

  /** The slot has been the same all along. */
  ghost predicate SlotKept(s: SlotState, es: seq<Event>) {
    forall k :: 0 <= k <= |es| ==> OnA(Play(s, es[..k])) == OnA(s)
  }

  /** One more event of a run. */
  lemma PlaySnoc(s: SlotState, es: seq<Event>, e: Event)
    ensures Play(s, es + [e]) == Step(Play(s, es), e)
    ensures Unbroken(s, es + [e]) ==
            if e.MarkGood? || OnA(Play(s, es + [e])) != OnA(Play(s, es)) then 0 else Unbroken(s, es) + 1
    ensures SlotKept(s, es + [e]) <==> SlotKept(s, es) && OnA(Play(s, es + [e])) == OnA(s)
  {
    hide NextState, OnA;
    assert (es + [e])[..|es|] == es;
    assert (es + [e])[..|es| + 1] == es + [e];
    forall k | 0 <= k <= |es| ensures (es + [e])[..k] == es[..k] {
    }
    if SlotKept(s, es + [e]) {
      forall k | 0 <= k <= |es| ensures OnA(Play(s, es[..k])) == OnA(s) {
        assert OnA(Play(s, (es + [e])[..k])) == OnA(s);
      }
      assert OnA(Play(s, (es + [e])[..|es| + 1])) == OnA(s);
    }
    if SlotKept(s, es) && OnA(Play(s, es + [e])) == OnA(s) {
      forall k | 0 <= k <= |es| + 1 ensures OnA(Play(s, (es + [e])[..k])) == OnA(s) {
        assert k <= |es| ==> OnA(Play(s, es[..k])) == OnA(s);
      }
    }
  }

  /** One boot, from a counter that stands for `n` boots. */
  lemma OneBoot(t: SlotState, n: nat)
    requires t.attemptCount == n % 0x1_0000_0000
    ensures var u, changed := NextState(t), OnA(NextState(t)) != OnA(t);
            && (changed <==> OtherReady(t) && (n + 1) % 0x1_0000_0000 > BootLimit(t))
            && u.activeSlot == (if !changed then t.activeSlot else if OnA(t) then 1 else 0)
            && u.attemptCount == (if changed then 0 else (n + 1) % 0x1_0000_0000)
            && u.lastResetReason ==
               (if changed then REASON_AUTO_FALLBACK
                else if t.lastResetReason == REASON_CLEAN_REBOOT then REASON_CLEAN_REBOOT
                else if n % 0x1_0000_0000 != 0 then REASON_WATCHDOG_OR_HANG
                else REASON_POWER_ON)
            && SameContents(u, t)
  {
    WrappedIncrement(n);
  }

  /** The counter, after any run from any record: the boots since the last success mark or change of
      slots, modulo 2^32. A clean reboot is on record exactly as long as the slot has never changed. */
  lemma {:induction false} CounterExactly(s: SlotState, es: seq<Event>)
    ensures Play(s, es).attemptCount == Unbroken(s, es) % 0x1_0000_0000
    ensures Play(s, es).lastResetReason == REASON_CLEAN_REBOOT <==>
            s.lastResetReason == REASON_CLEAN_REBOOT && SlotKept(s, es)
    ensures SameContents(Play(s, es), s)
  {
    hide NextState, SlotKept;
    if es == [] {
      NothingPlayed(s, es);
    } else {
      var before := es[..|es| - 1];
      var t := Play(s, before);
      CounterExactly(s, before);
      PlaySnoc(s, before, es[|es| - 1]);
      assert before + [es[|es| - 1]] == es;
      OneBoot(t, Unbroken(s, before));
      if SlotKept(s, before) {
        KeptSoFar(s, before);
      }
    }
  }

  lemma NothingPlayed(s: SlotState, es: seq<Event>)
    requires es == []
    ensures Play(s, es) == s && Unbroken(s, es) == s.attemptCount && SlotKept(s, es)
  {
  }

  lemma KeptSoFar(s: SlotState, es: seq<Event>)
    requires SlotKept(s, es)
    ensures OnA(Play(s, es)) == OnA(s)
  {
    assert es[..|es|] == es;
  }

  lemma SameLimit(s: SlotState, t: SlotState)
    requires SameContents(s, t)
    ensures BootLimit(s) == BootLimit(t)
  {
  }

  /** What a boot does and reports, after any run from any record, whatever is ready. It changes slots
      exactly if the other one is ready and the boots counted, this one included, exceed the limit. Then
      it reports a fallback; failing that, a clean reboot as long as one is on record; failing that, a hang
      if boots have been counted, that is, if neither a mark nor a change of slots separates it from the
      boot before; and otherwise power-on. */
  lemma BootExactly(s: SlotState, es: seq<Event>)
    ensures var t, u, n := Play(s, es), Play(s, es + [Boot]), Unbroken(s, es);
            && (OnA(u) != OnA(t) <==> OtherReady(t) && (n + 1) % 0x1_0000_0000 > BootLimit(s))
            && u.activeSlot == (if OnA(u) == OnA(t) then t.activeSlot else if OnA(t) then 1 else 0)
            && u.attemptCount == (if OnA(u) != OnA(t) then 0 else (n + 1) % 0x1_0000_0000)
            && u.lastResetReason ==
               (if OnA(u) != OnA(t) then REASON_AUTO_FALLBACK
                else if s.lastResetReason == REASON_CLEAN_REBOOT && SlotKept(s, es) then REASON_CLEAN_REBOOT
                else if n % 0x1_0000_0000 != 0 then REASON_WATCHDOG_OR_HANG
                else REASON_POWER_ON)
  {
    hide NextState, SlotKept, OtherReady, BootLimit, SameContents, Play, Unbroken;
    CounterExactly(s, es);
    SameLimit(Play(s, es), s);
    PlaySnoc(s, es, Boot);
    OneBoot(Play(s, es), Unbroken(s, es));
  }

  /** With the other slot not ready nothing resets the counter: it counts all boots, beyond the limit too,
      and every boot after the first reports a hang, until the counter wraps around. */
  lemma {:induction false} OneSlotOnly(s: SlotState, k: nat)
    requires !OtherReady(s)
    ensures After(s, k).attemptCount == (s.attemptCount + k) % 0x1_0000_0000 && After(s, k).activeSlot == s.activeSlot
    ensures k == 0 || After(s, k).lastResetReason ==
                      (if s.lastResetReason == REASON_CLEAN_REBOOT then REASON_CLEAN_REBOOT
                       else if (s.attemptCount + k - 1) % 0x1_0000_0000 != 0 then REASON_WATCHDOG_OR_HANG
                       else REASON_POWER_ON)
  {
    hide NextState;
    if k > 0 {
      OneSlotOnly(s, k - 1);
      NotReadyKeepsSlot(s, k - 1);
      NotReadyKeepsSlot(s, k);
      ContentsKept(s, k - 1);
      OneBoot(After(s, k - 1), s.attemptCount + k - 1);
    }
  }
}

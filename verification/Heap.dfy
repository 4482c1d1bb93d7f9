/** The kernel's bump allocator, one call at a time: where each allocation lands, and the layout of any
    sequence of allocations. */
module Heap {
  import opened Options
  import opened Crc32

  const HEAP_BYTES: nat := 786432
  const PAGE: nat := 4096
  const WORD: nat := 0x1_0000_0000

  /** An `unsigned long`; a negative `long` arrives as one from 2^31 up. */
  type U32 = n: int | 0 <= n < WORD

  /** Sizes are `long`s that are not negative. */
  type Size = n: int | 0 <= n < 0x8000_0000

  /** The heap array's own address: anywhere the array and the page behind it fit. */
  type HeapAddress = a: int | 0 <= a <= WORD - HEAP_BYTES - PAGE

  /** The interrupt bits of a CPSR: what it lets through. */
  datatype Mask = Mask(irq: bool, fiq: bool)

  /** A request, with the interrupt state it was made in. */
  datatype Request = Request(n: Size, guarded: bool, entered: Mask)

  /** A reservation: the guard page, if any, in [lo, start), and the caller's bytes in [start, hi). */
  datatype Place = Place(lo: nat, start: nat, hi: nat)

  /** `(x + 7) & ~7`. */
  function RoundUp8(x: nat): nat { (x + 7) / 8 * 8 }

  /** `(x + 4095) & ~4095`. */
  function RoundUpPage(x: nat): nat { (x + 4095) / 4096 * 4096 }

  function PlaceFor(base: HeapAddress, used: nat, n: nat, guarded: bool): Place {
    if guarded then
      var guard := RoundUpPage(base + used) - base;
      Place(guard, guard + PAGE, guard + PAGE + n)
    else
      Place(RoundUp8(used), RoundUp8(used), RoundUp8(used) + n)
  }

  function PlaceOf(base: HeapAddress, used: nat, r: Request): Place {
    PlaceFor(base, used, r.n, r.guarded)
  }

  /** The allocator's own test, in 32-bit arithmetic. */
  predicate Fits(base: HeapAddress, used: nat, n: nat, guarded: bool) {
    PlaceFor(base, used, n, guarded).hi % WORD <= HEAP_BYTES
  }

  /** The test is right if and only if the sum in it does not wrap around to an end inside the heap. */
  lemma FitsExactly(base: HeapAddress, used: nat, n: U32, guarded: bool)
    requires used <= HEAP_BYTES
    ensures var hi := PlaceFor(base, used, n, guarded).hi;
            (Fits(base, used, n, guarded) <==> hi <= HEAP_BYTES) <==> !(WORD <= hi <= WORD + HEAP_BYTES)
  {
    PlaceShape(base, used, n, guarded);
  }

  /** In particular it is right for every size that is not negative. */
  lemma FitsForSizes(base: HeapAddress, used: nat, n: Size, guarded: bool)
    requires used <= HEAP_BYTES
    ensures Fits(base, used, n, guarded) <==> PlaceFor(base, used, n, guarded).hi <= HEAP_BYTES
  {
    hide PlaceFor;
    PlaceShape(base, used, n, guarded);
  }

  /** What one reservation looks like: the next aligned place, and no further. */
  lemma PlaceShape(base: HeapAddress, used: nat, n: nat, guarded: bool)
    ensures var p := PlaceFor(base, used, n, guarded);
            && used <= p.lo <= p.start && p.hi == p.start + n
            && (guarded ==> p.start == p.lo + PAGE && p.lo < used + PAGE && (base + p.lo) % PAGE == 0)
            && (!guarded ==> p.start == p.lo < used + 8 && p.lo % 8 == 0)
  {
  }

  lemma RequestShape(base: HeapAddress, used: nat, r: Request)
    ensures var p := PlaceOf(base, used, r);
            && used <= p.lo <= p.start && p.hi == p.start + r.n
            && (r.guarded ==> p.start == p.lo + PAGE && (base + p.lo) % PAGE == 0)
            && (!r.guarded ==> p.start == p.lo)
  {
    hide PlaceFor;
    PlaceShape(base, used, r.n, r.guarded);
  }

  // ---------------------------------------------------------------- histories of allocations

  /** One allocation of a history. */
  datatype Entry = Entry(owner: nat, req: Request, place: Place, returned: bool)

  /** The bump pointer before the `k`-th allocation. */
  function UsedBefore(log: seq<Entry>, k: nat): nat
    requires k <= |log|
  {
    if k == 0 then 0 else log[k - 1].place.hi
  }

  /** The history is what the allocator does one call at a time. */
  predicate Chained(base: HeapAddress, log: seq<Entry>) {
    forall k :: 0 <= k < |log| ==> log[k].place == PlaceOf(base, UsedBefore(log, k), log[k].req)
  }

  /** Allocations lie one after the other: an earlier one ends before a later one's guard page begins. */
  lemma {:induction false} ChainedInOrder(base: HeapAddress, log: seq<Entry>, i: nat, j: nat)
    requires Chained(base, log) && i < j < |log|
    ensures log[i].place.hi <= log[j].place.lo
    decreases j
  {
    hide PlaceOf;
    RequestShape(base, UsedBefore(log, j), log[j].req);
    if i < j - 1 {
      ChainedInOrder(base, log, i, j - 1);
      RequestShape(base, UsedBefore(log, j - 1), log[j - 1].req);
    }
  }

  lemma ChainedBelowUsed(base: HeapAddress, log: seq<Entry>, k: nat)
    requires Chained(base, log) && k < |log|
    ensures log[k].place.hi <= UsedBefore(log, |log|)
  {
    hide PlaceOf;
    if k < |log| - 1 {
      ChainedInOrder(base, log, k, |log| - 1);
      RequestShape(base, UsedBefore(log, |log| - 1), log[|log| - 1].req);
    }
  }

  predicate Apart(p: Place, q: Place) {
    p.hi <= q.lo || q.hi <= p.lo
  }

  /** Every byte a caller was given, of any allocation, is in the heap, in no other allocation, and on
      no guard page, of an earlier or a later one. */
  lemma AllocationsDisjoint(base: HeapAddress, log: seq<Entry>, i: nat, j: nat)
    requires Chained(base, log) && UsedBefore(log, |log|) <= HEAP_BYTES
    requires i < |log| && j < |log|
    ensures log[i].place.lo <= log[i].place.start <= log[i].place.hi <= HEAP_BYTES
    ensures i != j ==> Apart(log[i].place, log[j].place)
    ensures log[j].req.guarded ==>
              && (base + log[j].place.lo) % PAGE == 0 && log[j].place.start == log[j].place.lo + PAGE
              && (log[j].place.start <= log[i].place.start || log[i].place.hi <= log[j].place.lo)
  {
    hide PlaceOf;
    RequestShape(base, UsedBefore(log, i), log[i].req);
    RequestShape(base, UsedBefore(log, j), log[j].req);
    ChainedBelowUsed(base, log, i);
    if i < j {
      ChainedInOrder(base, log, i, j);
    } else if j < i {
      ChainedInOrder(base, log, j, i);
    }
  }

  /** A history grows by one allocation at the bump pointer. */
  lemma ChainedSnoc(base: HeapAddress, log: seq<Entry>, e: Entry)
    requires Chained(base, log) && e.place == PlaceOf(base, UsedBefore(log, |log|), e.req)
    ensures Chained(base, log + [e]) && UsedBefore(log + [e], |log| + 1) == e.place.hi
  {
    hide PlaceOf;
    forall k | 0 <= k <= |log| ensures UsedBefore(log + [e], k) == UsedBefore(log, k) {
    }
  }

  // ---------------------------------------------------------------- the dedicated megabytes

  const DOMAINS_BASE: nat := 0x00A0_0000
  const DOMAIN_BYTES: nat := 0x0010_0000
  const USR_OFFSET: nat := 0x0008_0000
  const DOMAIN_COUNT: nat := 15

  function DomainBase(taskIndex: nat): nat {
    DOMAINS_BASE + taskIndex * DOMAIN_BYTES
  }

  /** The stack of the supervisor mode, in absolute addresses. */
  function SvcPlace(taskIndex: nat, n: nat): Place {
    Place(DomainBase(taskIndex), DomainBase(taskIndex) + PAGE, DomainBase(taskIndex) + PAGE + n)
  }

  /** The stack of the user mode. */
  function UsrPlace(taskIndex: nat, n: nat): Place {
    var guard := DomainBase(taskIndex) + USR_OFFSET;
    Place(guard, guard + PAGE, guard + PAGE + n)
  }

  /** A reservation that does not cross from one megabyte into the next. */
  predicate InOneDomain(p: Place) {
    p.hi <= p.lo - p.lo % DOMAIN_BYTES + DOMAIN_BYTES
  }

  /** Stacks of different tasks never overlap. */
  lemma DomainsDisjoint(i: nat, j: nat, p: Place, q: Place)
    requires i != j
    requires exists n, m :: (p == SvcPlace(i, n) || p == UsrPlace(i, n)) && (q == SvcPlace(j, m) || q == UsrPlace(j, m))
    requires InOneDomain(p) && InOneDomain(q)
    ensures Apart(p, q)
  {
    InItsDomain(i, p);
    InItsDomain(j, q);
    if i < j {
      NextDomain(i, j);
    } else {
      NextDomain(j, i);
    }
  }

  lemma InItsDomain(i: nat, p: Place)
    requires exists n :: p == SvcPlace(i, n) || p == UsrPlace(i, n)
    ensures DomainBase(i) <= p.lo && p.lo - p.lo % DOMAIN_BYTES == DomainBase(i)
  {
  }

  lemma NextDomain(i: nat, j: nat)
    requires i < j
    ensures DomainBase(i) + DOMAIN_BYTES <= DomainBase(j)
  {
  }

  /** The two stacks of one task are disjoint, guard pages included, exactly when the supervisor stack
      is at most 0x7F000 bytes. */
  lemma SvcAndUsr(i: nat, n: nat, m: nat)
    ensures Apart(SvcPlace(i, n), UsrPlace(i, m)) <==> n <= 0x7F000
  {
  }

  function DomainsEnd(): nat {
    DOMAINS_BASE + DOMAIN_COUNT * DOMAIN_BYTES
  }

  /** The same reservation in absolute addresses. */
  function Absolute(base: HeapAddress, p: Place): Place {
    Place(base + p.lo, base + p.start, base + p.hi)
  }

  /** A heap that lies clear of the dedicated megabytes keeps every allocation and guard page of every
      history clear of every task's own stacks. */
  lemma HeapApartFromDomains(base: HeapAddress, log: seq<Entry>, k: nat, i: nat, n: nat, p: Place)
    requires base + HEAP_BYTES <= DOMAINS_BASE || DomainsEnd() <= base
    requires Chained(base, log) && UsedBefore(log, |log|) <= HEAP_BYTES && k < |log|
    requires i < DOMAIN_COUNT && (p == SvcPlace(i, n) || p == UsrPlace(i, n)) && InOneDomain(p)
    ensures Apart(Absolute(base, log[k].place), p)
  {
    hide Chained;
    AllocationsDisjoint(base, log, k, k);
    InItsDomain(i, p);
    if i + 1 < DOMAIN_COUNT {
      NextDomain(i, DOMAIN_COUNT - 1);
    }
  }

  /** The tests of the two domain allocators, in 32-bit arithmetic. */
  predicate SvcRefuses(n: U32) {
    (n + 0x1000) % WORD > DOMAIN_BYTES
  }

  predicate UsrRefuses(n: U32) {
    (n + 0x0008_1000) % WORD > DOMAIN_BYTES
  }

  /** Each test refuses exactly the stacks that would leave the megabyte, if and only if the sum in it
      does not wrap around. */
  lemma SvcTestRight(i: nat, n: U32)
    ensures (SvcRefuses(n) <==> !InOneDomain(SvcPlace(i, n))) <==> n < WORD - 0x1000
  {
    InItsDomain(i, SvcPlace(i, n));
  }

  lemma UsrTestRight(i: nat, n: U32)
    ensures (UsrRefuses(n) <==> !InOneDomain(UsrPlace(i, n))) <==> n < WORD - 0x0008_1000
  {
    InItsDomain(i, UsrPlace(i, n));
  }

  /** The largest size is accepted by both, though nothing near it fits. */
  lemma LargestSizeAccepted(i: nat)
    ensures !SvcRefuses(0xFFFF_FFFF) && !InOneDomain(SvcPlace(i, 0xFFFF_FFFF))
    ensures !UsrRefuses(0xFFFF_FFFF) && !InOneDomain(UsrPlace(i, 0xFFFF_FFFF))
  {
    SvcTestRight(i, 0xFFFF_FFFF);
    UsrTestRight(i, 0xFFFF_FFFF);
  }

  // ---------------------------------------------------------------- the bookkeeping of a call

  datatype Books = Books(used: nat, count: nat, countdown: nat)

  /** How a call ends: with the address of the caller's bytes; in the halt, for a fault that was
      injected or for want of room; or with a size for which the test wrapped around, in the zero loop
      that runs out of the heap. */
  datatype Answer = Granted(address: nat) | Injected | Exhausted | Overrun

  function AnswerOf(base: HeapAddress, b: Books, n: U32, guarded: bool): Answer {
    if !guarded && b.countdown == 1 then Injected
    else if !Fits(base, b.used, n, guarded) then Exhausted
    else if PlaceFor(base, b.used, n, guarded).hi > HEAP_BYTES then Overrun
    else Granted(base + PlaceFor(base, b.used, n, guarded).start)
  }

  function BooksOf(base: HeapAddress, b: Books, n: U32, guarded: bool): Books {
    var countdown := if !guarded && b.countdown > 0 then b.countdown - 1 else b.countdown;
    match AnswerOf(base, b, n, guarded)
    case Injected => b.(countdown := countdown)
    case Exhausted => b.(countdown := countdown)
    case _ => Books(PlaceFor(base, b.used, n, guarded).hi % WORD, (b.count + 1) % WORD, countdown)
  }

  datatype Ask = Ask(n: U32, guarded: bool)

  function BooksAfter(base: HeapAddress, b: Books, asks: seq<Ask>): Books {
    if asks == [] then b
    else
      var last := asks[|asks| - 1];
      BooksOf(base, BooksAfter(base, b, asks[..|asks| - 1]), last.n, last.guarded)
  }

  function AnswerTo(base: HeapAddress, b: Books, asks: seq<Ask>, k: nat): Answer
    requires k < |asks|
  {
    AnswerOf(base, BooksAfter(base, b, asks[..k]), asks[k].n, asks[k].guarded)
  }

  /** The machine gets as far as the `k`-th call. */
  ghost predicate Gets(base: HeapAddress, b: Books, asks: seq<Ask>, k: nat)
    requires k <= |asks|
  {
    forall j :: 0 <= j < k ==> AnswerTo(base, b, asks, j).Granted?
  }

  function ByteCalls(asks: seq<Ask>): nat {
    if asks == [] then 0 else ByteCalls(asks[..|asks| - 1]) + (if asks[|asks| - 1].guarded then 0 else 1)
  }

  /** What arming leaves in the 32-bit countdown. */
  function Armed(afterN: int): nat {
    if afterN > 0 then afterN % WORD else 0
  }

  /** Each byte allocation takes one from the countdown; while the machine gets on, some are left. */
  lemma {:induction false} CountdownLeft(base: HeapAddress, b: Books, asks: seq<Ask>, k: nat)
    requires k <= |asks| && Gets(base, b, asks, k)
    ensures var c := BooksAfter(base, b, asks[..k]).countdown;
            if b.countdown == 0 then c == 0 else c == b.countdown - ByteCalls(asks[..k]) && c > 0
  {
    hide Fits, PlaceFor;
    if k == 0 {
      assert asks[..0] == [];
    } else {
      CountdownLeft(base, b, asks, k - 1);
      assert AnswerTo(base, b, asks, k - 1).Granted?;
      assert asks[..k][..k - 1] == asks[..k - 1];
    }
  }

  /** After arming, exactly the byte allocation whose number is the countdown fails, however many guarded
      ones lie between: that number is the one asked for, modulo 2^32. */
  lemma ArmFires(base: HeapAddress, b: Books, afterN: int, asks: seq<Ask>, k: nat)
    requires b.countdown == Armed(afterN) && k < |asks| && Gets(base, b, asks, k)
    ensures AnswerTo(base, b, asks, k) == Injected <==>
            !asks[k].guarded && afterN > 0 && ByteCalls(asks[..k + 1]) == afterN % WORD
  {
    hide Fits, PlaceFor;
    CountdownLeft(base, b, asks, k);
    assert asks[..k + 1][..k] == asks[..k];
  }

  /** The promise of the arming call: the `afterN`-th byte allocation fails, and no other is injected. */
  ghost predicate FiresAt(base: HeapAddress, b: Books, afterN: int) {
    forall asks: seq<Ask>, k: nat :: k < |asks| && Gets(base, b, asks, k) ==>
      (AnswerTo(base, b, asks, k) == Injected <==> !asks[k].guarded && ByteCalls(asks[..k + 1]) == afterN)
  }

  /** It is kept if and only if the number fits the 32-bit countdown. */
  lemma FiresExactly(base: HeapAddress, b: Books, afterN: int)
    requires afterN > 0 && b.countdown == Armed(afterN) && b.used <= HEAP_BYTES
    ensures FiresAt(base, b, afterN) <==> afterN < WORD
  {
    hide AnswerTo;
    if afterN < WORD {
      forall asks: seq<Ask>, k: nat | k < |asks| && Gets(base, b, asks, k)
        ensures AnswerTo(base, b, asks, k) == Injected <==> !asks[k].guarded && ByteCalls(asks[..k + 1]) == afterN
      {
        ArmFires(base, b, afterN, asks, k);
      }
    } else {
      LargeNumberFails(base, b, afterN);
    }
  }

  /** A larger number fires early, or not at all. */
  lemma LargeNumberFails(base: HeapAddress, b: Books, afterN: int)
    requires afterN >= WORD && b.countdown == Armed(afterN) && b.used <= HEAP_BYTES
    ensures !FiresAt(base, b, afterN)
  {
    hide AnswerTo, BooksAfter;
    var n := if b.countdown == 0 then afterN else b.countdown;
    var asks, k: nat := seq(n, _ => Ask(0, false)), n - 1;
    EmptyCallsGetOn(base, b, asks, k);
    ArmFires(base, b, afterN, asks, k);
    CountByteCalls(asks, n);
    assert k < |asks| && Gets(base, b, asks, k) && !asks[k].guarded && ByteCalls(asks[..k + 1]) == n;
  }

  lemma {:induction false} CountByteCalls(asks: seq<Ask>, k: nat)
    requires k <= |asks| && forall j :: 0 <= j < |asks| ==> asks[j] == Ask(0, false)
    ensures ByteCalls(asks[..k]) == k
  {
    if k > 0 {
      CountByteCalls(asks, k - 1);
      assert asks[..k][..k - 1] == asks[..k - 1];
    }
  }

  /** Requests for nothing always fit. */
  lemma EmptyFits(base: HeapAddress, b: Books)
    requires b.used <= HEAP_BYTES && b.countdown != 1
    ensures AnswerOf(base, b, 0, false).Granted? && BooksOf(base, b, 0, false).used <= HEAP_BYTES
  {
  }

  lemma {:induction false} EmptyCallsGetOn(base: HeapAddress, b: Books, asks: seq<Ask>, k: nat)
    requires k < |asks| && (forall j :: 0 <= j < |asks| ==> asks[j] == Ask(0, false))
    requires b.used <= HEAP_BYTES && (b.countdown == 0 || k < b.countdown)
    ensures Gets(base, b, asks, k) && BooksAfter(base, b, asks[..k]).used <= HEAP_BYTES
  {
    hide AnswerOf, BooksOf;
    if k > 0 {
      EmptyCallsGetOn(base, b, asks, k - 1);
      CountdownLeft(base, b, asks, k - 1);
      CountByteCalls(asks, k - 1);
      assert asks[..k][..k - 1] == asks[..k - 1];
      EmptyFits(base, BooksAfter(base, b, asks[..k - 1]));
    } else {
      assert asks[..0] == [];
    }
  }

  // ---------------------------------------------------------------- sequences of calls

  /** The first address a call reserves: its guard page, if it has one. */
  function FirstAddress(address: nat, guarded: bool): int {
    if guarded then address - PAGE else address
  }

  /** What a call does, in terms of addresses and sizes: a granted region begins at the next aligned
      address behind the bump pointer, behind its guard page if it has one, and the bump pointer moves to
      its end; a call that halts moves nothing. */
  predicate InPlace(base: HeapAddress, b: Books, n: U32, guarded: bool, p: Answer, c: Books) {
    && (p.Granted? ==>
          && base + b.used <= FirstAddress(p.address, guarded) && p.address + n == base + c.used
          && c.used <= HEAP_BYTES && c.count == (b.count + 1) % WORD
          && (guarded ==> p.address % PAGE == 0 && FirstAddress(p.address, guarded) < base + b.used + PAGE)
          && (!guarded ==> (p.address - base) % 8 == 0 && p.address < base + b.used + 8))
    && (p.Injected? || p.Exhausted? ==> c.used == b.used && c.count == b.count)
  }

  lemma OneCall(base: HeapAddress, b: Books, n: U32, guarded: bool)
    requires b.used <= HEAP_BYTES
    ensures InPlace(base, b, n, guarded, AnswerOf(base, b, n, guarded), BooksOf(base, b, n, guarded))
  {
    hide PlaceFor;
    PlaceShape(base, b.used, n, guarded);
  }

  /** What matters of it for later calls. */
  lemma CallMoves(base: HeapAddress, b: Books, n: U32, guarded: bool)
    requires b.used <= HEAP_BYTES
    ensures var p, c := AnswerOf(base, b, n, guarded), BooksOf(base, b, n, guarded);
            && (p.Granted? ==>
                  && base + b.used <= FirstAddress(p.address, guarded) && p.address + n == base + c.used
                  && c.used <= HEAP_BYTES && c.count == (b.count + 1) % WORD)
            && (p.Injected? || p.Exhausted? ==> c.used == b.used && c.count == b.count)
  {
    hide AnswerOf, BooksOf;
    OneCall(base, b, n, guarded);
  }

  /** No call up to the `k`-th had a size for which the test wraps around. */
  ghost predicate NoOverrun(base: HeapAddress, b: Books, asks: seq<Ask>, k: nat)
    requires k <= |asks|
  {
    forall i :: 0 <= i < k ==> !AnswerTo(base, b, asks, i).Overrun?
  }

  /** The calls of the first `k` that were granted. */
  function Grants(base: HeapAddress, b: Books, asks: seq<Ask>, k: nat): nat
    requires k <= |asks|
  {
    if k == 0 then 0
    else Grants(base, b, asks, k - 1) + (if AnswerTo(base, b, asks, k - 1).Granted? then 1 else 0)
  }

  lemma BooksStep(base: HeapAddress, b: Books, asks: seq<Ask>, k: nat)
    requires k < |asks|
    ensures BooksAfter(base, b, asks[..k + 1]) == BooksOf(base, BooksAfter(base, b, asks[..k]), asks[k].n, asks[k].guarded)
  {
    hide BooksOf;
    assert asks[..k + 1][..k] == asks[..k];
  }

  /** The bump pointer stays in the heap, and the counter counts the granted calls, halted ones in
      between or not. */
  lemma {:induction false} BooksSound(base: HeapAddress, b: Books, asks: seq<Ask>, k: nat)
    requires k <= |asks| && b.used <= HEAP_BYTES && b.count < WORD && NoOverrun(base, b, asks, k)
    ensures var c := BooksAfter(base, b, asks[..k]);
            b.used <= c.used <= HEAP_BYTES && c.count == (b.count + Grants(base, b, asks, k)) % WORD
  {
    hide BooksOf, AnswerOf, BooksAfter;
    if k == 0 {
      NothingAsked(base, b, asks);
    } else {
      BooksSound(base, b, asks, k - 1);
      BooksStep(base, b, asks, k - 1);
      CallMoves(base, BooksAfter(base, b, asks[..k - 1]), asks[k - 1].n, asks[k - 1].guarded);
      CountOne(b.count + Grants(base, b, asks, k - 1));
      assert !AnswerTo(base, b, asks, k - 1).Overrun?;
    }
  }

  lemma CountOne(x: nat)
    ensures (x % WORD + 1) % WORD == (x + 1) % WORD
  {
  }

  /** The bump pointer is never again below the end of a granted region. */
  lemma {:induction false} EndsBelowUsed(base: HeapAddress, b: Books, asks: seq<Ask>, j: nat, k: nat)
    requires j < k <= |asks| && b.used <= HEAP_BYTES && b.count < WORD && NoOverrun(base, b, asks, k)
    requires AnswerTo(base, b, asks, j).Granted?
    ensures AnswerTo(base, b, asks, j).address + asks[j].n <= base + BooksAfter(base, b, asks[..k]).used
    decreases k
  {
    hide BooksOf, AnswerOf, BooksAfter;
    BooksSound(base, b, asks, k - 1);
    BooksStep(base, b, asks, k - 1);
    assert !AnswerTo(base, b, asks, k - 1).Overrun?;
    CallMoves(base, BooksAfter(base, b, asks[..k - 1]), asks[k - 1].n, asks[k - 1].guarded);
    if j < k - 1 {
      EndsBelowUsed(base, b, asks, j, k - 1);
    }
  }

  lemma NothingAsked(base: HeapAddress, b: Books, asks: seq<Ask>)
    ensures BooksAfter(base, b, asks[..0]) == b
  {
  }

  /** Whatever is asked for, in whatever order: the bytes of an earlier call end before the bytes, and
      before the guard page, of a later one, and both lie in the heap. Sizes for which the test wraps
      around are left out; a negative one is needed for that. */
  lemma AnswersInOrder(base: HeapAddress, b: Books, asks: seq<Ask>, j: nat, k: nat)
    requires j < k < |asks| && b.used <= HEAP_BYTES && b.count < WORD && NoOverrun(base, b, asks, k)
    requires AnswerTo(base, b, asks, j).Granted? && AnswerTo(base, b, asks, k).Granted?
    ensures var p, q := AnswerTo(base, b, asks, j).address, AnswerTo(base, b, asks, k).address;
            && base <= FirstAddress(p, asks[j].guarded) && p + asks[j].n <= FirstAddress(q, asks[k].guarded)
            && q + asks[k].n <= base + HEAP_BYTES
  {
    hide BooksOf, AnswerOf, BooksAfter;
    BooksSound(base, b, asks, j);
    BooksSound(base, b, asks, k);
    EndsBelowUsed(base, b, asks, j, k);
    CallMoves(base, BooksAfter(base, b, asks[..j]), asks[j].n, asks[j].guarded);
    CallMoves(base, BooksAfter(base, b, asks[..k]), asks[k].n, asks[k].guarded);
  }

  lemma NoOverrunForSizes(base: HeapAddress, b: Books, n: Size, guarded: bool)
    requires b.used <= HEAP_BYTES
    ensures !AnswerOf(base, b, n, guarded).Overrun?
  {
    hide PlaceFor, Fits;
    FitsForSizes(base, b.used, n, guarded);
  }

  /** Sizes that are not negative never make the test wrap around. */
  lemma {:induction false} SizesNeverOverrun(base: HeapAddress, b: Books, asks: seq<Ask>, k: nat)
    requires k <= |asks| && b.used <= HEAP_BYTES && b.count < WORD
    requires forall i :: 0 <= i < |asks| ==> asks[i].n < 0x8000_0000
    ensures NoOverrun(base, b, asks, k)
  {
    hide AnswerOf, BooksAfter;
    if k > 0 {
      SizesNeverOverrun(base, b, asks, k - 1);
      BooksSound(base, b, asks, k - 1);
      NoOverrunForSizes(base, BooksAfter(base, b, asks[..k - 1]), asks[k - 1].n, asks[k - 1].guarded);
    }
  }

  /** A slot of `n` bytes from offset `s` on, with its guard page below it if it has one. */
  predicate Room(base: HeapAddress, used: nat, n: U32, guarded: bool, s: nat) {
    && s + n <= HEAP_BYTES
    && if guarded then s >= used + PAGE && (base + s) % PAGE == 0 else s >= used && s % 8 == 0
  }

  /** A call with a size that is not negative, and for which no fault is due, is granted exactly if there
      is room behind the bump pointer; and it is given the first room there is. */
  lemma GrantedExactly(base: HeapAddress, b: Books, n: Size, guarded: bool)
    requires b.used <= HEAP_BYTES && (guarded || b.countdown != 1)
    ensures var p := AnswerOf(base, b, n, guarded);
            && (p.Granted? <==> exists s: nat :: Room(base, b.used, n, guarded, s))
            && (p.Granted? ==> p.address >= base && Room(base, b.used, n, guarded, p.address - base))
            && (p.Granted? ==> forall s: nat :: Room(base, b.used, n, guarded, s) ==> p.address - base <= s)
            && (!p.Granted? ==> p == Exhausted)
  {
    hide PlaceFor, Fits;
    FitsForSizes(base, b.used, n, guarded);
    PlaceShape(base, b.used, n, guarded);
    var start := PlaceFor(base, b.used, n, guarded).start;
    forall s: nat | Room(base, b.used, n, guarded, s) ensures start <= s {
      FirstRoom(base, b.used, n, guarded, start, s);
    }
    if start + n <= HEAP_BYTES {
      assert Room(base, b.used, n, guarded, start);
    }
  }

  /** An aligned place within one step of the bump pointer is the first. */
  lemma FirstRoom(base: HeapAddress, used: nat, n: U32, guarded: bool, start: nat, s: nat)
    requires Room(base, used, n, guarded, s)
    requires if guarded then start < used + PAGE + PAGE && (base + start) % PAGE == 0 else start < used + 8 && start % 8 == 0
    ensures start <= s
  {
  }

  // ---------------------------------------------------------------- the allocator

  class Allocator {
    const base: HeapAddress
    const heap: array<Byte>
    /** The fifteen dedicated megabytes from DOMAINS_BASE on. */
    const domains: array<Byte>
    var used: nat
    var count: nat
    var countdown: nat
    /** The addresses of the pages made inaccessible. */
    var guards: set<nat>

    predicate Valid()
      reads this
    {
      && heap.Length == HEAP_BYTES && domains.Length == DOMAIN_COUNT * DOMAIN_BYTES && heap != domains
      && used <= HEAP_BYTES && count < WORD && countdown < WORD
    }

    function Ledger(): Books
      reads this
    {
      Books(used, count, countdown)
    }

    constructor (address: HeapAddress)
      ensures Valid() && base == address && Ledger() == Books(0, 0, 0) && guards == {}
      ensures fresh(heap) && fresh(domains)
    {
      base := address;
      heap := new Byte[HEAP_BYTES](_ => 0);
      domains := new Byte[DOMAIN_COUNT * DOMAIN_BYTES](_ => 0);
      used, count, countdown, guards := 0, 0, 0, {};
    }

    /** `dhruva_fault_inject_alloc_arm`: the argument is 64 bits wide, the countdown 32. */
    method Arm(afterN: int)
      requires Valid() && -0x8000_0000_0000_0000 <= afterN < 0x8000_0000_0000_0000
      modifies `countdown
      ensures Valid() && Ledger() == old(Ledger()).(countdown := Armed(afterN))
      ensures afterN > 0 ==> (FiresAt(base, Ledger(), afterN) <==> afterN < WORD)
    {
      countdown := if afterN > 0 then afterN % WORD else 0;
      if afterN > 0 {
        FiresExactly(base, Ledger(), afterN);
      }
    }

    /** The zero-fill loop. */
    static method ZeroFill(a: array<Byte>, p: nat, need: nat)
      requires p + need <= a.Length
      modifies a
      ensures forall k :: 0 <= k < a.Length ==> a[k] == if p <= k < p + need then 0 else old(a[k])
    {
      var i := 0;
      while i < need
        invariant 0 <= i <= need
        invariant forall k :: 0 <= k < a.Length ==> a[k] == if p <= k < p + i then 0 else old(a[k])
      {
        a[p + i] := 0;
        i := i + 1;
      }
    }

    /** The heap after a call: a granted region is zero and nothing else has changed; a call that halts
        changes nothing. After an overrun nothing is promised. */
    ghost predicate MemoryAfter(p: Answer, n: U32, before: seq<Byte>)
      reads heap
      requires |before| == heap.Length
    {
      && (p.Granted? ==>
            forall k :: 0 <= k < heap.Length ==> heap[k] == if p.address <= base + k < p.address + n then 0 else before[k])
      && (p.Injected? || p.Exhausted? ==> heap[..] == before)
    }

    /** `dhruva_alloc_bytes`. */
    method AllocBytes(n: U32) returns (p: Answer)
      requires Valid()
      modifies this, heap
      ensures Valid() && guards == old(guards)
      ensures p == AnswerOf(base, old(Ledger()), n, false) && Ledger() == BooksOf(base, old(Ledger()), n, false)
      ensures InPlace(base, old(Ledger()), n, false, p, Ledger())
      ensures MemoryAfter(p, n, old(heap[..]))
    {
      hide InPlace;
      OneCall(base, Ledger(), n, false);
      PlaceShape(base, used, n, false);
      var injectedFault := false;
      if countdown > 0 {
        countdown := countdown - 1;
        if countdown == 0 {
          injectedFault := true;
        }
      }
      if injectedFault {
        return Injected;
      }
      var alignedUsed := RoundUp8(used);
      if (alignedUsed + n) % WORD > HEAP_BYTES {
        return Exhausted;
      }
      used := (alignedUsed + n) % WORD;
      count := (count + 1) % WORD;
      // The test wrapped: from here on the zero loop leaves the heap, and the model stops.
      if alignedUsed + n > HEAP_BYTES {
        return Overrun;
      }
      ZeroFill(heap, alignedUsed, n);
      p := Granted(base + alignedUsed);
    }

    /** `dhruva_alloc_stack_guarded`: it neither checks nor counts the injection countdown, and makes the
        page below the stack inaccessible. */
    method AllocStackGuarded(n: U32) returns (p: Answer)
      requires Valid()
      modifies this, heap
      ensures Valid()
      ensures p == AnswerOf(base, old(Ledger()), n, true) && Ledger() == BooksOf(base, old(Ledger()), n, true)
      ensures InPlace(base, old(Ledger()), n, true, p, Ledger()) && countdown == old(countdown)
      ensures MemoryAfter(p, n, old(heap[..]))
      ensures p.Granted? ==> p.address >= PAGE && guards == old(guards) + {p.address - PAGE}
      ensures p.Exhausted? ==> guards == old(guards)
    {
      hide InPlace;
      OneCall(base, Ledger(), n, true);
      PlaceShape(base, used, n, true);
      var curAbs := base + used;
      var alignedAbs := RoundUpPage(curAbs);
      var guardOffset := alignedAbs - base;
      var usableOffset := guardOffset + 4096;
      if (usableOffset + n) % WORD > HEAP_BYTES {
        return Exhausted;
      }
      used := (usableOffset + n) % WORD;
      count := (count + 1) % WORD;
      guards := guards + {base + guardOffset};
      // As above.
      if usableOffset + n > HEAP_BYTES {
        return Overrun;
      }
      ZeroFill(heap, usableOffset, n);
      p := Granted(base + usableOffset);
    }

    /** `dhruva_alloc_stack_domain`: a task's own megabyte, or the shared heap from index 15 on. */
    method AllocStackDomain(n: U32, taskIndex: nat) returns (p: Answer)
      requires Valid()
      modifies this, heap, domains
      ensures Valid()
      ensures taskIndex >= DOMAIN_COUNT ==>
                && p == AnswerOf(base, old(Ledger()), n, true) && Ledger() == BooksOf(base, old(Ledger()), n, true)
                && MemoryAfter(p, n, old(heap[..])) && domains[..] == old(domains[..])
                && (p.Granted? ==> p.address >= PAGE && guards == old(guards) + {p.address - PAGE})
                && (p.Exhausted? ==> guards == old(guards))
      ensures taskIndex < DOMAIN_COUNT ==>
                && Ledger() == old(Ledger()) && heap[..] == old(heap[..])
                && DomainEffect(SvcPlace(taskIndex, n), n < WORD - 0x1000, p, old(guards), old(domains[..]))
    {
      if taskIndex > 14 {
        p := AllocStackGuarded(n);
        return;
      }
      SvcTestRight(taskIndex, n);
      var domainBase := 0x00A0_0000 + taskIndex * 0x0010_0000;
      if (n + 4096) % WORD > 0x0010_0000 {
        return Exhausted;
      }
      guards := guards + {domainBase};
      // As above: the zero loop leaves the megabyte.
      if n + 4096 > 0x0010_0000 {
        return Overrun;
      }
      ZeroFill(domains, domainBase + 4096 - DOMAINS_BASE, n);
      p := Granted(domainBase + 4096);
    }

    /** `dhruva_alloc_usrstack_domain`: the same, in the upper half of the megabyte. */
    method AllocUsrstackDomain(n: U32, taskIndex: nat) returns (p: Answer)
      requires Valid()
      modifies this, heap, domains
      ensures Valid()
      ensures taskIndex >= DOMAIN_COUNT ==>
                && p == AnswerOf(base, old(Ledger()), n, true) && Ledger() == BooksOf(base, old(Ledger()), n, true)
                && MemoryAfter(p, n, old(heap[..])) && domains[..] == old(domains[..])
                && (p.Granted? ==> p.address >= PAGE && guards == old(guards) + {p.address - PAGE})
                && (p.Exhausted? ==> guards == old(guards))
      ensures taskIndex < DOMAIN_COUNT ==>
                && Ledger() == old(Ledger()) && heap[..] == old(heap[..])
                && DomainEffect(UsrPlace(taskIndex, n), n < WORD - 0x0008_1000, p, old(guards), old(domains[..]))
    {
      if taskIndex > 14 {
        p := AllocStackGuarded(n);
        return;
      }
      UsrTestRight(taskIndex, n);
      var domainBase := 0x00A0_0000 + taskIndex * 0x0010_0000;
      var guardAddr := domainBase + 0x0008_0000;
      if (n + 0x0008_1000) % WORD > 0x0010_0000 {
        return Exhausted;
      }
      guards := guards + {guardAddr};
      // As above.
      if n + 0x0008_1000 > 0x0010_0000 {
        return Overrun;
      }
      ZeroFill(domains, guardAddr + 4096 - DOMAINS_BASE, n);
      p := Granted(guardAddr + 4096);
    }

    /** A stack at `place`, in absolute addresses, if the whole of it is inside its megabyte: zeroed,
        with its guard page installed, and no other byte changed. One that is not is refused if the
        test was `right`, and overruns the megabyte if it was not. */
    ghost predicate DomainEffect(place: Place, right: bool, p: Answer, guardsBefore: set<nat>, before: seq<Byte>)
      reads this, domains
      requires |before| == domains.Length == DOMAIN_COUNT * DOMAIN_BYTES
    {
      if InOneDomain(place) then
        && p == Granted(place.start) && guards == guardsBefore + {place.lo}
        && forall k :: 0 <= k < domains.Length
             ==> domains[k] == if place.start <= DOMAINS_BASE + k < place.hi then 0 else before[k]
      else if right then p == Exhausted && guards == guardsBefore && domains[..] == before
      else p == Overrun
    }
  }
}

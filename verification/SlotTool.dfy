/** The host tool that seeds a kernel into a slot and verifies a card, and how its cards boot. */
module SlotTool {
  import opened Options
  import opened Crc32
  import opened LittleEndian
  import opened SlotRecord
  import opened BootPolicy
  import opened PingPong
  import opened Stage0
  import Sha256Spec

  datatype Slot = A | B

  function SlotBase(slot: Slot): nat {
    match slot case A => SLOT_A_BASE_BLOCK case B => SLOT_B_BASE_BLOCK
  }

  const MIN_SIZE: nat := (SLOT_B_BASE_BLOCK + SLOT_SIZE_BLOCKS) * 512

  // ---------------------------------------------------------------- writing a string of bytes

  /** The number of blocks before the last, possibly partial, one. */
  function FullBefore(bytes: seq<Byte>): (q: nat)
    requires bytes != []
    ensures 512 * q < |bytes| <= 512 * q + 512 && BlockCount(|bytes|) == q + 1
  {
    (|bytes| - 1) / 512
  }

  /** The card after a write of `bytes` from block `base` on: the rest of the last block is kept. */
  function WriteBytes(d: Disk, base: nat, bytes: seq<Byte>): Disk
    decreases |bytes|
  {
    if bytes == [] then d
    else
      var q := FullBefore(bytes);
      var last := bytes[512 * q..];
      WriteBytes(d, base, bytes[..512 * q])[base + q := last + ReadBlock(d, base + q)[|last|..]]
  }

  lemma {:induction false} WriteBytesElsewhere(d: Disk, base: nat, bytes: seq<Byte>, n: nat)
    requires !(base <= n < base + BlockCount(|bytes|))
    ensures ReadBlock(WriteBytes(d, base, bytes), n) == ReadBlock(d, n)
    decreases |bytes|
  {
    if bytes != [] {
      WriteBytesElsewhere(d, base, bytes[..512 * FullBefore(bytes)], n);
    }
  }

  lemma {:induction false} ImageAgrees(d: Disk, d': Disk, base: nat, n: nat)
    requires forall k :: base <= k < base + n ==> ReadBlock(d, k) == ReadBlock(d', k)
    ensures Image(d, base, n) == Image(d', base, n)
  {
    if n > 0 {
      ImageAgrees(d, d', base, n - 1);
    }
  }

  lemma PayloadAgrees(d: Disk, d': Disk, base: nat, len: nat)
    requires forall k :: base <= k < base + BlockCount(len) ==> ReadBlock(d, k) == ReadBlock(d', k)
    ensures Payload(d, base, len) == Payload(d', base, len)
  {
    ImageAgrees(d, d', base, BlockCount(len));
  }

  lemma LastBlock(d: Disk, base: nat, q: nat, first: seq<Byte>, last: seq<Byte>, tail: seq<Byte>)
    requires |first| == 512 * q && Payload(d, base, 512 * q) == first
    requires 0 < |last| && |last| + |tail| == 512
    ensures Payload(d[base + q := last + tail], base, |first| + |last|) == first + last
  {
    var d' := d[base + q := last + tail];
    ImageAgrees(d, d', base, q);
    assert Image(d', base, q) == first;
    assert Image(d', base, q + 1) == first + (last + tail);
  }

  /** What was written is read back. */
  lemma {:induction false} WrittenIsRead(d: Disk, base: nat, bytes: seq<Byte>)
    ensures Payload(WriteBytes(d, base, bytes), base, |bytes|) == bytes
    decreases |bytes|
  {
    hide Payload, BlockCount, ReadBlock;
    if bytes != [] {
      var q := FullBefore(bytes);
      var first, last := bytes[..512 * q], bytes[512 * q..];
      WrittenIsRead(d, base, first);
      LastBlock(WriteBytes(d, base, first), base, q, first, last, ReadBlock(d, base + q)[|last|..]);
      assert bytes == first + last;
    }
  }

  // ---------------------------------------------------------------- the seed command

  datatype SeedResult = Exit(code: nat) | PackError | IoError

  function RecordForA(kernel: seq<Byte>): SlotState
    requires |kernel| <= SLOT_SIZE_BYTES
  {
    SlotState(1, 0, 0, 0, 0, DEFAULT_BOOTLIMIT, 1, 0, |kernel|, 0, Sha256Spec.Sha256(kernel), Zeros(32))
  }

  function RecordForB(existing: SlotState, kernel: seq<Byte>): SlotState
    requires |kernel| <= SLOT_SIZE_BYTES && existing.generation < U32_MAX
  {
    existing.(generation := existing.generation + 1, activeSlot := 1, attemptCount := 0, slotBReady := 1,
              slotBLen := |kernel|, slotBSha256 := Sha256Spec.Sha256(kernel), lastResetReason := 0)
  }

  /** How a seed ends. A generation that no longer fits makes the packing raise. */
  function SeedEnds(d: Disk, slot: Slot, kernel: seq<Byte>): SeedResult {
    if |kernel| > SLOT_SIZE_BYTES then Exit(1)
    else if slot.A? then Exit(0)
    else match Selected(d)
      case None => Exit(1)
      case Some(c) =>
        if c.state.slotAReady == 0 then Exit(1)
        else if c.state.generation == U32_MAX then PackError
        else Exit(0)
  }

  function SeededRecord(d: Disk, slot: Slot, kernel: seq<Byte>): SlotState
    requires SeedEnds(d, slot, kernel) == Exit(0)
  {
    if slot.A? then RecordForA(kernel) else RecordForB(Selected(d).value.state, kernel)
  }

  function Installed(d: Disk, slot: Slot, kernel: seq<Byte>, record: Block): Disk {
    WriteBytes(d, SlotBase(slot), kernel)[SLOT_STATE_BLOCK_A := record][SLOT_STATE_BLOCK_B := record]
  }

  function Seeded(d: Disk, slot: Slot, kernel: seq<Byte>): Disk
    requires SeedEnds(d, slot, kernel) == Exit(0)
  {
    Installed(d, slot, kernel, PackState(SeededRecord(d, slot, kernel)))
  }

  predicate InSlot(n: nat, slot: Slot) {
    SlotBase(slot) <= n < SlotBase(slot) + SLOT_SIZE_BLOCKS
  }

  /** A seed writes the two records and its own slot, and nothing else on the card. */
  lemma SeedElsewhere(d: Disk, slot: Slot, kernel: seq<Byte>, n: nat)
    requires SeedEnds(d, slot, kernel) == Exit(0)
    requires n != SLOT_STATE_BLOCK_A && n != SLOT_STATE_BLOCK_B
    requires !InSlot(n, slot)
    ensures ReadBlock(Seeded(d, slot, kernel), n) == ReadBlock(d, n)
  {
    hide PackState, WriteBytes, SeededRecord, Selected;
    WriteBytesElsewhere(d, SlotBase(slot), kernel, n);
  }

  /** After a seed both copies hold the new record, and the slot holds the kernel. */
  lemma SeedTakesEffect(d: Disk, slot: Slot, kernel: seq<Byte>)
    requires SeedEnds(d, slot, kernel) == Exit(0)
    ensures var d' := Seeded(d, slot, kernel);
            && RecordIn(d', CopyA) == RecordIn(d', CopyB) == Some(SeededRecord(d, slot, kernel))
            && Selected(d') == Some(Choice(SeededRecord(d, slot, kernel), CopyA))
            && Payload(d', SlotBase(slot), |kernel|) == kernel
  {
    hide PackState, UnpackState, SeededRecord, SeedEnds, Installed, Payload;
    var record := SeededRecord(d, slot, kernel);
    RoundTrip(record);
    InstalledBlocks(d, slot, kernel, PackState(record));
  }

  /** The blocks of a freshly written card. */
  lemma InstalledBlocks(d: Disk, slot: Slot, kernel: seq<Byte>, record: Block)
    ensures var d' := Installed(d, slot, kernel, record);
            && ReadBlock(d', SLOT_STATE_BLOCK_A) == ReadBlock(d', SLOT_STATE_BLOCK_B) == record
            && Payload(d', SlotBase(slot), |kernel|) == kernel
  {
    hide WriteBytes, Payload, BlockCount;
    WrittenIsRead(d, SlotBase(slot), kernel);
    PayloadAgrees(WriteBytes(d, SlotBase(slot), kernel), Installed(d, slot, kernel, record), SlotBase(slot), |kernel|);
  }

  /** Seeding slot B leaves slot A as it was: its fields, and every one of its blocks. */
  lemma SeedBKeepsA(d: Disk, kernel: seq<Byte>)
    requires SeedEnds(d, B, kernel) == Exit(0)
    ensures Selected(d).Some? && Selected(Seeded(d, B, kernel)).Some?
    ensures var s, t := Selected(d).value.state, Selected(Seeded(d, B, kernel)).value.state;
            && t.slotAReady == s.slotAReady != 0 && t.slotALen == s.slotALen && t.slotASha256 == s.slotASha256
            && t.bootlimit == s.bootlimit && t.preferredSlot == s.preferredSlot
            && t.activeSlot == 1 && t.attemptCount == 0 && t.generation == s.generation + 1
    ensures forall n :: InSlot(n, A) ==> ReadBlock(Seeded(d, B, kernel), n) == ReadBlock(d, n)
  {
    hide PackState, UnpackState, WriteBytes, Payload, Seeded, RecordIn;
    SeedTakesEffect(d, B, kernel);
    forall n | InSlot(n, A) ensures ReadBlock(Seeded(d, B, kernel), n) == ReadBlock(d, n) {
      SeedElsewhere(d, B, kernel, n);
    }
  }

  // ---------------------------------------------------------------- booting a seeded card

  lemma {:induction false} BootsElsewhere(d: Disk, es: seq<BootEvent>, n: nat)
    requires n != SLOT_STATE_BLOCK_A && n != SLOT_STATE_BLOCK_B
    ensures ReadBlock(RunBoots(d, es), n) == ReadBlock(d, n)
  {
    hide PackState, UnpackState, NextState, Choose;
    if es != [] {
      BootsElsewhere(d, es[..|es| - 1], n);
    }
  }

  /** What a boot with a working card makes of the selected record. */
  lemma WorkingBoot(d: Disk, env: Env)
    requires env.initOk && env.failing == {} && Selected(d).Some?
    ensures BootOutcome(d, env) == LoadOutcome(BootWrite(d, EventOf(env)), NextState(Selected(d).value.state), {})
    ensures forall n :: n != SLOT_STATE_BLOCK_A && n != SLOT_STATE_BLOCK_B
                        ==> ReadBlock(BootWrite(d, EventOf(env)), n) == ReadBlock(d, n)
  {
    hide PackState, UnpackState, NextState, LoadOutcome, Choose;
  }

  /** A load from a card that agrees on the slot's blocks. */
  lemma LoadAgrees(d: Disk, d': Disk, s: SlotState)
    requires forall n :: n != SLOT_STATE_BLOCK_A && n != SLOT_STATE_BLOCK_B ==> ReadBlock(d, n) == ReadBlock(d', n)
    ensures LoadOutcome(d, s, {}) == LoadOutcome(d', s, {})
  {
    hide Image, Sha256Spec.Sha256;
    if 1 <= Length(s) <= SLOT_SIZE_BYTES {
      PayloadAgrees(d, d', BaseBlock(s), Length(s));
    }
  }

  /** The first boot after a seed runs the seeded kernel, unless the kernel is empty. */
  lemma SeedThenBoot(d: Disk, slot: Slot, kernel: seq<Byte>, env: Env)
    requires SeedEnds(d, slot, kernel) == Exit(0)
    requires env.initOk && env.failing == {}
    ensures BootOutcome(Seeded(d, slot, kernel), env) ==
            if kernel == [] then Fault(0xDEAD0003) else Jump(if slot.A? then 0 else 1)
  {
    hide PackState, UnpackState, Image, Sha256Spec.Sha256, Seeded, Selected, BootWrite, Payload, SeedEnds, SeededRecord;
    hide LoadOutcome, NextState, BootOutcome;
    var d' := Seeded(d, slot, kernel);
    SeedTakesEffect(d, slot, kernel);
    WorkingBoot(d', env);
    LoadAgrees(BootWrite(d', EventOf(env)), d', NextState(SeededRecord(d, slot, kernel)));
    SeededLoads(d, d', slot, kernel);
  }

  /** The record that was seeded loads the kernel from every card that holds it in its slot. */
  lemma SeededLoads(d: Disk, d': Disk, slot: Slot, kernel: seq<Byte>)
    requires SeedEnds(d, slot, kernel) == Exit(0) && Payload(d', SlotBase(slot), |kernel|) == kernel
    ensures LoadOutcome(d', NextState(SeededRecord(d, slot, kernel)), {}) ==
            if kernel == [] then Fault(0xDEAD0003) else Jump(if slot.A? then 0 else 1)
  {
    hide Sha256Spec.Sha256, Selected, Payload, BlockCount;
    FirstBoot(SeededRecord(d, slot, kernel));
  }

  /** The first boot of a record with a fresh counter. */
  lemma FirstBoot(s: SlotState)
    requires s.attemptCount == 0 && s.lastResetReason == REASON_POWER_ON
    ensures var n := NextState(s);
            && n.activeSlot == s.activeSlot && n.lastResetReason == REASON_POWER_ON && SameContents(n, s)
  {
  }

  /** A card seeded for slot A never leaves slot A: whatever could not be read, and however each write
      ended, every later boot that finds a record is a boot of slot A. */
  lemma SeedAStaysOnA(d: Disk, kernel: seq<Byte>, es: seq<BootEvent>)
    requires SeedEnds(d, A, kernel) == Exit(0) && AllPlausible(es)
    ensures Selected(RunBoots(Seeded(d, A, kernel), es)).Some?
    ensures OnA(Selected(RunBoots(Seeded(d, A, kernel), es)).value.state)
    ensures forall e: BootEvent :: Visible(RunBoots(Seeded(d, A, kernel), es), e).Some? ==>
              OnA(NextState(Visible(RunBoots(Seeded(d, A, kernel), es), e).value.state))
  {
    hide PackState, UnpackState, Image, Sha256Spec.Sha256, Seeded, Selected, RunBoots, Payload, RecordIn, Visible, NextState;
    SeedTakesEffect(d, A, kernel);
    forall c: Copy ensures RecordIn(Seeded(d, A, kernel), c) == Some(RecordForA(kernel)) {
      assert c == CopyA || c == CopyB;
    }
    NotReadyNeverSelectedOnCard(Seeded(d, A, kernel), es, 0);
  }

  /** What a card seeded for slot A reports while no boot succeeds: power-on at the first boot, and from
      the second landed boot on a hang, with no slot to fall back to. */
  lemma SeedAReports(d: Disk, kernel: seq<Byte>, es: seq<BootEvent>, env: Env)
    requires |kernel| <= SLOT_SIZE_BYTES && AllReadBoth(es) && AllPlausible(es)
    requires 1 + LandedCount(es) <= U32_MAX
    requires env.initOk && env.failing == {}
    ensures BootOutcome(RunBoots(Seeded(d, A, kernel), es), env) ==
            if kernel == [] then Fault(0xDEAD0003) else Jump(if LandedCount(es) == 0 then 0 else 0x200)
  {
    hide PackState, UnpackState, Image, Sha256Spec.Sha256, Seeded, Selected, RunBoots, BootWrite, Payload;
    hide LoadOutcome, NextState, BootOutcome, After;
    var d1 := Seeded(d, A, kernel);
    var d2 := RunBoots(d1, es);
    var r, k := RecordForA(kernel), LandedCount(es);
    SeedTakesEffect(d, A, kernel);
    RunsAdvance(d1, es);
    WorkingBoot(d2, env);
    forall n | n != SLOT_STATE_BLOCK_A && n != SLOT_STATE_BLOCK_B ensures ReadBlock(d2, n) == ReadBlock(d1, n) {
      BootsElsewhere(d1, es, n);
    }
    LoadAgrees(BootWrite(d2, EventOf(env)), d1, NextState(After(r, k)));
    AfterOneMore(r, k);
    ReportedFromA(d1, kernel, k + 1);
  }

  lemma AfterOneMore(s: SlotState, k: nat)
    ensures After(s, k + 1) == NextState(After(s, k))
  {
  }

  /** The `k`-th boot of the record seeded for slot A, from a card that holds the kernel there. */
  lemma ReportedFromA(d: Disk, kernel: seq<Byte>, k: nat)
    requires |kernel| <= SLOT_SIZE_BYTES && Payload(d, SLOT_A_BASE_BLOCK, |kernel|) == kernel
    requires 1 <= k <= U32_MAX
    ensures LoadOutcome(d, After(RecordForA(kernel), k), {}) ==
            if kernel == [] then Fault(0xDEAD0003) else Jump(if k == 1 then 0 else 0x200)
  {
    hide Sha256Spec.Sha256, Payload, After, NextState;
    var r := RecordForA(kernel);
    OneSlotOnly(r, k);
    ContentsKept(r, k);
    LoadOutcomes(d, After(r, k), {});
  }

  /** Seed, then fallback: while slot B never succeeds, the card stays on B for as many boots as the
      limit in force, counting them, and the boot after that goes back to slot A. Boots whose record
      did not land do not count. */
  lemma SeedThenFallback(d: Disk, kernel: seq<Byte>, es: seq<BootEvent>)
    requires SeedEnds(d, B, kernel) == Exit(0) && AllReadBoth(es) && AllPlausible(es)
    requires var s := Selected(d).value.state;
             LandedCount(es) <= BootLimit(s) + 1 <= U32_MAX && s.generation + 1 + LandedCount(es) <= U32_MAX
    ensures Selected(RunBoots(Seeded(d, B, kernel), es)).Some?
    ensures var s, t := Selected(d).value.state, Selected(RunBoots(Seeded(d, B, kernel), es)).value.state;
            && (OnA(t) <==> LandedCount(es) == BootLimit(s) + 1)
            && t.attemptCount == (if OnA(t) then 0 else LandedCount(es))
            && SameContents(t, RecordForB(s, kernel))
  {
    hide PackState, UnpackState, Image, Sha256Spec.Sha256, Seeded, Selected, RunBoots, Payload, NextState, After;
    var s := Selected(d).value.state;
    var r := RecordForB(s, kernel);
    var k := LandedCount(es);
    SeedTakesEffect(d, B, kernel);
    RunsAdvance(Seeded(d, B, kernel), es);
    FailedBoots(r, k);
    ContentsKept(r, k);
    Turns(k, BootLimit(s));
  }

  lemma Turns(k: nat, limit: nat)
    requires k <= limit + 1
    ensures k / (limit + 1) == (if k == limit + 1 then 1 else 0)
    ensures k % (limit + 1) == (if k == limit + 1 then 0 else k)
  {
  }

  /** The fallback lands in a working kernel: if slot A could be trusted before B was seeded, then once
      slot B has used up its boots, the next boot that can read the card jumps to slot A, and reports
      an automatic fallback. */
  lemma FallbackBootsA(d: Disk, kernel: seq<Byte>, es: seq<BootEvent>, env: Env)
    requires SeedEnds(d, B, kernel) == Exit(0) && AllReadBoth(es) && AllPlausible(es)
    requires var s := Selected(d).value.state;
             && LandedCount(es) == BootLimit(s) < U32_MAX && s.generation + 1 + LandedCount(es) <= U32_MAX
             && Trusted(d, s.(activeSlot := 0))
    requires env.initOk && env.failing == {}
    ensures BootOutcome(RunBoots(Seeded(d, B, kernel), es), env) == Jump(REASON_AUTO_FALLBACK as int * 256)
  {
    hide PackState, UnpackState, Image, Payload, Sha256Spec.Sha256, Seeded, Selected, RunBoots, BootWrite, SeedEnds;
    hide NextState, LoadOutcome;
    SeedBKeepsA(d, kernel);
    SeedThenFallback(d, kernel, es);
    var s := Selected(d).value.state;
    var d1 := Seeded(d, B, kernel);
    var d2 := RunBoots(d1, es);
    var t := Selected(d2).value.state;
    WorkingBoot(d2, env);
    LoadAgrees(BootWrite(d2, EventOf(env)), d2, NextState(t));
    forall n | InSlot(n, A) ensures ReadBlock(d2, n) == ReadBlock(d, n) {
      BootsElsewhere(d1, es, n);
    }
    PayloadAgrees(d2, d, SLOT_A_BASE_BLOCK, s.slotALen);
    ReturnsToA(t);
    TrustedStill(d, d2, s.(activeSlot := 0), NextState(t));
  }

  lemma ReturnsToA(t: SlotState)
    requires !OnA(t) && t.slotAReady != 0 && t.attemptCount == BootLimit(t) < U32_MAX
    ensures var n := NextState(t);
            && n.activeSlot == 0 && n.lastResetReason == REASON_AUTO_FALLBACK
            && n.slotALen == t.slotALen && n.slotASha256 == t.slotASha256
  {
  }

  lemma TrustedStill(d: Disk, d': Disk, s: SlotState, t: SlotState)
    requires OnA(s) && OnA(t) && s.slotALen == t.slotALen && s.slotASha256 == t.slotASha256
    requires Trusted(d, s) && Payload(d, SLOT_A_BASE_BLOCK, s.slotALen) == Payload(d', SLOT_A_BASE_BLOCK, s.slotALen)
    ensures LoadOutcome(d', t, {}) == Jump(t.lastResetReason as int * 256 + t.activeSlot as int)
  {
    hide Payload, Sha256Spec.Sha256;
  }

  /** A card seeded for A and then for B: B is tried three times, and the fourth boot is back on A. */
  lemma SeedBothThenFallback(d: Disk, kernelA: seq<Byte>, kernelB: seq<Byte>, es: seq<BootEvent>, env: Env)
    requires 1 <= |kernelA| <= SLOT_SIZE_BYTES && |kernelB| <= SLOT_SIZE_BYTES
    requires AllReadBoth(es) && AllPlausible(es) && LandedCount(es) == 3
    requires env.initOk && env.failing == {}
    ensures SeedEnds(Seeded(d, A, kernelA), B, kernelB) == Exit(0)
    ensures BootOutcome(RunBoots(Seeded(Seeded(d, A, kernelA), B, kernelB), es), env) == Jump(0x300)
  {
    hide PackState, UnpackState, Image, Payload, Sha256Spec.Sha256, Seeded, Selected, RunBoots, BootWrite, RecordIn;
    hide NextState, LoadOutcome, BootOutcome;
    SeedTakesEffect(d, A, kernelA);
    FallbackBootsA(Seeded(d, A, kernelA), kernelB, es, env);
  }

  // ---------------------------------------------------------------- a seed that is cut short

  /** Where a seed of slot B was cut short, its writes taken in the order they are issued: while the
      kernel was written, which leaves some contents in the slot, or while one of the two records was. */
  datatype Cut = InKernel(left: Disk) | InCopyA(write: WriteOutcome) | InCopyB(write: WriteOutcome)

  ghost predicate PlausibleCut(d: Disk, cut: Cut) {
    match cut
    case InKernel(left) => forall n :: !InSlot(n, B) ==> ReadBlock(left, n) == ReadBlock(d, n)
    case InCopyA(write) => Plausible(write)
    case InCopyB(write) => Plausible(write)
  }

  /** The card after the cut. */
  function CutDisk(d: Disk, kernel: seq<Byte>, cut: Cut): Disk
    requires SeedEnds(d, B, kernel) == Exit(0)
  {
    match cut
    case InKernel(left) => left
    case InCopyA(write) => CutInA(d, kernel, PackState(SeededRecord(d, B, kernel)), write)
    case InCopyB(write) => CutInB(d, kernel, PackState(SeededRecord(d, B, kernel)), write)
  }

  function CutInA(d: Disk, kernel: seq<Byte>, record: Block, write: WriteOutcome): Disk {
    WriteBlock(WriteBytes(d, SLOT_B_BASE_BLOCK, kernel), SLOT_STATE_BLOCK_A, record, write)
  }

  function CutInB(d: Disk, kernel: seq<Byte>, record: Block, write: WriteOutcome): Disk {
    WriteBlock(WriteBytes(d, SLOT_B_BASE_BLOCK, kernel)[SLOT_STATE_BLOCK_A := record], SLOT_STATE_BLOCK_B, record, write)
  }

  /** The new record has reached the card. */
  predicate RecordLanded(cut: Cut) {
    cut.InCopyB? || (cut.InCopyA? && cut.write.Landed?)
  }

  /** The two copies after the cut. */
  lemma CutCopies(d: Disk, kernel: seq<Byte>, cut: Cut)
    requires SeedEnds(d, B, kernel) == Exit(0) && PlausibleCut(d, cut)
    ensures var d', record := CutDisk(d, kernel, cut), Some(SeededRecord(d, B, kernel));
            match cut
            case InKernel(_) => RecordIn(d', CopyA) == RecordIn(d, CopyA) && RecordIn(d', CopyB) == RecordIn(d, CopyB)
            case InCopyA(write) =>
              && RecordIn(d', CopyB) == RecordIn(d, CopyB)
              && RecordIn(d', CopyA) == (match write case Landed => record case Lost => RecordIn(d, CopyA) case Torn(_) => None)
            case InCopyB(write) =>
              && RecordIn(d', CopyA) == record
              && RecordIn(d', CopyB) == (match write case Landed => record case Lost => RecordIn(d, CopyB) case Torn(_) => None)
  {
    hide PackState, UnpackState, WriteBytes, SeededRecord, SeedEnds;
    RoundTrip(SeededRecord(d, B, kernel));
    WriteBytesElsewhere(d, SLOT_B_BASE_BLOCK, kernel, SLOT_STATE_BLOCK_A);
    WriteBytesElsewhere(d, SLOT_B_BASE_BLOCK, kernel, SLOT_STATE_BLOCK_B);
  }

  /** Which record is selected after the cut: the seeded one once it is on the card, the one before until
      then, and what copy B holds if copy A was torn. */
  lemma CutSelects(d: Disk, kernel: seq<Byte>, cut: Cut)
    requires SeedEnds(d, B, kernel) == Exit(0) && PlausibleCut(d, cut)
    ensures var d' := CutDisk(d, kernel, cut);
            if RecordLanded(cut) then Selected(d') == Some(Choice(SeededRecord(d, B, kernel), CopyA))
            else if cut.InCopyA? && cut.write.Torn? then
              Selected(d') == (if RecordIn(d, CopyB).None? then None else Some(Choice(RecordIn(d, CopyB).value, CopyB)))
            else Selected(d') == Selected(d)
  {
    hide PackState, UnpackState, RecordIn, CutDisk, SeededRecord, SeedEnds;
    CutCopies(d, kernel, cut);
    SeededIsNewest(d, kernel);
  }

  /** The new record is newer than both copies. */
  lemma SeededIsNewest(d: Disk, kernel: seq<Byte>)
    requires SeedEnds(d, B, kernel) == Exit(0)
    ensures RecordIn(d, CopyB).Some? ==> SeededRecord(d, B, kernel).generation >= RecordIn(d, CopyB).value.generation
  {
    hide PackState, UnpackState, RecordIn;
  }

  /** A cut leaves a valid record, if and only if it was not copy A that was torn while it held the only
      one; and it never touches slot A. */
  lemma CutKeepsRecord(d: Disk, kernel: seq<Byte>, cut: Cut)
    requires SeedEnds(d, B, kernel) == Exit(0) && PlausibleCut(d, cut)
    ensures HasRecord(CutDisk(d, kernel, cut)) <==> !(cut.InCopyA? && cut.write.Torn? && RecordIn(d, CopyB).None?)
    ensures forall n :: InSlot(n, A) ==> ReadBlock(CutDisk(d, kernel, cut), n) == ReadBlock(d, n)
  {
    hide PackState, UnpackState, WriteBytes, RecordIn, SeededRecord;
    hide SeedEnds;
    CutCopies(d, kernel, cut);
    SomeRecord(d, kernel);
    forall n | InSlot(n, A) ensures ReadBlock(CutDisk(d, kernel, cut), n) == ReadBlock(d, n) {
      WriteBytesElsewhere(d, SLOT_B_BASE_BLOCK, kernel, n) by {
        KernelFits(d, kernel);
      }
    }
  }

  lemma SomeRecord(d: Disk, kernel: seq<Byte>)
    requires SeedEnds(d, B, kernel) == Exit(0)
    ensures HasRecord(d)
  {
    hide UnpackState, RecordIn;
  }

  lemma KernelFits(d: Disk, kernel: seq<Byte>)
    requires SeedEnds(d, B, kernel) == Exit(0)
    ensures BlockCount(|kernel|) <= SLOT_SIZE_BLOCKS
  {
    hide Selected;
  }

  /** A load of slot A from a card that has the same slot A. */
  lemma LoadAAgrees(d: Disk, d': Disk, s: SlotState)
    requires OnA(s) && forall n :: InSlot(n, A) ==> ReadBlock(d, n) == ReadBlock(d', n)
    ensures LoadOutcome(d, s, {}) == LoadOutcome(d', s, {})
  {
    hide Image, Sha256Spec.Sha256;
    if 1 <= Length(s) <= SLOT_SIZE_BYTES {
      PayloadAgrees(d, d', BaseBlock(s), Length(s));
    }
  }

  /** The boot after the cut. Once the new record is on the card it runs the seeded kernel. Before that,
      a record that boots slot A does so exactly as it would have from the card before the seed. */
  lemma CutThenBoot(d: Disk, kernel: seq<Byte>, cut: Cut, env: Env)
    requires SeedEnds(d, B, kernel) == Exit(0) && PlausibleCut(d, cut)
    requires env.initOk && env.failing == {}
    ensures var d' := CutDisk(d, kernel, cut);
            && (RecordLanded(cut) ==> BootOutcome(d', env) == if kernel == [] then Fault(0xDEAD0003) else Jump(1))
            && (!RecordLanded(cut) && Selected(d').Some? && OnA(NextState(Selected(d').value.state)) ==>
                  BootOutcome(d', env) == LoadOutcome(d, NextState(Selected(d').value.state), {}))
            && (Selected(d').None? ==> BootOutcome(d', env) == Fault(0xDEAD0002))
  {
    hide PackState, UnpackState, Image, Payload, Sha256Spec.Sha256, Selected, BootWrite;
    hide SeedEnds, LoadOutcome, NextState, CutDisk;
    var d' := CutDisk(d, kernel, cut);
    CutSelects(d, kernel, cut);
    CutKeepsRecord(d, kernel, cut);
    if Selected(d').Some? {
      var s := NextState(Selected(d').value.state);
      WorkingBoot(d', env);
      LoadAgrees(BootWrite(d', EventOf(env)), d', s);
      if RecordLanded(cut) {
        CutLoadsKernel(d, kernel, cut);
      } else if OnA(s) {
        LoadAAgrees(d, d', s);
      }
    } else {
      NoRecordNoBoot(d', env);
    }
  }

  lemma NoRecordNoBoot(d: Disk, env: Env)
    requires env.initOk && env.failing == {} && Selected(d).None?
    ensures BootOutcome(d, env) == Fault(0xDEAD0002)
  {
    hide UnpackState, RecordIn, LoadOutcome, BootWrite;
  }

  lemma CutLoadsKernel(d: Disk, kernel: seq<Byte>, cut: Cut)
    requires SeedEnds(d, B, kernel) == Exit(0) && PlausibleCut(d, cut) && RecordLanded(cut)
    ensures LoadOutcome(CutDisk(d, kernel, cut), NextState(SeededRecord(d, B, kernel)), {}) ==
            if kernel == [] then Fault(0xDEAD0003) else Jump(1)
  {
    hide PackState, UnpackState, Image, Selected, Payload, WriteBytes, BlockCount, SeededRecord, NextState, LoadOutcome, SeedEnds;
    var d' := CutDisk(d, kernel, cut);
    WrittenIsRead(d, SLOT_B_BASE_BLOCK, kernel);
    PayloadAgrees(WriteBytes(d, SLOT_B_BASE_BLOCK, kernel), d', SLOT_B_BASE_BLOCK, |kernel|);
    SeededLoads(d, d', B, kernel);
  }

  // ---------------------------------------------------------------- the command itself

  /** The file or device the tool works on: its blocks, and its size in bytes. Blocks that were never
      written read as zeros. */
  class Target {
    var disk: Disk
    var size: nat
    const device: bool

    constructor (disk: Disk, size: nat, device: bool)
      ensures this.disk == disk && this.size == size && this.device == device
    {
      this.disk := disk;
      this.size := size;
      this.device := device;
    }

    /** Up to `length` bytes from block `base` on, fewer at the end of the file. */
    function ReadFile(base: nat, length: nat): (bytes: seq<Byte>)
      reads this
      ensures base * 512 + length <= size ==> bytes == Payload(disk, base, length)
    {
      var there := if size > base * 512 then size - base * 512 else 0;
      Payload(disk, base, if length < there then length else there)
    }

    /** The target reaches as far as the record copies, and as the kernel in its slot. A file is extended
        to both slots; a device is as large as it is. */
    predicate Holds(slot: Slot, kernel: seq<Byte>)
      reads this
    {
      !device || (size >= (SLOT_STATE_BLOCK_B + 1) * 512 && SlotBase(slot) * 512 + |kernel| <= size)
    }

    /** The second record copy can be looked for. */
    predicate Seekable()
      reads this
    {
      !device || size >= SLOT_STATE_BLOCK_B * 512
    }

    /** `cmd_seed`, on storage that keeps what is written: the check after the write always passes. On a
        device that is too small the write raises, and has changed nothing outside the slot. */
    method Seed(slot: Slot, kernel: seq<Byte>) returns (r: SeedResult)
      modifies this
      ensures r == if |kernel| <= SLOT_SIZE_BYTES && slot.B? && !old(Seekable()) then IoError
                   else if SeedEnds(old(disk), slot, kernel) == Exit(0) && !old(Holds(slot, kernel)) then IoError
                   else SeedEnds(old(disk), slot, kernel)
      ensures r == Exit(0) ==> disk == Seeded(old(disk), slot, kernel)
      ensures r == IoError ==> forall n :: !InSlot(n, slot) ==> ReadBlock(disk, n) == ReadBlock(old(disk), n)
      ensures r != Exit(0) && r != IoError ==> disk == old(disk)
      ensures size == if !device && |kernel| <= SLOT_SIZE_BYTES && old(size) < MIN_SIZE then MIN_SIZE else old(size)
    {
      hide PackState, UnpackState, WriteBytes, Payload, Sha256Spec.Sha256, RecordIn, Choose;
      if |kernel| > SLOT_SIZE_BYTES {
        return Exit(1);
      }
      var digest := Sha256Spec.Sha256(kernel);
      if !device && size < MIN_SIZE {
        size := MIN_SIZE;
      }
      var baseBlock := if slot.A? then SLOT_A_BASE_BLOCK else SLOT_B_BASE_BLOCK;
      var record: Block;
      if slot.B? {
        if device && size < SLOT_STATE_BLOCK_B * 512 {
          return IoError;
        }
        var existing := Selected(disk);
        if existing.None? {
          return Exit(1);
        }
        var state := existing.value.state;
        if state.slotAReady == 0 {
          return Exit(1);
        }
        if state.generation + 1 > U32_MAX {
          return PackError;
        }
        record := PackState(SlotState(state.generation + 1, 1, state.preferredSlot, 0, 0, state.bootlimit,
                                      state.slotAReady, 1, state.slotALen, |kernel|, state.slotASha256, digest));
      } else {
        record := PackState(SlotState(1, 0, 0, 0, 0, DEFAULT_BOOTLIMIT, 1, 0, |kernel|, 0, digest, Zeros(32)));
      }
      if device && (size < (SLOT_STATE_BLOCK_B + 1) * 512 || baseBlock * 512 + |kernel| > size) {
        WritePart(baseBlock, kernel);
        return IoError;
      }
      SeedTakesEffect(disk, slot, kernel);
      disk := WriteBytes(disk, baseBlock, kernel);
      disk := disk[SLOT_STATE_BLOCK_A := record];
      disk := disk[SLOT_STATE_BLOCK_B := record];
      var good := CheckSeed(slot, baseBlock, |kernel|, digest);
      r := Exit(if good then 0 else 1);
    }

    /** A write that raises: some part of the kernel may have reached the device. */
    method WritePart(baseBlock: nat, kernel: seq<Byte>)
      requires |kernel| <= SLOT_SIZE_BYTES
      modifies `disk
      ensures forall n: nat :: !(baseBlock <= n < baseBlock + SLOT_SIZE_BLOCKS) ==> ReadBlock(disk, n) == ReadBlock(old(disk), n)
    {
      var part :| 0 <= part <= |kernel|;
      forall n: nat | !(baseBlock <= n < baseBlock + SLOT_SIZE_BLOCKS)
        ensures ReadBlock(WriteBytes(disk, baseBlock, kernel[..part]), n) == ReadBlock(disk, n)
      {
        WriteBytesElsewhere(disk, baseBlock, kernel[..part], n);
      }
      disk := WriteBytes(disk, baseBlock, kernel[..part]);
    }

    /** The check after the write: the kernel and both records are read back. */
    method CheckSeed(slot: Slot, baseBlock: nat, length: nat, digest: Digest) returns (good: bool)
      ensures good <==>
              && Sha256Spec.Sha256(ReadFile(baseBlock, length)) == digest
              && RecordIn(disk, CopyA).Some? && StoredDigest(RecordIn(disk, CopyA).value, slot) == digest
              && RecordIn(disk, CopyB).Some? && StoredDigest(RecordIn(disk, CopyB).value, slot) == digest
    {
      hide UnpackState, Payload, Sha256Spec.Sha256;
      var kernelDigest := Sha256Spec.Sha256(ReadFile(baseBlock, length));
      var a, b := RecordIn(disk, CopyA), RecordIn(disk, CopyB);
      good := kernelDigest == digest;
      good := good && a.Some? && StoredDigest(a.value, slot) == digest;
      good := good && b.Some? && StoredDigest(b.value, slot) == digest;
    }

    /** `cmd_verify`. */
    method Verify() returns (code: nat)
      ensures code == 0 <==> Passes()
    {
      hide UnpackState, Payload, Sha256Spec.Sha256, RecordIn, Choose;
      var choice := Selected(disk);
      if choice.None? {
        return 1;
      }
      var state := choice.value.state;
      var bad := false;
      var slots := [A, B];
      for i := 0 to 2
        invariant bad <==> exists k :: 0 <= k < i && Ready(state, slots[k]) && !SlotVerified(state, slots[k])
      {
        if Ready(state, slots[i]) {
          var payload := ReadFile(SlotBase(slots[i]), StoredLength(state, slots[i]));
          var ok := Sha256Spec.Sha256(payload) == StoredDigest(state, slots[i]);
          bad := bad || !ok;
        }
      }
      assert slots[0] == A && slots[1] == B;
      code := if bad then 1 else 0;
    }

    predicate SlotVerified(s: SlotState, slot: Slot)
      reads this
    {
      Sha256Spec.Sha256(ReadFile(SlotBase(slot), StoredLength(s, slot))) == StoredDigest(s, slot)
    }

    /** What the command tests. */
    ghost predicate Passes()
      reads this
    {
      && Selected(disk).Some?
      && forall slot :: Ready(Selected(disk).value.state, slot) ==> SlotVerified(Selected(disk).value.state, slot)
    }

    /** A card freshly seeded for slot A passes, whatever slot B holds. */
    lemma SeededAPasses(d: Disk, kernel: seq<Byte>)
      requires size >= MIN_SIZE && SeedEnds(d, A, kernel) == Exit(0) && disk == Seeded(d, A, kernel)
      ensures Passes()
    {
      hide Payload, Sha256Spec.Sha256, Seeded, Selected, UnpackState, RecordIn;
      SeedTakesEffect(d, A, kernel);
    }

    /** A card freshly seeded for slot B passes exactly if its slot A, which the seed has left alone, has
        its recorded digest. */
    lemma SeededBPasses(d: Disk, kernel: seq<Byte>)
      requires size >= MIN_SIZE && SeedEnds(d, B, kernel) == Exit(0) && disk == Seeded(d, B, kernel)
      requires Selected(d).value.state.slotALen <= SLOT_SIZE_BYTES
      ensures var s := Selected(d).value.state;
              Passes() <==> Sha256Spec.Sha256(Payload(d, SLOT_A_BASE_BLOCK, s.slotALen)) == s.slotASha256
    {
      hide Payload, Sha256Spec.Sha256, Seeded, Selected, UnpackState, RecordIn;
      SeedTakesEffect(d, B, kernel);
      SeedBKeepsA(d, kernel);
      var s := Selected(d).value.state;
      PayloadAgrees(disk, d, SLOT_A_BASE_BLOCK, s.slotALen);
      var t := Selected(disk).value.state;
      assert Ready(t, A) && Ready(t, B) && SlotVerified(t, B);
      assert SlotVerified(t, A) <==> Sha256Spec.Sha256(Payload(d, SLOT_A_BASE_BLOCK, s.slotALen)) == s.slotASha256;
    }

    /** After a seed of slot A every kernel that fits can be seeded into slot B, and the card passes. */
    lemma SeedAThenB(d: Disk, kernelA: seq<Byte>, kernelB: seq<Byte>)
      requires size >= MIN_SIZE && SeedEnds(d, A, kernelA) == Exit(0) && |kernelB| <= SLOT_SIZE_BYTES
      ensures SeedEnds(Seeded(d, A, kernelA), B, kernelB) == Exit(0)
      ensures disk == Seeded(Seeded(d, A, kernelA), B, kernelB) ==> Passes()
    {
      hide Payload, Sha256Spec.Sha256, Seeded, Selected, UnpackState, RecordIn;
      SeedTakesEffect(d, A, kernelA);
      if disk == Seeded(Seeded(d, A, kernelA), B, kernelB) {
        SeededBPasses(Seeded(d, A, kernelA), kernelB);
      }
    }

    /** On a card of full size the tool and the loader agree about the active slot, except that the
        tool does not look at the length. */
    lemma VerifyAgreesWithLoader(s: SlotState)
      requires size >= MIN_SIZE
      ensures LoadOutcome(disk, s, {}).Jump? <==>
              1 <= Length(s) <= SLOT_SIZE_BYTES && SlotVerified(s, if OnA(s) then A else B)
    {
      hide Payload, Sha256Spec.Sha256;
    }
  }

  predicate Ready(s: SlotState, slot: Slot) {
    if slot.A? then s.slotAReady != 0 else s.slotBReady != 0
  }

  function StoredLength(s: SlotState, slot: Slot): nat {
    if slot.A? then s.slotALen else s.slotBLen
  }

  function StoredDigest(s: SlotState, slot: Slot): Digest {
    if slot.A? then s.slotASha256 else s.slotBSha256
  }
}

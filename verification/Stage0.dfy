/** The boot loader's main routine: select a record, count the attempt or fall back, write back, load
    the active slot, verify its digest, and jump. */
module Stage0 {
  import opened Options
  import opened Crc32
  import opened LittleEndian
  import opened SlotRecord
  import opened BootPolicy
  import opened PingPong
  import Sha256Spec
  import Sha256Stream

  const SLOT_A_BASE_BLOCK: nat := 10240
  const SLOT_B_BASE_BLOCK: nat := 22528
  const SLOT_SIZE_BLOCKS: nat := 12288
  const SLOT_SIZE_BYTES: nat := 6291456

  /** What a boot meets: whether the card comes up, which blocks cannot be read, and what becomes of
      the write-back. */
  datatype Env = Env(initOk: bool, failing: set<nat>, write: WriteOutcome)

  datatype Outcome = Fault(code: nat) | Jump(r0: nat)

  function EventOf(env: Env): BootEvent {
    BootEvent(SLOT_STATE_BLOCK_A !in env.failing, SLOT_STATE_BLOCK_B !in env.failing, env.write)
  }

  // ---------------------------------------------------------------- the active slot

  function BaseBlock(s: SlotState): nat {
    if OnA(s) then SLOT_A_BASE_BLOCK else SLOT_B_BASE_BLOCK
  }

  function Length(s: SlotState): U32 {
    if OnA(s) then s.slotALen else s.slotBLen
  }

  function ExpectedDigest(s: SlotState): Digest {
    if OnA(s) then s.slotASha256 else s.slotBSha256
  }

  function BlockCount(len: nat): nat {
    (len + 511) / 512
  }

  /** The contents of `n` consecutive blocks. */
  function Image(d: Disk, base: nat, n: nat): (bytes: seq<Byte>)
    ensures |bytes| == 512 * n
  {
    if n == 0 then [] else Image(d, base, n - 1) + ReadBlock(d, base + n - 1)
  }

  /** The first `len` bytes of the blocks from `base` on. */
  function Payload(d: Disk, base: nat, len: nat): (bytes: seq<Byte>)
    ensures |bytes| == len
  {
    Image(d, base, BlockCount(len))[..len]
  }

  predicate Readable(failing: set<nat>, base: nat, n: nat) {
    forall b :: b in failing ==> !(base <= b < base + n)
  }

  /** The conditions under which the loader trusts a slot. */
  predicate Trusted(d: Disk, s: SlotState) {
    1 <= Length(s) <= SLOT_SIZE_BYTES
    && Sha256Spec.Sha256(Payload(d, BaseBlock(s), Length(s))) == ExpectedDigest(s)
  }

  function LoadOutcome(d: Disk, s: SlotState, failing: set<nat>): Outcome {
    if Length(s) == 0 || Length(s) > SLOT_SIZE_BYTES then Fault(0xDEAD0003)
    else if !Readable(failing, BaseBlock(s), BlockCount(Length(s))) then Fault(0xDEAD0004)
    else if !Trusted(d, s) then Fault(0xDEAD0006)
    else Jump(s.lastResetReason as int * 256 + s.activeSlot as int)
  }

  /** The outcome of a boot from card `d`. */
  function BootOutcome(d: Disk, env: Env): Outcome {
    if !env.initOk then Fault(0xDEAD0001)
    else
      var c := Visible(d, EventOf(env));
      if c.None? then Fault(0xDEAD0002)
      else LoadOutcome(BootWrite(d, EventOf(env)), NextState(c.value.state), env.failing)
  }

  function DiskAfter(d: Disk, env: Env): Disk {
    if env.initOk then BootWrite(d, EventOf(env)) else d
  }

  function BlockRange(base: nat, n: nat): (r: seq<nat>)
    ensures |r| == n
  {
    seq(n, i requires 0 <= i < n => base + i)
  }

  /** Every block of a slot that can be loaded lies in that slot's own range, away from the records
      and from the other slot. */
  lemma SlotRangesApart(s: SlotState, n: nat)
    requires n in BlockRange(BaseBlock(s), BlockCount(Length(s))) && Length(s) <= SLOT_SIZE_BYTES
    ensures BaseBlock(s) <= n < BaseBlock(s) + SLOT_SIZE_BLOCKS
    ensures n != SLOT_STATE_BLOCK_A && n != SLOT_STATE_BLOCK_B
    ensures OnA(s) ==> n < SLOT_B_BASE_BLOCK
    ensures !OnA(s) ==> n >= SLOT_A_BASE_BLOCK + SLOT_SIZE_BLOCKS
  {
  }

  lemma NoBlocks(base: nat)
    ensures BlockRange(base, 0) == []
  {
  }

  lemma OneMoreBlock(base: nat, n: nat)
    ensures BlockRange(base, n + 1) == BlockRange(base, n) + [base + n]
  {
  }

  /** The loader's block count: the blocks cover the length, and fit where the length fits. */
  lemma BlocksCover(len: nat)
    requires len <= SLOT_SIZE_BYTES
    ensures (len + 512 - 1) / 512 == BlockCount(len) && len <= 512 * BlockCount(len) <= SLOT_SIZE_BYTES
  {
  }

  lemma PayloadOfImage(d: Disk, base: nat, len: nat, image: seq<Byte>)
    requires image == Image(d, base, BlockCount(len))
    ensures len <= |image| && Payload(d, base, len) == image[..len]
  {
  }

  /** The four ways a load can end. */
  lemma LoadOutcomes(d: Disk, s: SlotState, failing: set<nat>)
    ensures var o, inRange := LoadOutcome(d, s, failing), 1 <= Length(s) <= SLOT_SIZE_BYTES;
            var readable := Readable(failing, BaseBlock(s), BlockCount(Length(s)));
            var matching := Sha256Spec.Sha256(Payload(d, BaseBlock(s), Length(s))) == ExpectedDigest(s);
            && (!inRange ==> o == Fault(0xDEAD0003))
            && (inRange && !readable ==> o == Fault(0xDEAD0004))
            && (inRange && readable && !matching ==> o == Fault(0xDEAD0006))
            && (inRange && readable && matching ==> o == Jump(s.lastResetReason as int * 256 + s.activeSlot as int))
  {
    hide Sha256Spec.Sha256, Payload, Readable, BlockCount;
  }

  // ---------------------------------------------------------------- the loader

  class Loader {
    var disk: Disk
    /** The load area at 0x00200000. */
    const ram: array<Byte>
    const blockBuf: array<Byte>
    /** The blocks read so far, in order. */
    var readLog: seq<nat>

    predicate Valid()
      reads this
    {
      ram.Length == SLOT_SIZE_BYTES && blockBuf.Length == 512 && ram != blockBuf
    }

    constructor (card: Disk)
      ensures Valid() && disk == card && readLog == [] && fresh(ram) && fresh(blockBuf)
    {
      disk := card;
      ram := new Byte[SLOT_SIZE_BYTES](_ => 0);
      blockBuf := new Byte[512](_ => 0);
      readLog := [];
    }

    /** The card's block read; a block in `failing` cannot be read. */
    method ReadBlockInto(n: nat, failing: set<nat>) returns (rc: int)
      requires Valid()
      modifies `readLog, blockBuf
      ensures readLog == old(readLog) + [n]
      ensures rc == 0 <==> n !in failing
      ensures rc == 0 ==> blockBuf[..] == ReadBlock(disk, n)
    {
      readLog := readLog + [n];
      if n in failing {
        return -9;
      }
      var b := ReadBlock(disk, n);
      for i := 0 to 512
        invariant forall k :: 0 <= k < i ==> blockBuf[k] == b[k]
        modifies blockBuf
      {
        blockBuf[i] := b[i];
      }
      return 0;
    }

    /** One of the two record copies, if it can be read and parsed. */
    method ReadRecord(n: nat, failing: set<nat>) returns (r: Option<SlotState>)
      requires Valid()
      modifies `readLog, blockBuf
      ensures readLog == old(readLog) + [n]
      ensures r == if n in failing then None else UnpackState(ReadBlock(disk, n))
    {
      hide UnpackState;
      var rc := ReadBlockInto(n, failing);
      if rc != 0 {
        return None;
      }
      r := ParseSlotState(blockBuf);
    }

    /** The attempt counter, and the fallback to the other slot. */
    method CountAttempt(state: SlotState) returns (chosen: SlotState, fellBack: bool)
      ensures fellBack == FallsBack(state)
      ensures chosen == state.(attemptCount := if fellBack then 0 else Increment(state.attemptCount),
                               activeSlot := if fellBack then (if OnA(state) then 1 else 0) else state.activeSlot)
    {
      hide Increment;
      chosen := state;
      chosen := chosen.(attemptCount := Increment(chosen.attemptCount));
      fellBack := false;
      var bootlimit := if chosen.bootlimit != 0 then chosen.bootlimit else DEFAULT_BOOTLIMIT;
      if chosen.attemptCount > bootlimit {
        var otherReady := if chosen.activeSlot == 0 then chosen.slotBReady else chosen.slotAReady;
        if otherReady != 0 {
          chosen := chosen.(activeSlot := if chosen.activeSlot == 0 then 1 else 0);
          chosen := chosen.(attemptCount := 0);
          fellBack := true;
        }
      }
    }

    /** Attempt counter, fallback and reset reason, field by field. */
    method Advance(state: SlotState) returns (chosen: SlotState)
      ensures chosen == NextState(state)
    {
      hide FallsBack, Increment;
      var priorAttemptCount := state.attemptCount;
      var priorReason := state.lastResetReason;
      var fellBack: bool;
      chosen, fellBack := CountAttempt(state);
      if fellBack {
        chosen := chosen.(lastResetReason := REASON_AUTO_FALLBACK);
      } else if priorReason == REASON_CLEAN_REBOOT {
        chosen := chosen.(lastResetReason := REASON_CLEAN_REBOOT);
      } else if priorAttemptCount > 0 {
        chosen := chosen.(lastResetReason := REASON_WATCHDOG_OR_HANG);
      } else {
        chosen := chosen.(lastResetReason := REASON_POWER_ON);
      }
      chosen := chosen.(generation := Increment(chosen.generation));
    }

    /** The block loop: `n` blocks from `base` on into the load area. */
    method LoadBlocks(base: nat, n: nat, failing: set<nat>) returns (ok: bool)
      requires Valid() && 512 * n <= SLOT_SIZE_BYTES
      modifies `readLog, blockBuf, ram
      ensures ok <==> Readable(failing, base, n)
      ensures ok ==> ram[..512 * n] == Image(disk, base, n) && readLog == old(readLog) + BlockRange(base, n)
      ensures ram[512 * n..] == old(ram[512 * n..])
    {
      hide BlockRange, ReadBlock;
      NoBlocks(base);
      for i := 0 to n
        invariant Readable(failing, base, i)
        invariant ram[..512 * i] == Image(disk, base, i)
        invariant ram[512 * n..] == old(ram[512 * n..])
        invariant readLog == old(readLog) + BlockRange(base, i)
      {
        OneMoreBlock(base, i);
        var rc := ReadBlockInto(base + i, failing);
        if rc != 0 {
          return false;
        }
        ghost var before := ram[..];
        CopyBlock(512 * i);
        SplitRam(before, ram[..], i, n);
        assert ram[..512 * (i + 1)] == ram[..512 * i] + ram[512 * i..512 * (i + 1)];
      }
      ok := true;
    }

    lemma SplitRam(before: seq<Byte>, after: seq<Byte>, i: nat, n: nat)
      requires i < n && 512 * n <= |before| == |after|
      requires before[..512 * i] == after[..512 * i] && before[512 * i + 512..] == after[512 * i + 512..]
      ensures before[512 * n..] == after[512 * n..]
    {
      assert before[512 * n..] == before[512 * i + 512..][512 * (n - i - 1)..];
      assert after[512 * n..] == after[512 * i + 512..][512 * (n - i - 1)..];
    }

    /** The inner copy loop: the block buffer to `dest`. */
    method CopyBlock(dest: nat)
      requires Valid() && dest + 512 <= ram.Length
      modifies ram
      ensures ram[dest..dest + 512] == blockBuf[..]
      ensures ram[..dest] == old(ram[..dest]) && ram[dest + 512..] == old(ram[dest + 512..])
    {
      for b := 0 to 512
        invariant forall k :: 0 <= k < b ==> ram[dest + k] == blockBuf[k]
        invariant forall k :: 0 <= k < ram.Length && !(dest <= k < dest + b) ==> ram[k] == old(ram[k])
      {
        ram[dest + b] := blockBuf[b];
      }
    }

    /** The digest of the first `len` bytes of the load area, hashed in pieces of 256 KiB: the digest
        of one call over the whole string. */
    method HashLoaded(len: nat) returns (actual: array<Byte>)
      requires Valid() && len <= ram.Length
      ensures fresh(actual) && actual.Length == 32 && actual[..] == Sha256Spec.Sha256(ram[..len])
    {
      hide *;
      var shaChunk := 262144;
      var shaOff := 0;
      actual := new Byte[32](_ => 0);
      var ctx := new Sha256Stream.Sha256Ctx();
      assert ram[..0] == [];
      while shaOff < len
        invariant 0 <= shaOff <= len && ctx.Valid() && ctx.message == ram[..shaOff]
        invariant fresh(ctx) && fresh(ctx.h) && fresh(ctx.buf) && ctx.buf != actual
      {
        var thisLen := len - shaOff;
        if thisLen > shaChunk {
          thisLen := shaChunk;
        }
        ctx.Update(ram[shaOff..shaOff + thisLen]);
        assert ram[..shaOff] + ram[shaOff..shaOff + thisLen] == ram[..shaOff + thisLen];
        shaOff := shaOff + thisLen;
      }
      ctx.Finalize(actual);
    }

    /** The comparison loop. */
    method Matches(actual: array<Byte>, expected: Digest) returns (same: bool)
      requires actual.Length == 32
      ensures same <==> actual[..] == expected
    {
      for i := 0 to 32
        invariant actual[..i] == expected[..i]
      {
        if actual[i] != expected[i] {
          return false;
        }
      }
      assert actual[..] == actual[..32] && expected == expected[..32];
      return true;
    }

    /** Steps 5 and 6: load, verify, jump. */
    method LoadAndJump(chosen: SlotState, failing: set<nat>) returns (o: Outcome)
      requires Valid()
      modifies `readLog, blockBuf, ram
      ensures o == LoadOutcome(disk, chosen, failing)
      ensures o.Jump? ==>
                && 1 <= Length(chosen) <= SLOT_SIZE_BYTES
                && ram[..Length(chosen)] == Payload(disk, BaseBlock(chosen), Length(chosen))
                && Sha256Spec.Sha256(ram[..Length(chosen)]) == ExpectedDigest(chosen)
                && readLog == old(readLog) + BlockRange(BaseBlock(chosen), BlockCount(Length(chosen)))
    {
      hide Sha256Spec.Sha256, Image, Readable, BlockRange, LoadOutcome, Trusted, Payload, BlockCount;
      var baseBlock, lenBytes := SLOT_B_BASE_BLOCK, chosen.slotBLen;
      var expectSha256 := chosen.slotBSha256;
      if chosen.activeSlot == 0 {
        baseBlock, lenBytes, expectSha256 := SLOT_A_BASE_BLOCK, chosen.slotALen, chosen.slotASha256;
      }
      LoadOutcomes(disk, chosen, failing);
      if lenBytes == 0 || lenBytes > SLOT_SIZE_BYTES {
        return Fault(0xDEAD0003);
      }
      BlocksCover(lenBytes);
      var nblocks := (lenBytes + 512 - 1) / 512;
      var ok := LoadBlocks(baseBlock, nblocks, failing);
      if !ok {
        return Fault(0xDEAD0004);
      }
      PayloadOfImage(disk, baseBlock, lenBytes, ram[..512 * nblocks]);
      assert ram[..lenBytes] == ram[..512 * nblocks][..lenBytes];
      var actual := HashLoaded(lenBytes);
      var same := Matches(actual, expectSha256);
      if !same {
        return Fault(0xDEAD0006);
      }
      return Jump(chosen.lastResetReason as int * 256 + chosen.activeSlot as int);
    }

    /** `stage0_main`. */
    method Boot(env: Env) returns (o: Outcome)
      requires Valid()
      modifies this, blockBuf, ram
      ensures Valid()
      ensures o == BootOutcome(old(disk), env) && disk == DiskAfter(old(disk), env)
      ensures o.Jump? ==>
                var s := NextState(Visible(old(disk), EventOf(env)).value.state);
                && 1 <= Length(s) <= SLOT_SIZE_BYTES
                && ram[..Length(s)] == Payload(disk, BaseBlock(s), Length(s))
                && Sha256Spec.Sha256(ram[..Length(s)]) == ExpectedDigest(s)
                && readLog == old(readLog) + [SLOT_STATE_BLOCK_A, SLOT_STATE_BLOCK_B]
                            + BlockRange(BaseBlock(s), BlockCount(Length(s)))
    {
      hide UnpackState, PackState, LoadOutcome, NextState, Payload, BlockRange, Sha256Spec.Sha256;
      if !env.initOk {
        return Fault(0xDEAD0001);
      }
      var a := ReadRecord(SLOT_STATE_BLOCK_A, env.failing);
      var b := ReadRecord(SLOT_STATE_BLOCK_B, env.failing);
      var record, staleBlock := SelectRecord(a, b);
      if record.None? {
        return Fault(0xDEAD0002);
      }
      var chosen := Advance(record.value);
      BuildSlotState(chosen, blockBuf);
      disk := WriteBlock(disk, staleBlock, blockBuf[..], env.write);
      o := LoadAndJump(chosen, env.failing);
    }
  }
}

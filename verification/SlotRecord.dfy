/** The 512-byte slot-state record: the loader's in-place codec and the host tool's pack and unpack. */
module SlotRecord {
  import opened Options
  import opened Crc32
  import opened LittleEndian

  type Digest = d: seq<Byte> | |d| == 32 witness seq(32, _ => 0)
  type Block = b: seq<Byte> | |b| == 512 witness seq(512, _ => 0)

  datatype SlotState = SlotState(
    generation: U32, activeSlot: Byte, preferredSlot: Byte, lastResetReason: Byte,
    attemptCount: U32, bootlimit: U32, slotAReady: Byte, slotBReady: Byte,
    slotALen: U32, slotBLen: U32, slotASha256: Digest, slotBSha256: Digest)

  const MAGIC: U32 := 0x4448_5342

  // ---------------------------------------------------------------- the host tool's pack and unpack

  /** The first eight groups of a record: everything but the digests. */
  function Groups(s: SlotState): (g: seq<Quad>)
    ensures |g| == 8
  {
    [Le32(MAGIC), Le32(s.generation),
     [s.activeSlot, s.preferredSlot, s.lastResetReason, 0],
     Le32(s.attemptCount), Le32(s.bootlimit),
     [s.slotAReady, s.slotBReady, 0, 0],
     Le32(s.slotALen), Le32(s.slotBLen)]
  }

  /** The 96 bytes under the checksum. */
  function Body(s: SlotState): (b: seq<Byte>)
    ensures |b| == 96
  {
    Flatten(Groups(s)) + s.slotASha256 + s.slotBSha256
  }

  /** `pack_state`: the body, its checksum, and zeros up to a whole block. */
  function PackState(s: SlotState): Block {
    Body(s) + BytesOf(TableCrc(Body(s))) + Zeros(412)
  }

  /** The `k`-th group of four bytes of a block. */
  function GroupAt(raw: seq<Byte>, k: nat): Quad
    requires 4 * k + 4 <= |raw|
  {
    raw[4 * k..4 * k + 4]
  }

  /** The checksum register as an unsigned number. */
  function WordValue(w: Word): U32 {
    FromLe32(BytesOf(w))
  }

  /** `unpack_state`: the fields of a block with the right magic number and checksum. */
  function UnpackState(raw: seq<Byte>): Option<SlotState> {
    if |raw| < 100 then None
    else if FromLe32(GroupAt(raw, 0)) != MAGIC then None
    else if WordValue(TableCrc(raw[..96])) != FromLe32(GroupAt(raw, 24)) then None
    else Some(Fields(raw))
  }

  function Fields(raw: seq<Byte>): SlotState
    requires |raw| >= 100
  {
    SlotState(
      FromLe32(GroupAt(raw, 1)), GroupAt(raw, 2)[0], GroupAt(raw, 2)[1], GroupAt(raw, 2)[2],
      FromLe32(GroupAt(raw, 3)), FromLe32(GroupAt(raw, 4)), GroupAt(raw, 5)[0], GroupAt(raw, 5)[1],
      FromLe32(GroupAt(raw, 6)), FromLe32(GroupAt(raw, 7)), raw[32..64], raw[64..96])
  }

  /** A block passes the checks: magic number, and checksum over the first 96 bytes. */
  predicate WellFormed(raw: seq<Byte>) {
    |raw| >= 100 && GroupAt(raw, 0) == Le32(MAGIC) && GroupAt(raw, 24) == BytesOf(Crc(raw[..96]))
  }

  lemma UnpacksWhenWellFormed(raw: seq<Byte>)
    ensures UnpackState(raw) == if WellFormed(raw) then Some(Fields(raw)) else None
  {
    if |raw| >= 100 {
      FromTo(MAGIC);
      TableAgrees(raw[..96]);
      FromInjective(GroupAt(raw, 24), BytesOf(Crc(raw[..96])));
    }
  }

  lemma PackLayout(s: SlotState)
    ensures var p := PackState(s);
            && p[..96] == Body(s) && p[96..100] == BytesOf(Crc(Body(s))) && p[100..] == Zeros(412)
            && p[..32] == Flatten(Groups(s)) && p[32..64] == s.slotASha256 && p[64..96] == s.slotBSha256
  {
    TableAgrees(Body(s));
  }

  lemma PackedGroup(s: SlotState, k: nat)
    requires k < 8
    ensures GroupAt(PackState(s), k) == Groups(s)[k]
  {
    PackLayout(s);
    FlattenAt(Groups(s), k);
    assert GroupAt(PackState(s), k) == PackState(s)[..32][4 * k..4 * k + 4];
  }

  lemma MagicBytes()
    ensures Le32(MAGIC) == [0x42, 0x53, 0x48, 0x44]
  {
    hide Le32, FromLe32;
    var b: Quad := [0x42, 0x53, 0x48, 0x44];
    FromLe32Bytes(b);
    FromTo(MAGIC);
    FromInjective(Le32(MAGIC), b);
  }

  lemma GroupBytes(p: Block, k: nat)
    requires k < 128
    ensures GroupAt(p, k) == p[4 * k..4 * k + 4]
    ensures GroupAt(p, k)[0] == p[4 * k] && GroupAt(p, k)[1] == p[4 * k + 1]
    ensures GroupAt(p, k)[2] == p[4 * k + 2] && GroupAt(p, k)[3] == p[4 * k + 3]
  {
  }

  /** Where everything is in a packed record, byte by byte. */
  lemma PackedBytes(s: SlotState)
    ensures var p := PackState(s);
            && p[0..4] == [0x42, 0x53, 0x48, 0x44] && p[4..8] == Le32(s.generation)
            && p[8] == s.activeSlot && p[9] == s.preferredSlot && p[10] == s.lastResetReason && p[11] == 0
            && p[12..16] == Le32(s.attemptCount) && p[16..20] == Le32(s.bootlimit)
            && p[20] == s.slotAReady && p[21] == s.slotBReady && p[22] == p[23] == 0
            && p[24..28] == Le32(s.slotALen) && p[28..32] == Le32(s.slotBLen)
            && p[32..64] == s.slotASha256 && p[64..96] == s.slotBSha256
            && p[96..100] == BytesOf(Crc(p[..96])) && p[100..] == Zeros(412)
  {
    hide PackState, Le32, GroupAt, Crc, BytesOf, Body, Flatten;
    var p := PackState(s);
    MagicBytes();
    PackLayout(s);
    forall k: nat | k < 8 ensures GroupAt(p, k) == Groups(s)[k] {
      PackedGroup(s, k);
    }
    GroupBytes(p, 0);
    GroupBytes(p, 1);
    GroupBytes(p, 2);
    GroupBytes(p, 3);
    GroupBytes(p, 4);
    GroupBytes(p, 5);
    GroupBytes(p, 6);
    GroupBytes(p, 7);
  }

  /** The fields can be read off the groups. */
  lemma FieldsFromGroups(raw: seq<Byte>, s: SlotState)
    requires |raw| >= 100 && raw[32..64] == s.slotASha256 && raw[64..96] == s.slotBSha256
    requires forall k :: 0 <= k < 8 ==> GroupAt(raw, k) == Groups(s)[k]
    ensures Fields(raw) == s
  {
    FromTo(s.generation);
    FromTo(s.attemptCount);
    FromTo(s.bootlimit);
    FromTo(s.slotALen);
    FromTo(s.slotBLen);
    assert GroupAt(raw, 1) == Groups(s)[1] && GroupAt(raw, 2) == Groups(s)[2] && GroupAt(raw, 3) == Groups(s)[3];
    assert GroupAt(raw, 4) == Groups(s)[4] && GroupAt(raw, 5) == Groups(s)[5];
    assert GroupAt(raw, 6) == Groups(s)[6] && GroupAt(raw, 7) == Groups(s)[7];
  }

  /** The round trip: every state survives packing. */
  lemma RoundTrip(s: SlotState)
    ensures UnpackState(PackState(s)) == Some(s)
  {
    var p := PackState(s);
    PackLayout(s);
    forall k: nat | k < 8 ensures GroupAt(p, k) == Groups(s)[k] {
      PackedGroup(s, k);
    }
    FieldsFromGroups(p, s);
    UnpacksWhenWellFormed(p);
  }

  /** The bytes a packed record leaves zero. */
  predicate ReservedZero(raw: Block) {
    GroupAt(raw, 2)[3] == 0 && GroupAt(raw, 5)[2] == 0 && GroupAt(raw, 5)[3] == 0 && raw[100..] == Zeros(412)
  }

  lemma GroupsOfFields(raw: Block, k: nat)
    requires WellFormed(raw) && ReservedZero(raw) && k < 8
    ensures GroupAt(raw, k) == Groups(Fields(raw))[k]
  {
    hide Le32, FromLe32, Crc;
  }

  /** A block is the packed form of a state exactly when it unpacks to it with its reserved bytes zero. */
  lemma PackedExactly(raw: Block, s: SlotState)
    ensures raw == PackState(s) <==> UnpackState(raw) == Some(s) && ReservedZero(raw)
  {
    hide Le32, Flatten, Crc, TableCrc, BytesOf, Fields, UnpackState;
    if raw == PackState(s) {
      RoundTrip(s);
      PackLayout(s);
      PackedGroup(s, 2);
      PackedGroup(s, 5);
    }
    if UnpackState(raw) == Some(s) && ReservedZero(raw) {
      UnpacksWhenWellFormed(raw);
      UnpackedIsPacked(raw);
    }
  }

  lemma UnpackedIsPacked(raw: Block)
    requires WellFormed(raw) && ReservedZero(raw)
    ensures raw == PackState(Fields(raw))
  {
    hide Fields, Body, Crc, TableCrc, BytesOf, Le32;
    BodyOfFields(raw);
    TableAgrees(raw[..96]);
    assert raw == raw[..96] + GroupAt(raw, 24) + raw[100..];
  }

  lemma BodyOfFields(raw: Block)
    requires WellFormed(raw) && ReservedZero(raw)
    ensures raw[..96] == Body(Fields(raw))
  {
    hide Crc, TableCrc, BytesOf, Le32, FromLe32, Groups, Flatten, Body;
    HeadOfFields(raw);
    BodyFromParts(Fields(raw), raw);
  }

  lemma HeadOfFields(raw: Block)
    requires WellFormed(raw) && ReservedZero(raw)
    ensures raw[..32] == Flatten(Groups(Fields(raw)))
  {
    var g, h := Groups(Fields(raw)), raw[..32];
    forall k | 0 <= k < 8 ensures h[4 * k..4 * k + 4] == g[k] {
      GroupsOfFields(raw, k);
      assert h[4 * k..4 * k + 4] == GroupAt(raw, k);
    }
    FlattenUnique(g, h);
  }

  lemma BodyFromParts(s: SlotState, raw: seq<Byte>)
    requires |raw| >= 96 && raw[..32] == Flatten(Groups(s)) && raw[32..64] == s.slotASha256 && raw[64..96] == s.slotBSha256
    ensures raw[..96] == Body(s)
  {
    assert raw[..96] == raw[..32] + raw[32..64] + raw[64..96];
  }

  /** Burst detection: a block that unpacks, altered inside any four consecutive of its first 100
      bytes, never unpacks again. */
  lemma BurstRejected(raw: Block, raw': Block, at: nat)
    requires UnpackState(raw).Some? && at + 4 <= 100
    requires DifferInFour(raw, raw', at)
    ensures UnpackState(raw') == None
  {
    hide Le32, FromLe32, Crc, BytesOf, UnpackState, Fields;
    UnpacksWhenWellFormed(raw);
    UnpacksWhenWellFormed(raw');
    DifferInRecord(raw, raw', at);
    assert raw[..100] == raw[..96] + GroupAt(raw, 24) && raw'[..100] == raw'[..96] + GroupAt(raw', 24);
    ProtectedBurstDetected(raw[..96], GroupAt(raw, 24), raw'[..96], GroupAt(raw', 24), at);
  }

  lemma DifferInRecord(raw: Block, raw': Block, at: nat)
    requires at + 4 <= 100 && DifferInFour(raw, raw', at)
    ensures DifferInFour(raw[..100], raw'[..100], at)
  {
    var k :| 0 <= k < 512 && raw[k] != raw'[k];
    assert raw[..100][k] != raw'[..100][k];
  }

  // ---------------------------------------------------------------- the loader's codec

  /** `parse_slot_state`: the loader accepts the same blocks as the host tool, with the same fields. */
  method ParseSlotState(raw: array<Byte>) returns (parsed: Option<SlotState>)
    requires raw.Length == 512
    ensures parsed == UnpackState(raw[..])
  {
    hide Fields, Crc, TableCrc, BytesOf, FromLe32;
    forall k: nat | k < 25 ensures GroupAt(raw[..], k) == raw[4 * k..4 * k + 4] {
    }
    var magic := ReadU32Le(raw, 0);
    var crcStored := ReadU32Le(raw, 96);
    assert GroupAt(raw[..], 0) == raw[0..4] && GroupAt(raw[..], 24) == raw[96..100];
    if magic != 0x4448_5342 {
      return None;
    }
    var crcActual := Crc32Bytes(raw, 96);
    assert raw[..96] == raw[..][..96];
    TableAgrees(raw[..96]);
    if WordValue(crcActual) != crcStored {
      return None;
    }
    var state := ReadFields(raw);
    return Some(state);
  }

  method ReadFields(raw: array<Byte>) returns (s: SlotState)
    requires raw.Length == 512
    ensures s == Fields(raw[..])
  {
    hide FromLe32;
    var generation := ReadU32Le(raw, 4);
    var attemptCount := ReadU32Le(raw, 12);
    var bootlimit := ReadU32Le(raw, 16);
    var slotALen := ReadU32Le(raw, 24);
    var slotBLen := ReadU32Le(raw, 28);
    var a: seq<Byte>, b: seq<Byte> := [], [];
    for i := 0 to 32
      invariant a == raw[32..32 + i] && b == raw[64..64 + i]
    {
      a := a + [raw[32 + i]];
      b := b + [raw[64 + i]];
    }
    s := SlotState(generation, raw[8], raw[9], raw[10], attemptCount, bootlimit, raw[20], raw[21],
                   slotALen, slotBLen, a, b);
    ghost var all := raw[..];
    assert GroupAt(all, 1) == raw[4..8] && GroupAt(all, 3) == raw[12..16] && GroupAt(all, 4) == raw[16..20];
    assert GroupAt(all, 6) == raw[24..28] && GroupAt(all, 7) == raw[28..32];
    assert all[32..64] == a && all[64..96] == b;
  }

  /** `build_slot_state`: the loader writes the block the host tool would. */
  method BuildSlotState(s: SlotState, out: array<Byte>)
    requires out.Length == 512
    modifies out
    ensures out[..] == PackState(s)
  {
    hide Body, Groups, BytesOf, TableCrc, Crc, FromLe32;
    ClearBlock(out);
    WriteHeadLow(s, out);
    WriteHeadHigh(s, out);
    WriteDigests(s, out);
    var crc := Crc32Bytes(out, 96);
    TableAgrees(Body(s));
    WriteU32Le(out, 96, WordValue(crc));
    assert out[..][..96] == out[..96] && out[..][96..100] == out[96..100];
    PackedFromParts(s, out[..]);
  }

  method ClearBlock(out: array<Byte>)
    requires out.Length == 512
    modifies out
    ensures forall k :: 0 <= k < 512 ==> out[k] == 0
  {
    for i := 0 to 512
      invariant forall k :: 0 <= k < i ==> out[k] == 0
    {
      out[i] := 0;
    }
  }

  lemma PackedFromParts(s: SlotState, raw: Block)
    requires raw[..96] == Body(s) && raw[96..100] == BytesOf(TableCrc(Body(s)))
    requires forall k :: 100 <= k < 512 ==> raw[k] == 0
    ensures raw == PackState(s)
  {
    assert raw == raw[..96] + raw[96..100] + raw[100..];
    assert raw[100..] == Zeros(412);
  }

  /** The first `n` groups of the head are in place, and everything after them is zero. */
  ghost predicate HeadWritten(s: SlotState, out: seq<Byte>, n: nat)
    requires |out| == 512 && n <= 8
  {
    && (forall k :: 0 <= k < n ==> out[4 * k..4 * k + 4] == Groups(s)[k])
    && (forall k :: 4 * n <= k < 512 ==> out[k] == 0)
  }

  method WriteHeadLow(s: SlotState, out: array<Byte>)
    requires out.Length == 512 && forall k :: 0 <= k < 512 ==> out[k] == 0
    modifies out
    ensures HeadWritten(s, out[..], 4)
  {
    hide Le32;
    WriteU32Le(out, 0, 0x4448_5342);
    WriteU32Le(out, 4, s.generation);
    ghost var first := out[..8];
    out[8] := s.activeSlot;
    out[9] := s.preferredSlot;
    out[10] := s.lastResetReason;
    WriteU32Le(out, 12, s.attemptCount);
    assert out[..8] == first;
    LowGroups(s, first, out[..]);
  }

  lemma LowGroups(s: SlotState, first: seq<Byte>, out: Block)
    requires |first| == 8 && first[0..4] == Le32(MAGIC) && first[4..8] == Le32(s.generation) && out[..8] == first
    requires out[8] == s.activeSlot && out[9] == s.preferredSlot && out[10] == s.lastResetReason && out[11] == 0
    requires out[12..16] == Le32(s.attemptCount) && forall k :: 16 <= k < 512 ==> out[k] == 0
    ensures HeadWritten(s, out, 4)
  {
    hide Le32;
    assert out[0..4] == first[0..4] && out[4..8] == first[4..8];
    assert out[8..12] == Groups(s)[2];
  }

  method WriteHeadHigh(s: SlotState, out: array<Byte>)
    requires out.Length == 512 && HeadWritten(s, out[..], 4)
    modifies out
    ensures out[..32] == Flatten(Groups(s))
    ensures forall k :: 32 <= k < 512 ==> out[k] == 0
  {
    hide Le32, Flatten;
    ghost var low := out[..16];
    forall k | 0 <= k < 4 ensures low[4 * k..4 * k + 4] == Groups(s)[k] {
      assert low[4 * k..4 * k + 4] == out[..][4 * k..4 * k + 4];
    }
    WriteU32Le(out, 16, s.bootlimit);
    ghost var limit := out[16..20];
    out[20] := s.slotAReady;
    out[21] := s.slotBReady;
    WriteU32Le(out, 24, s.slotALen);
    ghost var lenA := out[24..28];
    WriteU32Le(out, 28, s.slotBLen);
    assert out[16..20] == limit && out[24..28] == lenA;
    assert out[20..24] == [s.slotAReady, s.slotBReady, 0, 0];
    ghost var h := out[..32];
    assert h[..16] == low;
    assert h[16..20] == out[16..20] && h[20..24] == out[20..24] && h[24..28] == out[24..28] && h[28..32] == out[28..32];
    HeadFromHalves(s, low, h);
  }

  lemma HeadFromHalves(s: SlotState, low: seq<Byte>, h: seq<Byte>)
    requires |h| == 32 && low == h[..16]
    requires forall k :: 0 <= k < 4 ==> low[4 * k..4 * k + 4] == Groups(s)[k]
    requires h[16..20] == Groups(s)[4] && h[20..24] == Groups(s)[5]
    requires h[24..28] == Groups(s)[6] && h[28..32] == Groups(s)[7]
    ensures h == Flatten(Groups(s))
  {
    hide Le32, Flatten;
    forall k | 0 <= k < 8 ensures h[4 * k..4 * k + 4] == Groups(s)[k] {
      if k < 4 {
        assert h[4 * k..4 * k + 4] == low[4 * k..4 * k + 4];
      }
    }
    FlattenUnique(Groups(s), h);
  }

  method WriteDigests(s: SlotState, out: array<Byte>)
    requires out.Length == 512 && out[..32] == Flatten(Groups(s))
    requires forall k :: 32 <= k < 512 ==> out[k] == 0
    modifies out
    ensures out[..96] == Body(s)
    ensures forall k :: 96 <= k < 512 ==> out[k] == 0
  {
    hide Groups, Flatten;
    ghost var head := out[..32];
    for i := 0 to 32
      invariant out[..32] == head
      invariant forall k :: 0 <= k < i ==> out[32 + k] == s.slotASha256[k] && out[64 + k] == s.slotBSha256[k]
      invariant forall k :: 96 <= k < 512 ==> out[k] == 0
    {
      out[32 + i] := s.slotASha256[i];
      out[64 + i] := s.slotBSha256[i];
    }
    assert out[32..64] == s.slotASha256 && out[64..96] == s.slotBSha256;
    assert out[..96][..32] == head && out[..96][32..64] == out[32..64] && out[..96][64..96] == out[64..96];
    BodyFromParts(s, out[..96]);
  }
}

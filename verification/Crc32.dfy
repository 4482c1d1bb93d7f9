/** The CRC-32 that guards the slot-state record: the boot loader's bit-by-bit loop, the table-driven
    form of section 8 of RFC 1952, and the errors it is certain to detect.

    Everything but the last section holds of any shift register `f` that is linear over GF(2),
    injective, and a plain shift when its low bit is clear; `BitStep` is such a register. */
module Crc32 {

  type Byte = bv8
  type Word = bv32

  function Zeros(n: nat): (z: seq<Byte>)
    ensures |z| == n && forall k :: 0 <= k < n ==> z[k] == 0
  {
    seq(n, _ => 0)
  }

  // ---------------------------------------------------------------- the register

  /** One step of the loader's inner loop. */
  function BitStep(crc: Word): Word {
    if crc & 1 == 1 then (crc >> 1) ^ 0xEDB8_8320 else crc >> 1
  }

  function Xor(x: Word, y: Word): Word {
    x ^ y
  }

  function Iterate(f: Word -> Word, x: Word, n: nat): Word {
    if n == 0 then x else f(Iterate(f, x, n - 1))
  }

  /** The register after one more byte: the outer loop's body. */
  function ByteStep(f: Word -> Word, crc: Word, b: Byte): Word {
    Iterate(f, Xor(crc, b as Word), 8)
  }

  /** The register after all of `data`, starting from `crc`. */
  function Run(f: Word -> Word, crc: Word, data: seq<Byte>): Word {
    if data == [] then crc else ByteStep(f, Run(f, crc, data[..|data| - 1]), data[|data| - 1])
  }

  function Crc(data: seq<Byte>): Word {
    Xor(Run(BitStep, 0xFFFF_FFFF, data), 0xFFFF_FFFF)
  }

  lemma RunSnoc(f: Word -> Word, crc: Word, data: seq<Byte>, b: Byte)
    ensures Run(f, crc, data + [b]) == ByteStep(f, Run(f, crc, data), b)
  {
    assert (data + [b])[..|data|] == data;
  }

  lemma {:induction false} RunConcat(f: Word -> Word, crc: Word, a: seq<Byte>, b: seq<Byte>)
    ensures Run(f, crc, a + b) == Run(f, Run(f, crc, a), b)
  {
    if b == [] {
      assert a + b == a;
    } else {
      var n := |b| - 1;
      RunConcat(f, crc, a, b[..n]);
      RunSnoc(f, crc, a + b[..n], b[n]);
      assert a + b == a + b[..n] + [b[n]];
    }
  }

  // ---------------------------------------------------------------- the loops

  /** The inner loop over one byte. */
  method UpdateByte(register: Word, b: Byte) returns (crc: Word)
    ensures crc == ByteStep(BitStep, register, b)
  {
    crc := register ^ (b as Word);
    for j := 0 to 8
      invariant crc == Iterate(BitStep, register ^ (b as Word), j)
    {
      if crc & 1 == 1 {
        crc := (crc >> 1) ^ 0xEDB8_8320;
      } else {
        crc := crc >> 1;
      }
    }
  }

  /** The loader's routine over the first `len` bytes of a buffer. */
  method Crc32Bytes(data: array<Byte>, len: nat) returns (crc: Word)
    requires len <= data.Length
    ensures crc == Crc(data[..len])
  {
    crc := 0xFFFF_FFFF;
    for i := 0 to len
      invariant crc == Run(BitStep, 0xFFFF_FFFF, data[..i])
    {
      RunSnoc(BitStep, 0xFFFF_FFFF, data[..i], data[i]);
      assert data[..i + 1] == data[..i] + [data[i]];
      crc := UpdateByte(crc, data[i]);
    }
    crc := crc ^ 0xFFFF_FFFF;
  }

  // ---------------------------------------------------------------- linear, injective, shifting

  predicate Even(x: Word) {
    x & 1 == 0
  }

  ghost predicate Linear(f: Word -> Word) {
    forall x, y {:trigger f(Xor(x, y))} :: f(Xor(x, y)) == Xor(f(x), f(y))
  }

  ghost predicate Injective(f: Word -> Word) {
    forall x, y :: f(x) == f(y) ==> x == y
  }

  ghost predicate Shifts(f: Word -> Word) {
    forall x {:trigger Even(x)} :: Even(x) ==> f(x) == x >> 1
  }

  // Facts about single words; the solver settles each of them bit by bit.

  lemma RawXorShift(x: Word, y: Word)
    ensures (x ^ y) >> 1 == (x >> 1) ^ (y >> 1)
  {
  }

  lemma RawXorLowBit(x: Word, y: Word)
    ensures (x ^ y) & 1 == (x & 1) ^ (y & 1)
    ensures x & 1 == 0 || x & 1 == 1
    ensures y & 1 == 0 || y & 1 == 1
  {
  }

  lemma RawXorMoves(x: Word, y: Word, p: Word)
    ensures (x ^ p) ^ y == (x ^ y) ^ p
    ensures x ^ (y ^ p) == (x ^ y) ^ p
    ensures (x ^ p) ^ (y ^ p) == x ^ y
  {
  }

  lemma RawLowBitsClear(x: Word)
    requires x & 0xFF == 0
    ensures x & 1 == 0 && (x >> 1) & 1 == 0 && (x >> 2) & 1 == 0 && (x >> 3) & 1 == 0
    ensures (x >> 4) & 1 == 0 && (x >> 5) & 1 == 0 && (x >> 6) & 1 == 0 && (x >> 7) & 1 == 0
  {
  }

  lemma RawShifts(x: Word)
    ensures (x >> 1) >> 1 == x >> 2 && (x >> 2) >> 1 == x >> 3 && (x >> 3) >> 1 == x >> 4
    ensures (x >> 4) >> 1 == x >> 5 && (x >> 5) >> 1 == x >> 6 && (x >> 6) >> 1 == x >> 7 && (x >> 7) >> 1 == x >> 8
  {
  }

  lemma RawSplit(x: Word)
    ensures (((x & 0xFF) as Byte) as Word) ^ (x & 0xFFFF_FF00) == x
    ensures (x & 0xFFFF_FF00) & 0xFF == 0
    ensures (x & 0xFFFF_FF00) >> 8 == x >> 8
  {
  }

  lemma RawByteIsLow(x: Word, b: Byte)
    ensures (x ^ (b as Word)) >> 8 == x >> 8
  {
  }

  lemma RawShiftedTwice(w: Word)
    ensures (w >> 8) >> 8 == w >> 16 && (w >> 16) >> 8 == w >> 24 && (w >> 24) >> 8 == 0
  {
  }

  // Exclusive or is a group operation.

  lemma XorAssoc(x: Word, y: Word, z: Word)
    ensures Xor(Xor(x, y), z) == Xor(x, Xor(y, z))
  {
  }

  lemma XorZero(x: Word)
    ensures Xor(x, 0) == x && Xor(0, x) == x
  {
  }

  lemma XorUndoes(x: Word, y: Word)
    ensures Xor(x, Xor(x, y)) == y
    ensures Xor(Xor(x, y), y) == x
  {
  }

  lemma XorCancels(c: Word, x: Word, y: Word)
    ensures Xor(c, x) == Xor(c, y) ==> x == y
    ensures Xor(x, c) == Xor(y, c) ==> x == y
  {
    XorUndoes(c, x);
    XorUndoes(c, y);
    XorUndoes(x, c);
    XorUndoes(y, c);
  }

  lemma StepLinear(x: Word, y: Word)
    ensures BitStep(x ^ y) == BitStep(x) ^ BitStep(y)
  {
    RawXorShift(x, y);
    RawXorLowBit(x, y);
    RawXorMoves(x >> 1, y >> 1, 0xEDB8_8320);
  }

  lemma StepInjective(x: Word, y: Word)
    ensures BitStep(x) == BitStep(y) ==> x == y
  {
  }

  /** The register of the record's checksum has all three properties. */
  lemma BitStepIsLinearAndInjective()
    ensures Linear(BitStep) && Injective(BitStep) && Shifts(BitStep)
  {
    forall x: Word, y: Word {:trigger Xor(x, y)} ensures BitStep(Xor(x, y)) == Xor(BitStep(x), BitStep(y)) {
      StepLinear(x, y);
    }
    forall x: Word, y: Word ensures BitStep(x) == BitStep(y) ==> x == y {
      StepInjective(x, y);
    }
  }

  lemma {:induction false} IterateLinear(f: Word -> Word, x: Word, y: Word, n: nat)
    requires Linear(f)
    ensures Iterate(f, Xor(x, y), n) == Xor(Iterate(f, x, n), Iterate(f, y, n))
  {
    if n > 0 {
      IterateLinear(f, x, y, n - 1);
    }
  }

  lemma {:induction false} IterateInjective(f: Word -> Word, x: Word, y: Word, n: nat)
    requires Injective(f) && Iterate(f, x, n) == Iterate(f, y, n)
    ensures x == y
  {
    if n > 0 {
      IterateInjective(f, x, y, n - 1);
    }
  }

  lemma {:induction false} IterateSplit(f: Word -> Word, x: Word, m: nat, n: nat)
    ensures Iterate(f, x, m + n) == Iterate(f, Iterate(f, x, m), n)
  {
    if n > 0 {
      IterateSplit(f, x, m, n - 1);
    }
  }

  /** Different registers stay different over the same bytes. */
  lemma {:induction false} RunInjective(f: Word -> Word, x: Word, y: Word, data: seq<Byte>)
    requires Injective(f) && Run(f, x, data) == Run(f, y, data)
    ensures x == y
  {
    if data != [] {
      var n := |data| - 1;
      ByteInjective(f, Run(f, x, data[..n]), Run(f, y, data[..n]), data[n]);
      RunInjective(f, x, y, data[..n]);
    }
  }

  lemma ByteInjective(f: Word -> Word, x: Word, y: Word, b: Byte)
    requires Injective(f) && ByteStep(f, x, b) == ByteStep(f, y, b)
    ensures x == y
  {
    IterateInjective(f, Xor(x, b as Word), Xor(y, b as Word), 8);
    XorCancels(b as Word, x, y);
  }

  // ---------------------------------------------------------------- the table-driven form

  lemma EightSteps(f: Word -> Word, x: seq<Word>)
    requires |x| == 9 && forall k :: 0 <= k < 8 ==> f(x[k]) == x[k + 1]
    ensures Iterate(f, x[0], 8) == x[8]
  {
    IterateAlong(f, x, 8);
  }

  lemma {:induction false} IterateAlong(f: Word -> Word, x: seq<Word>, n: nat)
    requires n < |x| && forall k :: 0 <= k < |x| - 1 ==> f(x[k]) == x[k + 1]
    ensures Iterate(f, x[0], n) == x[n]
  {
    if n > 0 {
      IterateAlong(f, x, n - 1);
    }
  }

  lemma ShiftsOut(f: Word -> Word, x: Word)
    requires Shifts(f) && x & 0xFF == 0
    ensures Iterate(f, x, 8) == x >> 8
  {
    RawLowBitsClear(x);
    RawShifts(x);
    assert Even(x) && Even(x >> 1) && Even(x >> 2) && Even(x >> 3);
    assert Even(x >> 4) && Even(x >> 5) && Even(x >> 6) && Even(x >> 7);
    EightSteps(f, [x, x >> 1, x >> 2, x >> 3, x >> 4, x >> 5, x >> 6, x >> 7, x >> 8]);
  }

  /** Bits that still sit above the low byte only shift down. */
  lemma FeedLater(f: Word -> Word, x: Word, y: Word)
    requires Linear(f) && Shifts(f) && y & 0xFF == 0
    ensures Iterate(f, Xor(x, y), 8) == Xor(Iterate(f, x, 8), y >> 8)
  {
    IterateLinear(f, x, y, 8);
    ShiftsOut(f, y);
  }

  /** The table of section 8 of RFC 1952. */
  function TableEntry(f: Word -> Word, n: Byte): Word {
    Iterate(f, n as Word, 8)
  }

  function LowByte(x: Word): Byte {
    (x & 0xFF) as Byte
  }

  /** The update of section 8 of RFC 1952. */
  function TableStep(f: Word -> Word, crc: Word, b: Byte): Word {
    Xor(TableEntry(f, LowByte(Xor(crc, b as Word))), crc >> 8)
  }

  function TableRun(f: Word -> Word, crc: Word, data: seq<Byte>): Word {
    if data == [] then crc else TableStep(f, TableRun(f, crc, data[..|data| - 1]), data[|data| - 1])
  }

  /** The CRC as the host tool's library computes it. */
  function TableCrc(data: seq<Byte>): Word {
    Xor(TableRun(BitStep, 0xFFFF_FFFF, data), 0xFFFF_FFFF)
  }

  /** A register is its low byte and the rest. */
  lemma LowByteAndRest(x: Word)
    ensures Xor(LowByte(x) as Word, x & 0xFFFF_FF00) == x
  {
    RawSplit(x);
  }

  lemma RestShifts(x: Word)
    ensures (x & 0xFFFF_FF00) & 0xFF == 0 && (x & 0xFFFF_FF00) >> 8 == x >> 8
  {
    RawSplit(x);
  }

  /** Eight steps act on the low byte; the rest only shifts. */
  lemma StepLowByte(f: Word -> Word, x: Word)
    requires Linear(f) && Shifts(f)
    ensures Iterate(f, x, 8) == Xor(TableEntry(f, LowByte(x)), x >> 8)
  {
    LowByteAndRest(x);
    RestShifts(x);
    FeedLater(f, LowByte(x) as Word, x & 0xFFFF_FF00);
  }

  lemma ByteIsLow(x: Word, b: Byte)
    ensures Xor(x, b as Word) >> 8 == x >> 8
  {
    RawByteIsLow(x, b);
  }

  /** The bit-by-bit update and the table-driven update agree. */
  lemma TableStepAgrees(f: Word -> Word, crc: Word, b: Byte)
    requires Linear(f) && Shifts(f)
    ensures TableStep(f, crc, b) == ByteStep(f, crc, b)
  {
    StepLowByte(f, Xor(crc, b as Word));
    ByteIsLow(crc, b);
  }

  lemma {:induction false} TableRunAgrees(f: Word -> Word, crc: Word, data: seq<Byte>)
    requires Linear(f) && Shifts(f)
    ensures TableRun(f, crc, data) == Run(f, crc, data)
  {
    if data != [] {
      TableRunAgrees(f, crc, data[..|data| - 1]);
      TableStepAgrees(f, Run(f, crc, data[..|data| - 1]), data[|data| - 1]);
    }
  }

  /** Both sides of the record compute the same checksum. */
  lemma TableAgrees(data: seq<Byte>)
    ensures TableCrc(data) == Crc(data)
  {
    BitStepIsLinearAndInjective();
    TableRunAgrees(BitStep, 0xFFFF_FFFF, data);
  }

  // ---------------------------------------------------------------- four bytes at a time

  /** Four bytes as one word, least significant first. */
  function WordOf(b: seq<Byte>): Word
    requires |b| == 4
  {
    (b[0] as Word) | ((b[1] as Word) << 8) | ((b[2] as Word) << 16) | ((b[3] as Word) << 24)
  }

  function BytesOf(w: Word): (b: seq<Byte>)
    ensures |b| == 4
  {
    [LowByte(w), LowByte(w >> 8), LowByte(w >> 16), LowByte(w >> 24)]
  }

  lemma WordBytes(w: Word)
    ensures WordOf(BytesOf(w)) == w
  {
  }

  lemma BytesWord(b: seq<Byte>)
    requires |b| == 4
    ensures BytesOf(WordOf(b)) == b
  {
    FourLowBytes(b[0], b[1], b[2], b[3]);
  }

  lemma FourLowBytes(a: Byte, b: Byte, c: Byte, d: Byte)
    ensures var w := (a as Word) | ((b as Word) << 8) | ((c as Word) << 16) | ((d as Word) << 24);
            LowByte(w) == a && LowByte(w >> 8) == b && LowByte(w >> 16) == c && LowByte(w >> 24) == d
  {
  }

  /** A word mixed into the register at once: its low byte is fed now, the rest only shifts. */
  lemma FeedLowByte(f: Word -> Word, r: Word, w: Word)
    requires Linear(f) && Shifts(f)
    ensures Iterate(f, Xor(r, w), 8) == Xor(ByteStep(f, r, LowByte(w)), w >> 8)
  {
    LowByteAndRest(w);
    RestShifts(w);
    XorAssoc(r, LowByte(w) as Word, w & 0xFFFF_FF00);
    FeedLater(f, Xor(r, LowByte(w) as Word), w & 0xFFFF_FF00);
  }

  lemma RunFour(f: Word -> Word, r: Word, a: Byte, b: Byte, c: Byte, d: Byte)
    ensures Run(f, r, [a, b, c, d]) == ByteStep(f, ByteStep(f, ByteStep(f, ByteStep(f, r, a), b), c), d)
  {
    RunSnoc(f, r, [a, b, c], d);
    RunSnoc(f, r, [a, b], c);
    RunSnoc(f, r, [a], b);
    RunSnoc(f, r, [], a);
    assert [a, b, c] + [d] == [a, b, c, d] && [a, b] + [c] == [a, b, c] && [a] + [b] == [a, b] && [] + [a] == [a];
  }

  lemma FourFeeds(f: Word -> Word, n: nat, x0: Word, x1: Word, x2: Word, x3: Word, x4: Word)
    requires Iterate(f, x0, n) == x1 && Iterate(f, x1, n) == x2 && Iterate(f, x2, n) == x3 && Iterate(f, x3, n) == x4
    ensures Iterate(f, x0, n + n + n + n) == x4
  {
    IterateSplit(f, x0, n, n);
    IterateSplit(f, x0, n + n, n);
    IterateSplit(f, x0, n + n + n, n);
  }

  /** Eight steps turn a register with `w` mixed in into one that took the byte `b`, with `w'` left to come. */
  ghost predicate Feeds(f: Word -> Word, w: Word, b: Byte, w': Word) {
    forall r {:trigger ByteStep(f, r, b)} :: Iterate(f, Xor(r, w), 8) == Xor(ByteStep(f, r, b), w')
  }

  lemma LowByteFeeds(f: Word -> Word, w: Word)
    requires Linear(f) && Shifts(f)
    ensures Feeds(f, w, LowByte(w), w >> 8)
  {
    forall r: Word {:trigger ByteStep(f, r, LowByte(w))}
      ensures Iterate(f, Xor(r, w), 8) == Xor(ByteStep(f, r, LowByte(w)), w >> 8)
    {
      FeedLowByte(f, r, w);
    }
  }

  lemma SecondByteFeeds(f: Word -> Word, w: Word)
    requires Linear(f) && Shifts(f)
    ensures Feeds(f, w >> 8, LowByte(w >> 8), w >> 16)
  {
    RawShiftedTwice(w);
    LowByteFeeds(f, w >> 8);
  }

  lemma ThirdByteFeeds(f: Word -> Word, w: Word)
    requires Linear(f) && Shifts(f)
    ensures Feeds(f, w >> 16, LowByte(w >> 16), w >> 24)
  {
    RawShiftedTwice(w);
    LowByteFeeds(f, w >> 16);
  }

  lemma FourthByteFeeds(f: Word -> Word, w: Word)
    requires Linear(f) && Shifts(f)
    ensures Feeds(f, w >> 24, LowByte(w >> 24), 0)
  {
    RawShiftedTwice(w);
    LowByteFeeds(f, w >> 24);
  }

  lemma FourBytesFeed(f: Word -> Word, r: Word, w0: Word, b0: Byte, w1: Word, b1: Byte, w2: Word, b2: Byte, w3: Word, b3: Byte)
    requires Feeds(f, w0, b0, w1) && Feeds(f, w1, b1, w2) && Feeds(f, w2, b2, w3) && Feeds(f, w3, b3, 0)
    ensures Run(f, r, [b0, b1, b2, b3]) == Iterate(f, Xor(r, w0), 8 + 8 + 8 + 8)
  {
    RunFour(f, r, b0, b1, b2, b3);
    var r1 := ByteStep(f, r, b0);
    var r2 := ByteStep(f, r1, b1);
    var r3 := ByteStep(f, r2, b2);
    var r4 := ByteStep(f, r3, b3);
    XorZero(r4);
    FourFeeds(f, 8, Xor(r, w0), Xor(r1, w1), Xor(r2, w2), Xor(r3, w3), r4);
  }

  /** Four byte updates are thirty-two steps of the register with the whole word mixed in at once. */
  lemma FourBytes(f: Word -> Word, r: Word, w: Word)
    requires Linear(f) && Shifts(f)
    ensures Run(f, r, BytesOf(w)) == Iterate(f, Xor(r, w), 8 + 8 + 8 + 8)
  {
    LowByteFeeds(f, w);
    SecondByteFeeds(f, w);
    ThirdByteFeeds(f, w);
    FourthByteFeeds(f, w);
    FourBytesFeed(f, r, w, LowByte(w), w >> 8, LowByte(w >> 8), w >> 16, LowByte(w >> 16), w >> 24, LowByte(w >> 24));
  }

  // ---------------------------------------------------------------- detection

  /** `a` and `b` differ, and only inside the four bytes from `at` on. */
  ghost predicate DifferInFour(a: seq<Byte>, b: seq<Byte>, at: nat) {
    && |a| == |b| && a != b
    && forall k :: 0 <= k < |a| && !(at <= k < at + 4) ==> a[k] == b[k]
  }

  lemma FourBytesInjective(f: Word -> Word, r: Word, x: seq<Byte>, y: seq<Byte>)
    requires Linear(f) && Shifts(f) && Injective(f)
    requires |x| == |y| == 4 && Run(f, r, x) == Run(f, r, y)
    ensures x == y
  {
    BytesWord(x);
    BytesWord(y);
    FourBytes(f, r, WordOf(x));
    FourBytes(f, r, WordOf(y));
    IterateInjective(f, Xor(r, WordOf(x)), Xor(r, WordOf(y)), 8 + 8 + 8 + 8);
    XorCancels(r, WordOf(x), WordOf(y));
  }

  /** So do fewer than four bytes, filled up with the same bytes. */
  lemma FewBytesInjective(f: Word -> Word, r: Word, x: seq<Byte>, y: seq<Byte>)
    requires Linear(f) && Shifts(f) && Injective(f)
    requires |x| == |y| <= 4 && Run(f, r, x) == Run(f, r, y)
    ensures x == y
  {
    var fill := Zeros(4 - |x|);
    RunConcat(f, r, x, fill);
    RunConcat(f, r, y, fill);
    FourBytesInjective(f, r, x + fill, y + fill);
    assert x == (x + fill)[..|x|] && y == (y + fill)[..|y|];
  }

  /** From any register, two strings that differ only inside four consecutive bytes leave different
      registers. */
  lemma BurstChangesRegister(f: Word -> Word, c: Word, a: seq<Byte>, b: seq<Byte>, at: nat)
    requires Linear(f) && Shifts(f) && Injective(f)
    requires DifferInFour(a, b, at)
    ensures Run(f, c, a) != Run(f, c, b)
  {
    var lo, hi := if at < |a| then at else |a|, if at + 4 < |a| then at + 4 else |a|;
    var front, tail := a[..lo], a[hi..];
    var x, y := a[lo..hi], b[lo..hi];
    assert a == front + x + tail && b == front + y + tail;
    var r := Run(f, c, front);
    RunConcat(f, c, front, x);
    RunConcat(f, c, front, y);
    RunConcat(f, c, front + x, tail);
    RunConcat(f, c, front + y, tail);
    if Run(f, c, a) == Run(f, c, b) {
      RunInjective(f, Run(f, r, x), Run(f, r, y), tail);
      FewBytesInjective(f, r, x, y);
    }
  }

  /** Burst detection: two strings of one length that differ only inside four consecutive bytes
      never have the same checksum. */
  lemma BurstDetected(a: seq<Byte>, b: seq<Byte>, at: nat)
    requires DifferInFour(a, b, at)
    ensures Crc(a) != Crc(b)
  {
    BitStepIsLinearAndInjective();
    BurstChangesRegister(BitStep, 0xFFFF_FFFF, a, b, at);
    XorCancels(0xFFFF_FFFF, Run(BitStep, 0xFFFF_FFFF, a), Run(BitStep, 0xFFFF_FFFF, b));
  }

  /** The register after the loader's starting value has been shifted through four times eight steps. */
  function GoodResidue(): Word {
    Run(BitStep, 0, BytesOf(0xFFFF_FFFF))
  }

  lemma ResidueWord(r: Word, w: Word)
    ensures Xor(r, w) == Xor(0, 0xFFFF_FFFF) <==> w == Xor(r, 0xFFFF_FFFF)
  {
    XorUndoes(r, w);
    XorUndoes(r, 0xFFFF_FFFF);
    XorUndoes(0, 0xFFFF_FFFF);
  }

  lemma ResidueOf(f: Word -> Word, r: Word, check: seq<Byte>)
    requires Linear(f) && Shifts(f) && Injective(f) && |check| == 4
    ensures Run(f, r, check) == Run(f, 0, BytesOf(0xFFFF_FFFF)) <==> check == BytesOf(Xor(r, 0xFFFF_FFFF))
  {
    var w := WordOf(check);
    BytesWord(check);
    WordBytes(Xor(r, 0xFFFF_FFFF));
    FourBytes(f, r, w);
    FourBytes(f, 0, 0xFFFF_FFFF);
    ResidueWord(r, w);
    if Run(f, r, check) == Run(f, 0, BytesOf(0xFFFF_FFFF)) {
      IterateInjective(f, Xor(r, w), Xor(0, 0xFFFF_FFFF), 8 + 8 + 8 + 8);
    }
  }

  /** A string followed by four bytes carries its own checksum in them exactly when the register
      ends at one fixed value. */
  lemma Residue(data: seq<Byte>, check: seq<Byte>)
    requires |check| == 4
    ensures check == BytesOf(Crc(data)) <==> Run(BitStep, 0xFFFF_FFFF, data + check) == GoodResidue()
  {
    BitStepIsLinearAndInjective();
    RunConcat(BitStep, 0xFFFF_FFFF, data, check);
    ResidueOf(BitStep, Run(BitStep, 0xFFFF_FFFF, data), check);
  }

  /** Burst detection for a string that carries its checksum: altering it inside any four
      consecutive bytes, the checksum included, always breaks the match. */
  lemma ProtectedBurstDetected(data: seq<Byte>, check: seq<Byte>, data': seq<Byte>, check': seq<Byte>, at: nat)
    requires |check| == |check'| == 4 && |data| == |data'| && check == BytesOf(Crc(data))
    requires DifferInFour(data + check, data' + check', at)
    ensures check' != BytesOf(Crc(data'))
  {
    Residue(data, check);
    Residue(data', check');
    BitStepIsLinearAndInjective();
    BurstChangesRegister(BitStep, 0xFFFF_FFFF, data + check, data' + check', at);
  }
}

/** Unsigned 32-bit numbers as four bytes, least significant first. */
module LittleEndian {
  import opened Crc32

  type U32 = x: int | 0 <= x < 0x1_0000_0000
  type Quad = b: seq<Byte> | |b| == 4 witness [0, 0, 0, 0]

  function Value(b: seq<Byte>): nat {
    if b == [] then 0 else b[0] as int + 256 * Value(b[1..])
  }

  /** As many digits of `v` as `like` is long. */
  function Digits(v: nat, like: seq<Byte>): (b: seq<Byte>)
    ensures |b| == |like|
  {
    if like == [] then [] else [(v % 256) as Byte] + Digits(v / 256, like[1..])
  }

  /** The numbers below this have a string as long as `like`. */
  function Bound(like: seq<Byte>): nat {
    if like == [] then 1 else 256 * Bound(like[1..])
  }

  lemma NextByte(b: Byte, x: int)
    requires b as int == x - 1 < 255
    ensures (b + 1) as int == x && x as Byte == b + 1
  {
  }

  lemma {:induction false} ByteOfInt(x: int)
    requires 0 <= x < 256
    ensures (x as Byte) as int == x
    decreases x
  {
    if x > 0 {
      ByteOfInt(x - 1);
      NextByte((x - 1) as Byte, x);
    }
  }

  lemma IntOfByte(b: Byte, x: int)
    requires x == b as int
    ensures 0 <= x < 256 && x as Byte == b
  {
  }

  lemma {:induction false} ValueOfDigits(v: nat, like: seq<Byte>)
    requires v < Bound(like)
    ensures Value(Digits(v, like)) == v
  {
    if like != [] {
      ByteOfInt(v % 256);
      ValueOfDigits(v / 256, like[1..]);
      assert Digits(v, like)[1..] == Digits(v / 256, like[1..]);
    }
  }

  lemma {:induction false} DigitsOfValue(b: seq<Byte>)
    ensures Value(b) < Bound(b) && Digits(Value(b), b) == b
  {
    if b != [] {
      DigitsOfValue(b[1..]);
      IntOfByte(b[0], b[0] as int);
      var v := Value(b);
      assert v / 256 == Value(b[1..]) && v % 256 == b[0] as int;
    }
  }

  lemma {:induction false} SameLength(v: nat, a: seq<Byte>, b: seq<Byte>)
    requires |a| == |b|
    ensures Bound(a) == Bound(b) && Digits(v, a) == Digits(v, b)
  {
    if a != [] {
      SameLength(v / 256, a[1..], b[1..]);
    }
  }

  lemma LimitFour(b: Quad)
    ensures Bound(b) == 0x1_0000_0000
  {
    assert Bound(b[1..][1..][1..]) == 256 * Bound(b[1..][1..][1..][1..]);
    assert Bound(b[1..][1..]) == 256 * Bound(b[1..][1..][1..]);
    assert Bound(b[1..]) == 256 * Bound(b[1..][1..]);
  }

  // ---------------------------------------------------------------- four bytes

  const FOUR: Quad := [0, 0, 0, 0]

  function Le32(v: U32): Quad {
    Digits(v, FOUR)
  }

  function FromLe32(b: Quad): (v: U32)
    ensures Le32(v) == b
  {
    DigitsOfValue(b);
    LimitFour(b);
    SameLength(Value(b), b, FOUR);
    Value(b)
  }

  lemma FromTo(v: U32)
    ensures FromLe32(Le32(v)) == v
  {
    LimitFour(FOUR);
    ValueOfDigits(v, FOUR);
  }

  /** Two numbers are equal exactly when their bytes are. */
  lemma FromInjective(a: Quad, b: Quad)
    ensures FromLe32(a) == FromLe32(b) <==> a == b
  {
  }

  /** The four bytes written out. */
  lemma Le32Bytes(v: U32)
    ensures Le32(v) == [(v % 256) as Byte, (v / 256 % 256) as Byte, (v / 65536 % 256) as Byte, (v / 16777216) as Byte]
  {
    var l := FOUR;
    assert v / 256 / 256 == v / 65536 && v / 256 / 256 / 256 == v / 16777216 < 256;
    assert Digits(v / 16777216, l[1..][1..][1..]) == [(v / 16777216) as Byte] + [];
    assert Digits(v / 65536, l[1..][1..]) == [(v / 65536 % 256) as Byte] + Digits(v / 16777216, l[1..][1..][1..]);
    assert Digits(v / 256, l[1..]) == [(v / 256 % 256) as Byte] + Digits(v / 65536, l[1..][1..]);
  }

  lemma FromLe32Bytes(b: Quad)
    ensures FromLe32(b) == b[0] as int + b[1] as int * 256 + b[2] as int * 65536 + b[3] as int * 16777216
  {
    assert Value(b[1..][1..][1..]) == b[3] as int;
    assert Value(b[1..][1..]) == b[2] as int + 256 * Value(b[1..][1..][1..]);
    assert Value(b[1..]) == b[1] as int + 256 * Value(b[1..][1..]);
  }

  /** `read_u32_le`. */
  method ReadU32Le(buf: array<Byte>, off: nat) returns (v: U32)
    requires off + 4 <= buf.Length
    ensures v == FromLe32(buf[off..off + 4])
  {
    FromLe32Bytes(buf[off..off + 4]);
    v := buf[off] as int + buf[off + 1] as int * 256 + buf[off + 2] as int * 65536 + buf[off + 3] as int * 16777216;
  }

  /** `write_u32_le`. */
  method WriteU32Le(buf: array<Byte>, off: nat, v: U32)
    requires off + 4 <= buf.Length
    modifies buf
    ensures buf[off..off + 4] == Le32(v)
    ensures forall k :: 0 <= k < buf.Length && !(off <= k < off + 4) ==> buf[k] == old(buf[k])
  {
    Le32Bytes(v);
    buf[off] := (v % 256) as Byte;
    buf[off + 1] := (v / 256 % 256) as Byte;
    buf[off + 2] := (v / 65536 % 256) as Byte;
    buf[off + 3] := (v / 16777216) as Byte;
  }

  // ---------------------------------------------------------------- strings of four-byte groups

  function Flatten(groups: seq<Quad>): (b: seq<Byte>)
    ensures |b| == 4 * |groups|
  {
    if groups == [] then [] else Flatten(groups[..|groups| - 1]) + groups[|groups| - 1]
  }

  lemma {:induction false} FlattenAt(groups: seq<Quad>, k: nat)
    requires k < |groups|
    ensures Flatten(groups)[4 * k..4 * k + 4] == groups[k]
  {
    var n := |groups| - 1;
    if k < n {
      FlattenAt(groups[..n], k);
      assert Flatten(groups)[4 * k..4 * k + 4] == Flatten(groups[..n])[4 * k..4 * k + 4];
    }
  }

  lemma {:induction false} FlattenUnique(groups: seq<Quad>, b: seq<Byte>)
    requires |b| == 4 * |groups| && forall k :: 0 <= k < |groups| ==> b[4 * k..4 * k + 4] == groups[k]
    ensures b == Flatten(groups)
  {
    if groups != [] {
      var n := |groups| - 1;
      var c := b[..4 * n];
      forall k | 0 <= k < n ensures c[4 * k..4 * k + 4] == groups[..n][k] {
        assert c[4 * k..4 * k + 4] == b[4 * k..4 * k + 4];
      }
      FlattenUnique(groups[..n], c);
      assert b == c + b[4 * n..4 * n + 4];
    }
  }
}

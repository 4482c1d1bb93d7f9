/** The CRC as polynomial division: the register is the remainder of the message polynomial by the divisor
    that RFC 1952 names. A polynomial over GF(2) is the set of its exponents. */
module CrcPolynomial {
  import opened Crc32

  type Poly = set<nat>

  function Sum(p: Poly, q: Poly): Poly {
    (p - q) + (q - p)
  }

  function TimesX(p: Poly, n: nat): Poly {
    set k | k in p :: k + n
  }

  /** x^32 + x^26 + x^23 + x^22 + x^16 + x^12 + x^11 + x^10 + x^8 + x^7 + x^5 + x^4 + x^2 + x + 1. */
  function Divisor(): Poly {
    {32, 26, 23, 22, 16, 12, 11, 10, 8, 7, 5, 4, 2, 1, 0}
  }

  /** The divisor times the sum of the powers listed in `q`. */
  function Multiple(q: seq<nat>): Poly {
    if q == [] then {} else Sum(TimesX(Divisor(), q[0]), Multiple(q[1..]))
  }

  ghost predicate Congruent(p: Poly, r: Poly) {
    exists q :: Sum(p, r) == Multiple(q)
  }

  predicate Reduced(p: Poly) {
    forall k :: k in p ==> k < 32
  }

  // ---------------------------------------------------------------- congruence

  lemma SumIsGroup(p: Poly, q: Poly, r: Poly)
    ensures Sum(Sum(p, q), r) == Sum(p, Sum(q, r)) && Sum(p, q) == Sum(q, p)
    ensures Sum(p, {}) == p && Sum(p, p) == {}
  {
  }

  lemma SumMoves(a: Poly, b: Poly, c: Poly, d: Poly)
    ensures Sum(Sum(a, b), Sum(c, d)) == Sum(Sum(a, c), Sum(b, d))
  {
  }

  lemma TimesXSum(p: Poly, q: Poly, n: nat)
    ensures TimesX(Sum(p, q), n) == Sum(TimesX(p, n), TimesX(q, n))
  {
    forall e: nat ensures e in TimesX(Sum(p, q), n) <==> e in Sum(TimesX(p, n), TimesX(q, n)) {
      InTimesX(p, n, e);
      InTimesX(q, n, e);
      InTimesX(Sum(p, q), n, e);
    }
  }

  lemma InTimesX(p: Poly, n: nat, e: nat)
    ensures e in TimesX(p, n) <==> e >= n && e - n in p
  {
    if e >= n && e - n in p {
      assert (e - n) + n == e;
    }
  }

  lemma TimesXTwice(p: Poly, m: nat, n: nat)
    ensures TimesX(TimesX(p, m), n) == TimesX(p, m + n)
    ensures TimesX(p, 0) == p && TimesX({}, n) == {}
  {
    forall e: nat ensures e in TimesX(TimesX(p, m), n) <==> e in TimesX(p, m + n) {
      InTimesX(TimesX(p, m), n, e);
      InTimesX(p, m + n, e);
      if e >= n {
        InTimesX(p, m, e - n);
      }
    }
    forall e: nat ensures e in TimesX(p, 0) <==> e in p {
      InTimesX(p, 0, e);
    }
  }

  lemma {:induction false} MultipleConcat(a: seq<nat>, b: seq<nat>)
    ensures Multiple(a + b) == Sum(Multiple(a), Multiple(b))
  {
    hide Sum, TimesX, Divisor;
    SumIsGroup(Multiple(b), {}, {});
    if a == [] {
      assert a + b == b;
    } else {
      MultipleConcat(a[1..], b);
      assert (a + b)[1..] == a[1..] + b;
      SumIsGroup(TimesX(Divisor(), a[0]), Multiple(a[1..]), Multiple(b));
    }
  }

  lemma {:induction false} MultipleTimesX(q: seq<nat>, n: nat) returns (r: seq<nat>)
    ensures TimesX(Multiple(q), n) == Multiple(r)
  {
    hide Sum, TimesX, Divisor;
    TimesXTwice({}, 0, n);
    if q == [] {
      r := [];
    } else {
      var rest := MultipleTimesX(q[1..], n);
      r := [q[0] + n] + rest;
      TimesXSum(TimesX(Divisor(), q[0]), Multiple(q[1..]), n);
      TimesXTwice(Divisor(), q[0], n);
      assert r[1..] == rest;
    }
  }

  lemma SmallMultiples()
    ensures Multiple([]) == {} && Multiple([0]) == Divisor()
  {
    hide Divisor, Sum, TimesX;
    assert [0][1..] == [];
    TimesXTwice(Divisor(), 0, 0);
    SumIsGroup(Divisor(), {}, {});
  }

  lemma CongruentByOne(p: Poly, r: Poly, once: bool)
    requires Sum(p, r) == if once then Divisor() else {}
    ensures Congruent(p, r)
  {
    hide Sum, Divisor, Multiple;
    SmallMultiples();
    assert Sum(p, r) == Multiple(if once then [0] else []);
  }

  lemma CongruentSum(p: Poly, q: Poly, r: Poly, s: Poly)
    requires Congruent(p, q) && Congruent(r, s)
    ensures Congruent(Sum(p, r), Sum(q, s))
  {
    hide Sum, Multiple;
    var a :| Sum(p, q) == Multiple(a);
    var b :| Sum(r, s) == Multiple(b);
    MultipleConcat(a, b);
    SumMoves(p, r, q, s);
    assert Sum(Sum(p, r), Sum(q, s)) == Multiple(a + b);
  }

  lemma CongruentTimesX(p: Poly, q: Poly, n: nat)
    requires Congruent(p, q)
    ensures Congruent(TimesX(p, n), TimesX(q, n))
  {
    hide Sum, Multiple, TimesX;
    var a :| Sum(p, q) == Multiple(a);
    var b := MultipleTimesX(a, n);
    TimesXSum(p, q, n);
  }

  lemma CongruentSame(p: Poly)
    ensures Congruent(p, p)
  {
    SumIsGroup(p, {}, {});
    CongruentByOne(p, p, false);
  }

  lemma CongruentChain(p: Poly, q: Poly, r: Poly)
    requires Congruent(p, q) && Congruent(q, r)
    ensures Congruent(p, r)
  {
    hide Sum, Multiple;
    var a :| Sum(p, q) == Multiple(a);
    var b :| Sum(q, r) == Multiple(b);
    MultipleConcat(a, b);
    CancelMiddle(p, q, r);
    assert Sum(p, r) == Multiple(a + b);
  }

  lemma CancelMiddle(p: Poly, q: Poly, r: Poly)
    ensures Sum(Sum(p, q), Sum(q, r)) == Sum(p, r)
  {
  }

  // ---------------------------------------------------------------- remainders are unique

  ghost predicate Decreasing(q: seq<nat>) {
    forall i, j :: 0 <= i < j < |q| ==> q[i] > q[j]
  }

  ghost predicate Below(q: seq<nat>, m: nat) {
    forall i :: 0 <= i < |q| ==> q[i] < m
  }

  /** One more power; a second one of the same kind cancels the first. */
  lemma {:induction false} Insert(k: nat, q: seq<nat>, m: nat) returns (r: seq<nat>)
    requires Decreasing(q) && Below(q, m) && k < m
    ensures Decreasing(r) && Below(r, m) && Multiple(r) == Sum(TimesX(Divisor(), k), Multiple(q))
    decreases |q|
  {
    hide Sum, TimesX, Divisor;
    var d := TimesX(Divisor(), k);
    if q == [] || k > q[0] {
      r := [k] + q;
      assert r[1..] == q;
    } else if k == q[0] {
      r := q[1..];
      SumIsGroup(d, d, Multiple(r));
      SumIsGroup(Multiple(r), {}, {});
    } else {
      var rest := Insert(k, q[1..], q[0]);
      r := [q[0]] + rest;
      assert r[1..] == rest;
      var e := TimesX(Divisor(), q[0]);
      SumIsGroup(e, d, Multiple(q[1..]));
      SumIsGroup(d, e, Multiple(q[1..]));
    }
  }

  /** Every multiple has a factor with each power once, highest first. */
  lemma {:induction false} Ordered(q: seq<nat>) returns (r: seq<nat>)
    ensures Decreasing(r) && Multiple(r) == Multiple(q)
  {
    hide Sum, TimesX, Divisor;
    if q == [] {
      r := [];
    } else {
      var rest := Ordered(q[1..]);
      r := Insert(q[0], rest, q[0] + 1 + (if rest == [] then 0 else rest[0]));
    }
  }

  /** A multiple has no power beyond its leading one. */
  lemma {:induction false} Degree(q: seq<nat>, m: nat)
    requires Below(q, m)
    ensures forall e :: e in Multiple(q) ==> e < m + 32
  {
    if q != [] {
      Degree(q[1..], m);
    }
  }

  lemma Leading(q: seq<nat>)
    requires Decreasing(q) && q != []
    ensures q[0] + 32 in Multiple(q)
  {
    Degree(q[1..], q[0]);
    InTimesX(Divisor(), q[0], q[0] + 32);
  }

  lemma ReducedUnique(p: Poly, r: Poly)
    requires Congruent(p, r) && Reduced(p) && Reduced(r)
    ensures p == r
  {
    var a :| Sum(p, r) == Multiple(a);
    var b := Ordered(a);
    if b != [] {
      Leading(b);
    }
    assert Sum(p, r) == {};
    SameIfNoSum(p, r);
  }

  lemma SameIfNoSum(p: Poly, r: Poly)
    requires Sum(p, r) == {}
    ensures p == r
  {
    assert p - r <= Sum(p, r) && r - p <= Sum(p, r);
    forall k ensures k in p <==> k in r {
      assert k in p - r ==> k in Sum(p, r);
      assert k in r - p ==> k in Sum(p, r);
    }
  }

  // ---------------------------------------------------------------- bits of a register

  function Half(w: Word): Word {
    w >> 1
  }

  predicate Low(w: Word) {
    w & 1 == 1
  }

  predicate Bit(w: Word, j: nat) {
    if j == 0 then Low(w) else Bit(Half(w), j - 1)
  }

  /** The coefficient of x^k: the low bit of the register is its highest power. */
  predicate Coefficient(w: Word, k: nat) {
    k < 32 && Bit(w, 31 - k)
  }

  function Register(w: Word): Poly {
    set k: nat | k < 32 && Coefficient(w, k)
  }

  lemma HalfXor(x: Word, y: Word)
    ensures Half(Xor(x, y)) == Xor(Half(x), Half(y))
    ensures Low(Xor(x, y)) <==> Low(x) != Low(y)
  {
    RawXorShift(x, y);
    RawXorLowBit(x, y);
  }

  lemma {:induction false} BitXor(x: Word, y: Word, j: nat)
    ensures Bit(Xor(x, y), j) <==> Bit(x, j) != Bit(y, j)
    decreases j
  {
    hide Half, Low, Xor;
    HalfXor(x, y);
    if j > 0 {
      BitXor(Half(x), Half(y), j - 1);
    }
  }

  lemma HalfOfZero()
    ensures Half(0) == 0 && !Low(0)
  {
  }

  lemma {:induction false} NoBits(j: nat)
    ensures !Bit(0, j)
  {
    hide Half, Low;
    HalfOfZero();
    if j > 0 {
      NoBits(j - 1);
    }
  }

  function Down(w: Word): Word {
    w >> 8
  }

  lemma EightHalves(w: Word)
    ensures Half(Half(Half(Half(Half(Half(Half(Half(w)))))))) == Down(w)
  {
    RawShifts(w);
  }

  lemma BitOfHalf(w: Word, j: nat)
    ensures Bit(w, j + 1) == Bit(Half(w), j) && Bit(w, 0) == Low(w)
  {
  }

  lemma BitsShiftDown(w: Word, j: nat)
    ensures Bit(w, j + 8) == Bit(Down(w), j)
  {
    hide Half, Low, Bit, Down;
    EightHalves(w);
    var w2 := Half(Half(w));
    var w4 := Half(Half(w2));
    var w6 := Half(Half(w4));
    BitOfHalf(w, j + 7);
    BitOfHalf(Half(w), j + 6);
    BitOfHalf(w2, j + 5);
    BitOfHalf(Half(w2), j + 4);
    BitOfHalf(w4, j + 3);
    BitOfHalf(Half(w4), j + 2);
    BitOfHalf(w6, j + 1);
    BitOfHalf(Half(w6), j);
  }

  lemma FourDowns(w: Word)
    ensures Down(Down(Down(Down(w)))) == 0
  {
  }

  /** A register has 32 bits. */
  lemma NoBitBeyond(w: Word)
    ensures !Bit(w, 32)
  {
    hide Bit, Down;
    BitsShiftDown(w, 24);
    BitsShiftDown(Down(w), 16);
    BitsShiftDown(Down(Down(w)), 8);
    BitsShiftDown(Down(Down(Down(w))), 0);
    FourDowns(w);
    NoBits(0);
  }

  // ---------------------------------------------------------------- one step multiplies by x

  lemma DivisorBits0()
    ensures !Bit(0xEDB88320, 0) && !Bit(0xEDB88320, 1) && !Bit(0xEDB88320, 2) && !Bit(0xEDB88320, 3)
    ensures !Bit(0xEDB88320, 4) && Bit(0xEDB88320, 5) && !Bit(0xEDB88320, 6) && !Bit(0xEDB88320, 7)
  {
  }

  lemma DivisorBits1()
    ensures Bit(0xEDB883, 0) && Bit(0xEDB883, 1) && !Bit(0xEDB883, 2) && !Bit(0xEDB883, 3)
    ensures !Bit(0xEDB883, 4) && !Bit(0xEDB883, 5) && !Bit(0xEDB883, 6) && Bit(0xEDB883, 7)
  {
  }

  lemma DivisorBits2()
    ensures !Bit(0xEDB8, 0) && !Bit(0xEDB8, 1) && !Bit(0xEDB8, 2) && Bit(0xEDB8, 3)
    ensures Bit(0xEDB8, 4) && Bit(0xEDB8, 5) && !Bit(0xEDB8, 6) && Bit(0xEDB8, 7)
  {
  }

  lemma DivisorBits3()
    ensures Bit(0xED, 0) && !Bit(0xED, 1) && Bit(0xED, 2) && Bit(0xED, 3)
    ensures !Bit(0xED, 4) && Bit(0xED, 5) && Bit(0xED, 6) && Bit(0xED, 7)
  {
  }

  lemma DivisorDown()
    ensures Down(0xEDB8_8320) == 0xED_B883 && Down(0xED_B883) == 0xEDB8 && Down(0xEDB8) == 0xED
  {
  }

  lemma DivisorHigh(j: nat)
    requires 16 <= j < 32
    ensures Bit(0xEDB8_8320, j) <==> 31 - j in Divisor()
  {
    hide Bit, Down;
    DivisorDown();
    BitsShiftDown(0xEDB8_8320, j - 8);
    BitsShiftDown(0xED_B883, j - 16);
    DivisorBits2();
    if j >= 24 {
      BitsShiftDown(0xEDB8, j - 24);
      DivisorBits3();
    }
  }

  /** The constant of the loops is the divisor without its highest power. */
  lemma DivisorBit(j: nat)
    requires j < 32
    ensures Bit(0xEDB8_8320, j) <==> 31 - j in Divisor()
  {
    hide Bit, Down;
    DivisorDown();
    if j >= 16 {
      DivisorHigh(j);
    } else if j >= 8 {
      BitsShiftDown(0xEDB8_8320, j - 8);
      DivisorBits1();
    } else {
      DivisorBits0();
    }
  }

  lemma StepIsShift(w: Word)
    ensures BitStep(w) == if Low(w) then Xor(Half(w), 0xEDB8_8320) else Half(w)
  {
  }

  lemma StepBit(w: Word, j: nat)
    requires j < 32
    ensures Bit(BitStep(w), j) <==> Bit(w, j + 1) != (Low(w) && 31 - j in Divisor())
  {
    hide BitStep, Low, Half, Xor, Bit, Divisor;
    StepIsShift(w);
    BitOfHalf(w, j);
    BitXor(Half(w), 0xEDB8_8320, j);
    DivisorBit(j);
  }

  lemma InRegister(w: Word, k: nat)
    ensures k in Register(w) <==> k < 32 && Bit(w, 31 - k)
  {
  }

  lemma DivisorTop()
    ensures 32 in Divisor() && forall k :: k in Divisor() ==> k <= 32
  {
  }

  /** One step multiplies by x; the power that leaves the register takes the divisor with it. */
  lemma StepTimesX(w: Word)
    ensures Sum(Register(BitStep(w)), TimesX(Register(w), 1)) == if Low(w) then Divisor() else {}
  {
    hide BitStep, Low, Bit, Divisor, Register, TimesX;
    DivisorTop();
    NoBitBeyond(w);
    BitOfHalf(w, 0);
    forall k: nat
      ensures k in Sum(Register(BitStep(w)), TimesX(Register(w), 1)) <==> Low(w) && k in Divisor()
    {
      InTimesX(Register(w), 1, k);
      InRegister(BitStep(w), k);
      if k >= 1 {
        InRegister(w, k - 1);
      }
      if k < 32 {
        StepBit(w, 31 - k);
      }
    }
  }

  lemma {:induction false} StepsTimesX(w: Word, n: nat)
    ensures Congruent(Register(Iterate(BitStep, w, n)), TimesX(Register(w), n))
  {
    hide BitStep, Register, TimesX, Congruent, Low;
    if n == 0 {
      TimesXTwice(Register(w), 0, 0);
      CongruentSame(Register(w));
    } else {
      var v := Iterate(BitStep, w, n - 1);
      StepsTimesX(w, n - 1);
      StepTimesX(v);
      CongruentByOne(Register(BitStep(v)), TimesX(Register(v), 1), Low(v));
      CongruentTimesX(Register(v), TimesX(Register(w), n - 1), 1);
      TimesXTwice(Register(w), n - 1, 1);
      CongruentChain(Register(BitStep(v)), TimesX(Register(v), 1), TimesX(Register(w), n));
    }
  }

  // ---------------------------------------------------------------- bytes and strings

  /** A byte as it goes over the line, low bit first: the low bit is the highest power. */
  function BytePoly(b: Byte): Poly {
    set k: nat | k < 8 && InByte(b, k)
  }

  predicate InByte(b: Byte, k: nat) {
    k < 8 && Bit(b as Word, 7 - k)
  }

  /** The polynomial of a string. */
  function Message(data: seq<Byte>): Poly {
    if data == [] then {} else Sum(TimesX(Message(data[..|data| - 1]), 8), BytePoly(data[|data| - 1]))
  }

  lemma ByteDown(b: Byte)
    ensures Down(b as Word) == 0
  {
  }

  /** A byte mixed into the register stands 24 powers up. */
  lemma ByteInRegister(b: Byte)
    ensures Register(b as Word) == TimesX(BytePoly(b), 24)
  {
    hide Bit, Down, TimesX;
    ByteDown(b);
    forall k: nat ensures k in Register(b as Word) <==> k in TimesX(BytePoly(b), 24) {
      InTimesX(BytePoly(b), 24, k);
      InRegister(b as Word, k);
      if k < 24 {
        BitsShiftDown(b as Word, 23 - k);
        NoBits(23 - k);
      }
    }
  }

  lemma RegisterXor(x: Word, y: Word)
    ensures Register(Xor(x, y)) == Sum(Register(x), Register(y))
  {
    hide Bit, Xor, Register;
    forall k: nat ensures k in Register(Xor(x, y)) <==> k in Sum(Register(x), Register(y)) {
      InRegister(Xor(x, y), k);
      InRegister(x, k);
      InRegister(y, k);
      if k < 32 {
        BitXor(x, y, 31 - k);
      }
    }
  }

  lemma ByteCongruent(w: Word, b: Byte)
    ensures Congruent(Register(ByteStep(BitStep, w, b)), Sum(TimesX(Register(w), 8), TimesX(BytePoly(b), 32)))
  {
    hide Register, TimesX, Sum, Congruent, BytePoly, Xor, Iterate;
    StepsTimesX(Xor(w, b as Word), 8);
    RegisterXor(w, b as Word);
    ByteInRegister(b);
    TimesXSum(Register(w), Register(b as Word), 8);
    TimesXTwice(BytePoly(b), 24, 8);
  }

  /** The register after a string, modulo the divisor: the register before, moved up past the string,
      and the string's polynomial times x^32. */
  lemma {:induction false} RunCongruent(w: Word, data: seq<Byte>)
    ensures Congruent(Register(Run(BitStep, w, data)),
                      Sum(TimesX(Register(w), 8 * |data|), TimesX(Message(data), 32)))
  {
    hide Register, TimesX, Sum, Congruent, BytePoly, ByteStep;
    if data == [] {
      TimesXTwice(Register(w), 0, 32);
      SumIsGroup(Register(w), {}, {});
      CongruentSame(Register(w));
    } else {
      var n := |data| - 1;
      var front, b := data[..n], data[n];
      RunCongruent(w, front);
      ByteCongruent(Run(BitStep, w, front), b);
      OneByteUp(Register(Run(BitStep, w, front)), Register(w), Message(front), BytePoly(b), n);
      CongruentChain(Register(Run(BitStep, w, data)),
                     Sum(TimesX(Register(Run(BitStep, w, front)), 8), TimesX(BytePoly(b), 32)),
                     Sum(TimesX(Register(w), 8 * |data|), TimesX(Message(data), 32)));
    }
  }

  lemma OneByteUp(r: Poly, w: Poly, m: Poly, b: Poly, n: nat)
    requires Congruent(r, Sum(TimesX(w, 8 * n), TimesX(m, 32)))
    ensures Congruent(Sum(TimesX(r, 8), TimesX(b, 32)),
                      Sum(TimesX(w, 8 * (n + 1)), TimesX(Sum(TimesX(m, 8), b), 32)))
  {
    hide TimesX, Sum, Congruent;
    CongruentTimesX(r, Sum(TimesX(w, 8 * n), TimesX(m, 32)), 8);
    TimesXSum(TimesX(w, 8 * n), TimesX(m, 32), 8);
    TimesXTwice(w, 8 * n, 8);
    TimesXTwice(m, 32, 8);
    TimesXTwice(m, 8, 32);
    TimesXSum(TimesX(m, 8), b, 32);
    CongruentSame(TimesX(b, 32));
    CongruentSum(TimesX(r, 8), Sum(TimesX(w, 8 * n + 8), TimesX(m, 40)), TimesX(b, 32), TimesX(b, 32));
    SumIsGroup(TimesX(w, 8 * n + 8), TimesX(m, 40), TimesX(b, 32));
  }

  /** The CRC, with the final inversion undone, is the remainder of the division: of the string's
      polynomial times x^32, with the 32 ones the register starts from added at the top. It is the only
      polynomial below x^32 that leaves no remainder. */
  lemma CrcIsRemainder(data: seq<Byte>, r: Poly)
    ensures var top := TimesX(Register(0xFFFF_FFFF), 8 * |data|);
            r == Register(Xor(Crc(data), 0xFFFF_FFFF)) <==>
            Reduced(r) && Congruent(r, Sum(top, TimesX(Message(data), 32)))
  {
    hide Register, TimesX, Sum, Congruent, Message, Run;
    var w := Run(BitStep, 0xFFFF_FFFF, data);
    XorUndoes(w, 0xFFFF_FFFF);
    var p := Sum(TimesX(Register(0xFFFF_FFFF), 8 * |data|), TimesX(Message(data), 32));
    RunCongruent(0xFFFF_FFFF, data);
    RegisterReduced(w);
    if Reduced(r) && Congruent(r, p) {
      CongruentBack(Register(w), p);
      CongruentChain(r, p, Register(w));
      ReducedUnique(r, Register(w));
    }
  }

  lemma RegisterReduced(w: Word)
    ensures Reduced(Register(w))
  {
  }

  lemma CongruentBack(p: Poly, q: Poly)
    requires Congruent(p, q)
    ensures Congruent(q, p)
  {
    hide Sum, Multiple;
    SumIsGroup(p, q, {});
  }

  lemma Ones0()
    ensures Bit(0xFFFF_FFFF, 0) && Bit(0xFFFF_FFFF, 1) && Bit(0xFFFF_FFFF, 2) && Bit(0xFFFF_FFFF, 3)
    ensures Bit(0xFFFF_FFFF, 4) && Bit(0xFFFF_FFFF, 5) && Bit(0xFFFF_FFFF, 6) && Bit(0xFFFF_FFFF, 7)
  {
  }

  lemma Ones1()
    ensures Bit(0xFF_FFFF, 0) && Bit(0xFF_FFFF, 1) && Bit(0xFF_FFFF, 2) && Bit(0xFF_FFFF, 3)
    ensures Bit(0xFF_FFFF, 4) && Bit(0xFF_FFFF, 5) && Bit(0xFF_FFFF, 6) && Bit(0xFF_FFFF, 7)
  {
  }

  lemma Ones2()
    ensures Bit(0xFFFF, 0) && Bit(0xFFFF, 1) && Bit(0xFFFF, 2) && Bit(0xFFFF, 3)
    ensures Bit(0xFFFF, 4) && Bit(0xFFFF, 5) && Bit(0xFFFF, 6) && Bit(0xFFFF, 7)
  {
  }

  lemma Ones3()
    ensures Bit(0xFF, 0) && Bit(0xFF, 1) && Bit(0xFF, 2) && Bit(0xFF, 3)
    ensures Bit(0xFF, 4) && Bit(0xFF, 5) && Bit(0xFF, 6) && Bit(0xFF, 7)
  {
  }

  lemma OnesDown()
    ensures Down(0xFFFF_FFFF) == 0xFF_FFFF && Down(0xFF_FFFF) == 0xFFFF && Down(0xFFFF) == 0xFF
  {
  }

  /** The register starts from 32 ones. */
  lemma AllOnes(k: nat)
    ensures k in Register(0xFFFF_FFFF) <==> k < 32
  {
    hide Bit, Down;
    OnesDown();
    Ones0();
    Ones1();
    Ones2();
    Ones3();
    if k < 24 {
      BitsShiftDown(0xFFFF_FFFF, 23 - k);
    }
    if k < 16 {
      BitsShiftDown(0xFF_FFFF, 15 - k);
    }
    if k < 8 {
      BitsShiftDown(0xFFFF, 7 - k);
    }
  }
}

/** The loader's streaming SHA-256: a context that absorbs a message piece by piece. */
module Sha256Stream {
  import opened Crc32
  import opened Sha256Spec

  /** The body of the schedule's second loop. */
  method ExpandWord(w2: Word, w7: Word, w15: Word, w16: Word) returns (w: Word)
    ensures w == Expand(w2, w7, w15, w16)
  {
    hide SmallSigma0, SmallSigma1, Plus;
    var s0 := SmallSigma0(w15);
    var s1 := SmallSigma1(w2);
    w := Plus(Plus(Plus(w16, s0), w7), s1);
  }

  /** The body of the round loop. */
  method OneRound(v: Working, k: Word, w: Word) returns (r: Working)
    ensures r == Round(v, k, w)
  {
    hide BigSigma0, BigSigma1, Ch, Maj, Plus;
    var s1 := BigSigma1(v.e);
    var ch := Ch(v.e, v.f, v.g);
    var temp1 := Plus(Plus(Plus(Plus(v.h, s1), ch), k), w);
    var s0 := BigSigma0(v.a);
    var maj := Maj(v.a, v.b, v.c);
    var temp2 := Plus(s0, maj);
    r := Working(Plus(temp1, temp2), v.a, v.b, v.c, Plus(v.d, temp1), v.e, v.f, v.g);
  }

  /** The schedule loops. */
  method BuildSchedule(p: seq<Byte>) returns (w: array<Word>)
    requires |p| == 64
    ensures fresh(w) && w.Length == 64 && forall k :: 0 <= k < 64 ==> w[k] == Schedule(p, k)
  {
    hide Expand, MessageWord;
    w := new Word[64](_ => 0);
    for i := 0 to 16
      invariant forall k :: 0 <= k < i ==> w[k] == Schedule(p, k)
    {
      w[i] := MessageWord(p, i);
    }
    for i := 16 to 64
      invariant forall k :: 0 <= k < i ==> w[k] == Schedule(p, k)
    {
      w[i] := ExpandWord(w[i - 2], w[i - 7], w[i - 15], w[i - 16]);
    }
  }

  /** The round loop. */
  method RunRounds(start: Working, p: seq<Byte>, w: array<Word>) returns (v: Working)
    requires |p| == 64 && w.Length == 64 && forall k :: 0 <= k < 64 ==> w[k] == Schedule(p, k)
    ensures v == Rounds(start, p, 64)
  {
    hide Round, Schedule;
    v := start;
    for i := 0 to 64
      invariant v == Rounds(start, p, i)
    {
      v := OneRound(v, K()[i], w[i]);
    }
  }

  lemma ZerosMissing(n: nat)
    ensures (56 - (n + 1) % 64) % 64 == ZeroCount(n)
  {
  }

  /** One more zero byte: the buffer is one step nearer to 56. */
  lemma ZeroStep(b: nat, next: nat, n: nat)
    requires b == n % 64 && next == (n + 1) % 64 && b != 56
    ensures (56 - next) % 64 == (56 - b) % 64 - 1
  {
  }

  lemma ZerosSnoc(front: seq<Byte>, n: nat)
    ensures front + Zeros(n) + [0] == front + Zeros(n + 1)
  {
  }

  lemma BitLength(n: nat)
    ensures n % TWO64 * 8 % TWO64 == 8 * n % TWO64
  {
    var q, r := n / TWO64, n % TWO64;
    var q8, r8 := 8 * r / TWO64, 8 * r % TWO64;
    assert n == TWO64 * q + r && 8 * r == TWO64 * q8 + r8;
    ModUnique(8 * n, 8 * q + q8, r8);
  }

  lemma ModUnique(x: int, q: int, r: int)
    requires x == TWO64 * q + r && 0 <= r < TWO64
    ensures x % TWO64 == r
  {
  }

  class Sha256Ctx {
    const h: array<Word>
    const buf: array<Byte>
    var bufLen: nat
    var totalLen: int
    /** Everything absorbed so far. */
    ghost var message: seq<Byte>

    /** The context stands for `m`: the whole blocks of `m` are folded into `h`, the rest is in `buf`. */
    ghost predicate Absorbed(m: seq<Byte>)
      reads `bufLen, h, buf
    {
      && h.Length == 8 && buf.Length == 64 && bufLen <= 64 && bufLen <= |m|
      && (|m| - bufLen) % 64 == 0
      && h[..] == Fold(H0(), m[..|m| - bufLen])
      && buf[..bufLen] == m[|m| - bufLen..]
    }

    ghost predicate Valid()
      reads this, h, buf
    {
      && Absorbed(message) && bufLen < 64
      && totalLen == |message| % TWO64
    }

    /** `sha256_init`. */
    constructor ()
      ensures Valid() && message == [] && fresh(h) && fresh(buf)
    {
      h := new Word[8];
      buf := new Byte[64];
      bufLen, totalLen, message := 0, 0, [];
      new;
      SetInitial();
    }

    lemma FoldNothing()
      ensures Fold(H0(), []) == H0()
    {
      hide H0, Compress;
    }

    /** The initial hash value, for the empty message. */
    method SetInitial()
      requires h.Length == 8 && buf.Length == 64 && bufLen == totalLen == 0 && message == []
      modifies h
      ensures Valid()
    {
      hide H0, Compress, Fold;
      SetWords();
      FoldNothing();
      EmptyBuffer([]);
    }

    method SetWords()
      requires h.Length == 8
      modifies h
      ensures h[..] == H0()
    {
      h[0], h[1], h[2], h[3] := 0x6a09e667, 0xbb67ae85, 0x3c6ef372, 0xa54ff53a;
      h[4], h[5], h[6], h[7] := 0x510e527f, 0x9b05688c, 0x1f83d9ab, 0x5be0cd19;
    }

    /** Step 4: the working variables added to the hash value. */
    method AddWorking(v: Working)
      requires h.Length == 8
      modifies h
      ensures h[..] == Add(old(h[..]), v)
    {
      hide *;
      ghost var before := h[..];
      h[0] := Plus(h[0], v.a);
      h[1] := Plus(h[1], v.b);
      h[2] := Plus(h[2], v.c);
      h[3] := Plus(h[3], v.d);
      h[4] := Plus(h[4], v.e);
      h[5] := Plus(h[5], v.f);
      h[6] := Plus(h[6], v.g);
      h[7] := Plus(h[7], v.h);
      Added(before, v, h[..]);
    }

    static lemma Added(before: HashValue, v: Working, after: HashValue)
      requires after[0] == Plus(before[0], v.a) && after[1] == Plus(before[1], v.b)
      requires after[2] == Plus(before[2], v.c) && after[3] == Plus(before[3], v.d)
      requires after[4] == Plus(before[4], v.e) && after[5] == Plus(before[5], v.f)
      requires after[6] == Plus(before[6], v.g) && after[7] == Plus(before[7], v.h)
      ensures after == Add(before, v)
    {
      hide Plus;
    }

    /** `sha256_block`: one block into the hash value. */
    method Block(p: seq<Byte>)
      requires h.Length == 8 && |p| == 64
      modifies h
      ensures h[..] == Compress(old(h[..]), p)
    {
      hide Rounds, Add;
      var w := BuildSchedule(p);
      var v := RunRounds(Working(h[0], h[1], h[2], h[3], h[4], h[5], h[6], h[7]), p, w);
      AddWorking(v);
    }

    /** Takes one byte into the buffer. */
    lemma AbsorbByte(m: seq<Byte>, b: Byte, before: seq<Byte>)
      requires |before| <= |m| && (|m| - |before|) % 64 == 0
      requires m[|m| - |before|..] == before
      ensures (m + [b])[..|m| + 1 - (|before| + 1)] == m[..|m| - |before|]
      ensures (m + [b])[|m| + 1 - (|before| + 1)..] == before + [b]
    {
    }

    method PushByte(b: Byte, ghost m: seq<Byte>)
      requires Absorbed(m) && bufLen < 64
      modifies buf, `bufLen
      ensures Absorbed(m + [b]) && bufLen == old(bufLen) + 1
    {
      hide Fold, H0, Compress;
      ghost var before := buf[..bufLen];
      AbsorbByte(m, b, before);
      buf[bufLen] := b;
      bufLen := bufLen + 1;
      assert buf[..bufLen] == before + [b];
    }

    /** Folds a full buffer into the hash value. */
    method FoldBuffer(ghost m: seq<Byte>)
      requires Absorbed(m) && bufLen == 64
      modifies h
      ensures h.Length == 8 && buf.Length == 64 && |m| % 64 == 0 && h[..] == Fold(H0(), m)
    {
      hide Compress, H0;
      FoldSnoc(H0(), m[..|m| - 64], buf[..]);
      assert m == m[..|m| - 64] + buf[..] && m[..|m|] == m && m[|m|..] == [];
      assert buf[..] == buf[..64];
      Block(buf[..]);
    }

    lemma EmptyBuffer(m: seq<Byte>)
      requires h.Length == 8 && buf.Length == 64 && bufLen == 0
      requires |m| % 64 == 0 && h[..] == Fold(H0(), m)
      ensures Absorbed(m)
    {
      hide Fold, H0, Compress;
      assert m[..|m|] == m && m[|m|..] == [] && buf[..0] == [];
    }

    /** Folds one block straight from the input. */
    method BlockFromInput(p: seq<Byte>, ghost m: seq<Byte>)
      requires Absorbed(m) && bufLen == 0 && |p| == 64
      modifies h
      ensures Absorbed(m + p)
    {
      hide Compress, H0;
      assert m[..|m|] == m && (m + p)[..|m + p|] == m + p && (m + p)[|m + p|..] == [];
      FoldSnoc(H0(), m, p);
      Block(p);
    }

    /** The first loop of the update: fills a buffer that is not empty, and folds it when it is full. */
    method TopUp(data: seq<Byte>, ghost m: seq<Byte>) returns (i: nat)
      requires Absorbed(m) && 0 < bufLen < 64
      modifies h, buf, `bufLen
      ensures i <= |data| && Absorbed(m + data[..i]) && bufLen < 64
      ensures bufLen == 0 || i == |data|
    {
      hide *;
      i := 0;
      assert m + data[..0] == m;
      while i < |data| && bufLen < 64
        invariant 0 <= i <= |data| && Absorbed(m + data[..i])
        invariant 0 < bufLen <= 64
      {
        assert m + data[..i + 1] == m + data[..i] + [data[i]];
        PushByte(data[i], m + data[..i]);
        i := i + 1;
      }
      if bufLen == 64 {
        FoldBuffer(m + data[..i]);
        bufLen := 0;
        EmptyBuffer(m + data[..i]);
      }
    }

    /** The second loop: folds whole blocks straight from the input. */
    method FoldWholeBlocks(data: seq<Byte>, start: nat, ghost m: seq<Byte>) returns (i: nat)
      requires start <= |data| && Absorbed(m + data[..start]) && bufLen < 64
      requires bufLen == 0 || start == |data|
      modifies h
      ensures i <= |data| && Absorbed(m + data[..i])
      ensures |data| - i < 64 && (bufLen == 0 || i == |data|)
    {
      hide *;
      i := start;
      while |data| - i >= 64
        invariant 0 <= i <= |data| && Absorbed(m + data[..i])
        invariant bufLen == 0 || i == |data|
      {
        assert m + data[..i + 64] == m + data[..i] + data[i..i + 64];
        BlockFromInput(data[i..i + 64], m + data[..i]);
        i := i + 64;
      }
    }

    /** The third loop: buffers the rest. */
    method BufferRest(data: seq<Byte>, start: nat, ghost m: seq<Byte>)
      requires start <= |data| && Absorbed(m + data[..start]) && bufLen < 64
      requires |data| - start < 64 && (bufLen == 0 || start == |data|)
      modifies buf, `bufLen
      ensures Absorbed(m + data) && bufLen < 64
    {
      hide *;
      var i := start;
      while i < |data|
        invariant 0 <= i <= |data| && Absorbed(m + data[..i])
        invariant bufLen < 64 && (bufLen + (|data| - i) < 64 || i == |data|)
      {
        assert m + data[..i + 1] == m + data[..i] + [data[i]];
        PushByte(data[i], m + data[..i]);
        i := i + 1;
      }
      assert data[..|data|] == data;
    }

    lemma LengthAdds(total: nat, length: nat, more: nat)
      requires total == length % TWO64
      ensures (total + more) % TWO64 == (length + more) % TWO64
    {
    }

    /** `sha256_update`: absorbs `data`, however the message is split over the calls. */
    method Update(data: seq<Byte>)
      requires Valid()
      modifies this, h, buf
      ensures Valid() && message == old(message) + data
    {
      hide Absorbed;
      ghost var m := message;
      var i := 0;
      LengthAdds(totalLen, |m|, |data|);
      totalLen := (totalLen + |data|) % TWO64;
      assert m + data[..0] == m;
      if bufLen != 0 {
        i := TopUp(data, m);
      }
      i := FoldWholeBlocks(data, i, m);
      BufferRest(data, i, m);
      message := m + data;
    }

    /** `sha256_finalize`: pads, and writes the digest of everything absorbed. */
    method Finalize(out: array<Byte>)
      requires Valid() && out.Length == 32 && out != buf
      modifies this, h, buf, out
      ensures out[..] == Sha256(old(message))
    {
      hide Absorbed, HashBytes, H0, Fold;
      ghost var m := message;
      var bitLen := totalLen * 8 % TWO64;
      Update([0x80]);
      PadWithZeros(m);
      var lenbuf := LengthBytes(bitLen);
      AppendLength(lenbuf);
      BitLength(|m|);
      assert message + lenbuf == Pad(m);
      FoldBuffer(Pad(m));
      WriteDigest(out);
    }

    lemma BufferedCount()
      requires Valid()
      ensures bufLen == |message| % 64
    {
      hide Fold, H0, Compress;
      RemainderOf(|message|, bufLen);
    }

    lemma RemainderOf(n: nat, b: nat)
      requires b <= n && (n - b) % 64 == 0 && b < 64
      ensures b == n % 64
    {
    }

    /** The zero-padding loop. */
    method PadWithZeros(ghost m: seq<Byte>)
      requires Valid() && message == m + [0x80]
      modifies this, h, buf
      ensures Valid() && bufLen == 56 && message == m + [0x80] + Zeros(ZeroCount(|m|))
    {
      hide Absorbed;
      ghost var zeros := 0;
      BufferedCount();
      ZerosMissing(|m|);
      assert m + [0x80] + Zeros(0) == m + [0x80];
      while bufLen != 56
        invariant Valid() && message == m + [0x80] + Zeros(zeros)
        invariant zeros + (56 - bufLen) % 64 == ZeroCount(|m|)
        decreases (56 - bufLen) % 64
      {
        BufferedCount();
        ghost var n, b := |message|, bufLen;
        ZerosSnoc(m + [0x80], zeros);
        Update([0]);
        BufferedCount();
        ZeroStep(b, bufLen, n);
        zeros := zeros + 1;
      }
    }

    method WriteDigest(out: array<Byte>)
      requires h.Length == 8 && out.Length == 32
      modifies out
      ensures out[..] == HashBytes(h[..], 8)
    {
      hide BigEndianWord;
      for i := 0 to 8
        invariant out[..4 * i] == HashBytes(h[..], i)
      {
        WriteWord(out, i * 4, h[i]);
        assert out[..4 * (i + 1)] == out[..4 * i] + out[4 * i..4 * i + 4];
      }
      assert out[..] == out[..32];
    }

    static method WriteWord(out: array<Byte>, at: nat, w: Word)
      requires at + 4 <= out.Length
      modifies out
      ensures out[at..at + 4] == BigEndianWord(w)
      ensures out[..at] == old(out[..at]) && out[at + 4..] == old(out[at + 4..])
    {
      out[at] := ((w >> 24) & 0xFF) as Byte;
      out[at + 1] := ((w >> 16) & 0xFF) as Byte;
      out[at + 2] := ((w >> 8) & 0xFF) as Byte;
      out[at + 3] := (w & 0xFF) as Byte;
    }

    /** The eight length bytes go straight into the buffer, past the length accounting. */
    method AppendLength(lenbuf: seq<Byte>)
      requires Valid() && bufLen == 56 && |lenbuf| == 8
      modifies buf, `bufLen
      ensures bufLen == 64 && Absorbed(message + lenbuf)
    {
      hide Absorbed;
      assert message + lenbuf[..0] == message;
      for j := 0 to 8
        invariant Absorbed(message + lenbuf[..j]) && bufLen == 56 + j
      {
        assert message + lenbuf[..j + 1] == message + lenbuf[..j] + [lenbuf[j]];
        PushByte(lenbuf[j], message + lenbuf[..j]);
      }
      assert lenbuf[..8] == lenbuf;
    }
  }

  /** However a message was split into calls of `Update`, the context ends in the same state. */
  lemma SplitIrrelevant(a: Sha256Ctx, b: Sha256Ctx)
    requires a.Valid() && b.Valid() && a.message == b.message
    ensures a.h[..] == b.h[..] && a.bufLen == b.bufLen && a.totalLen == b.totalLen
    ensures a.buf[..a.bufLen] == b.buf[..b.bufLen]
  {
    a.BufferedCount();
    b.BufferedCount();
  }

  /** `v >> (8 * k)`. */
  function ShiftBytes(v: nat, k: nat): nat {
    if k == 0 then v else ShiftBytes(v, k - 1) / 256
  }

  /** The length field: `bitLen >> ((7 - i) * 8)` for each byte. */
  method LengthBytes(bitLen: nat) returns (lenbuf: seq<Byte>)
    requires bitLen < TWO64
    ensures lenbuf == BigEndian(bitLen, 8)
  {
    lenbuf := [];
    for i := 0 to 8
      invariant lenbuf == BigEndian(ShiftBytes(bitLen, 8 - i), i)
    {
      lenbuf := lenbuf + [(ShiftBytes(bitLen, 7 - i) % 256) as Byte];
    }
  }
}

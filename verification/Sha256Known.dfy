/** SHA-256 pinned from outside: the padding and the words of a block by what they are, and the known
    answer of FIPS 180-4 for the message "abc", by the schedule and the state after every eighth round. */
module Sha256Known {
  import opened Crc32
  import opened LittleEndian
  import opened Sha256Spec
  import opened Sha256Constants

  // ---------------------------------------------------------------- padding and words

  /** The number a string of bytes stands for, most significant first. */
  function BigEndianValue(b: seq<Byte>): nat {
    if b == [] then 0 else 256 * BigEndianValue(b[..|b| - 1]) + b[|b| - 1] as nat
  }

  function Power256(n: nat): nat {
    if n == 0 then 1 else 256 * Power256(n - 1)
  }

  lemma MoreDigits(v: nat, n: nat)
    requires n > 0
    ensures BigEndian(v, n) == BigEndian(v / 256, n - 1) + [(v % 256) as Byte]
  {
  }

  lemma {:induction false} ValueOfBigEndian(v: nat, n: nat)
    requires v < Power256(n)
    ensures BigEndianValue(BigEndian(v, n)) == v
  {
    hide BigEndian;
    if n == 0 {
      NoDigits(v);
    } else {
      MoreDigits(v, n);
      ByteOfInt(v % 256);
      ValueOfBigEndian(v / 256, n - 1);
      assert BigEndian(v, n)[..n - 1] == BigEndian(v / 256, n - 1);
    }
  }

  lemma NoDigits(v: nat)
    ensures BigEndian(v, 0) == []
  {
  }

  lemma EightBytes()
    ensures Power256(8) == TWO64
  {
  }

  /** The padded message of section 5.1.1: whole blocks, as few as will do, that begin with the message,
      go on with a one bit and zeros, and end with the length in bits. */
  lemma PadExactly(message: seq<Byte>)
    ensures var p, n := Pad(message), |message|;
            && |p| % 64 == 0 && n + 9 <= |p| < n + 9 + 64
            && p[..n] == message && p[n] == 0x80 && (forall k :: n < k < |p| - 8 ==> p[k] == 0)
            && BigEndianValue(p[|p| - 8..]) == 8 * n % TWO64
  {
    hide BigEndian, BigEndianValue, Power256;
    PadLength(message);
    EightBytes();
    var p, length := Pad(message), 8 * |message| % TWO64;
    ValueOfBigEndian(length, 8);
    assert p[|p| - 8..] == BigEndian(length, 8);
  }

  /** Section 5.2.1: the words of a block are its bytes in order, four to a word, the first one highest. */
  lemma WordsOfBlock(block: seq<Byte>, t: nat)
    requires |block| == 64 && t < 16
    ensures BigEndianWord(MessageWord(block, t)) == block[4 * t..4 * t + 4]
  {
    hide BigEndianWord, MessageWord;
    FourBytesHigh(block[4 * t], block[4 * t + 1], block[4 * t + 2], block[4 * t + 3]);
    FourBytesWord(block, t);
  }

  lemma FourBytesWord(block: seq<Byte>, t: nat)
    requires |block| == 64 && t < 16
    ensures MessageWord(block, t) == HighFirst(block[4 * t], block[4 * t + 1], block[4 * t + 2], block[4 * t + 3])
  {
  }

  function HighFirst(a: Byte, b: Byte, c: Byte, d: Byte): Word {
    ((a as Word) << 24) | ((b as Word) << 16) | ((c as Word) << 8) | (d as Word)
  }

  lemma FourBytesHigh(a: Byte, b: Byte, c: Byte, d: Byte)
    ensures BigEndianWord(HighFirst(a, b, c, d)) == [a, b, c, d]
  {
  }

  // ---------------------------------------------------------------- the message "abc"

  function Abc(): seq<Byte> {
    [0x61, 0x62, 0x63]
  }

  function AbcBlock(): (b: seq<Byte>)
    ensures |b| == 64
  {
    Abc() + [0x80] + Zeros(52) + [0, 0, 0, 0, 0, 0, 0, 0x18]
  }

  lemma {:induction false} LeadingZeros(n: nat)
    ensures BigEndian(0, n) == Zeros(n)
  {
    if n > 0 {
      LeadingZeros(n - 1);
    }
  }

  lemma LengthField()
    ensures BigEndian(24, 8) == [0, 0, 0, 0, 0, 0, 0, 0x18]
  {
    hide BigEndian;
    MoreDigits(24, 8);
    LeadingZeros(7);
  }

  lemma AbcPadded()
    ensures Pad(Abc()) == AbcBlock()
  {
    hide BigEndian;
    LengthField();
  }

  // ---------------------------------------------------------------- the schedule

  /** `w` is the schedule of `block`. */
  ghost predicate Lists(w: seq<Word>, block: seq<Byte>)
    requires |block| == 64
  {
    |w| == 64 && forall t {:trigger Schedule(block, t)} :: 0 <= t < 64 ==> w[t] == Schedule(block, t)
  }

  lemma FromBlock(block: seq<Byte>, t: nat)
    requires |block| == 64 && t < 16
    ensures Schedule(block, t) == MessageWord(block, t)
  {
  }

  lemma FromWords(block: seq<Byte>, t: nat)
    requires |block| == 64 && t >= 16
    ensures Schedule(block, t) ==
            Expand(Schedule(block, t - 2), Schedule(block, t - 7), Schedule(block, t - 15), Schedule(block, t - 16))
  {
  }

  lemma BlockWords0()
    ensures MessageWord(AbcBlock(), 0) == 0x61626380 && MessageWord(AbcBlock(), 1) == 0x00000000
    ensures MessageWord(AbcBlock(), 2) == 0x00000000 && MessageWord(AbcBlock(), 3) == 0x00000000
    ensures MessageWord(AbcBlock(), 4) == 0x00000000 && MessageWord(AbcBlock(), 5) == 0x00000000
    ensures MessageWord(AbcBlock(), 6) == 0x00000000 && MessageWord(AbcBlock(), 7) == 0x00000000
  {
  }

  lemma Words0(w: seq<Word>)
    requires Lists(w, AbcBlock())
    ensures w[0] == 0x61626380 && w[1] == 0x00000000
    ensures w[2] == 0x00000000 && w[3] == 0x00000000
    ensures w[4] == 0x00000000 && w[5] == 0x00000000
    ensures w[6] == 0x00000000 && w[7] == 0x00000000
  {
    hide AbcBlock, Schedule, MessageWord;
    BlockWords0();
    FromBlock(AbcBlock(), 0);
    FromBlock(AbcBlock(), 1);
    FromBlock(AbcBlock(), 2);
    FromBlock(AbcBlock(), 3);
    FromBlock(AbcBlock(), 4);
    FromBlock(AbcBlock(), 5);
    FromBlock(AbcBlock(), 6);
    FromBlock(AbcBlock(), 7);
  }

  lemma BlockWords1()
    ensures MessageWord(AbcBlock(), 8) == 0x00000000 && MessageWord(AbcBlock(), 9) == 0x00000000
    ensures MessageWord(AbcBlock(), 10) == 0x00000000 && MessageWord(AbcBlock(), 11) == 0x00000000
    ensures MessageWord(AbcBlock(), 12) == 0x00000000 && MessageWord(AbcBlock(), 13) == 0x00000000
    ensures MessageWord(AbcBlock(), 14) == 0x00000000 && MessageWord(AbcBlock(), 15) == 0x00000018
  {
  }

  lemma Words1(w: seq<Word>)
    requires Lists(w, AbcBlock())
    ensures w[8] == 0x00000000 && w[9] == 0x00000000
    ensures w[10] == 0x00000000 && w[11] == 0x00000000
    ensures w[12] == 0x00000000 && w[13] == 0x00000000
    ensures w[14] == 0x00000000 && w[15] == 0x00000018
  {
    hide AbcBlock, Schedule, MessageWord;
    BlockWords1();
    FromBlock(AbcBlock(), 8);
    FromBlock(AbcBlock(), 9);
    FromBlock(AbcBlock(), 10);
    FromBlock(AbcBlock(), 11);
    FromBlock(AbcBlock(), 12);
    FromBlock(AbcBlock(), 13);
    FromBlock(AbcBlock(), 14);
    FromBlock(AbcBlock(), 15);
  }

  lemma Expansions2()
    ensures Expand(0x00000000, 0x00000000, 0x00000000, 0x61626380) == 0x61626380
    ensures Expand(0x00000018, 0x00000000, 0x00000000, 0x00000000) == 0x000f0000
    ensures Expand(0x61626380, 0x00000000, 0x00000000, 0x00000000) == 0x7da86405
    ensures Expand(0x000f0000, 0x00000000, 0x00000000, 0x00000000) == 0x600003c6
    ensures Expand(0x7da86405, 0x00000000, 0x00000000, 0x00000000) == 0x3e9d7b78
    ensures Expand(0x600003c6, 0x00000000, 0x00000000, 0x00000000) == 0x0183fc00
    ensures Expand(0x3e9d7b78, 0x00000018, 0x00000000, 0x00000000) == 0x12dcbfdb
    ensures Expand(0x0183fc00, 0x61626380, 0x00000000, 0x00000000) == 0xe2e2c38e
  {
  }

  lemma Words2(w: seq<Word>)
    requires Lists(w, AbcBlock())
    ensures w[16] == 0x61626380 && w[17] == 0x000f0000
    ensures w[18] == 0x7da86405 && w[19] == 0x600003c6
    ensures w[20] == 0x3e9d7b78 && w[21] == 0x0183fc00
    ensures w[22] == 0x12dcbfdb && w[23] == 0xe2e2c38e
  {
    hide AbcBlock, Schedule, Expand;
    Expansions2();
    Words0(w);
    Words1(w);
    FromWords(AbcBlock(), 16);
    FromWords(AbcBlock(), 17);
    FromWords(AbcBlock(), 18);
    FromWords(AbcBlock(), 19);
    FromWords(AbcBlock(), 20);
    FromWords(AbcBlock(), 21);
    FromWords(AbcBlock(), 22);
    FromWords(AbcBlock(), 23);
  }

  lemma Expansions3()
    ensures Expand(0x12dcbfdb, 0x000f0000, 0x00000000, 0x00000000) == 0xc8215c1a
    ensures Expand(0xe2e2c38e, 0x7da86405, 0x00000000, 0x00000000) == 0xb73679a2
    ensures Expand(0xc8215c1a, 0x600003c6, 0x00000000, 0x00000000) == 0xe5bc3909
    ensures Expand(0xb73679a2, 0x3e9d7b78, 0x00000000, 0x00000000) == 0x32663c5b
    ensures Expand(0xe5bc3909, 0x0183fc00, 0x00000000, 0x00000000) == 0x9d209d67
    ensures Expand(0x32663c5b, 0x12dcbfdb, 0x00000000, 0x00000000) == 0xec8726cb
    ensures Expand(0x9d209d67, 0xe2e2c38e, 0x00000018, 0x00000000) == 0x702138a4
    ensures Expand(0xec8726cb, 0xc8215c1a, 0x61626380, 0x00000018) == 0xd3b7973b
  {
  }

  lemma Words3(w: seq<Word>)
    requires Lists(w, AbcBlock())
    ensures w[24] == 0xc8215c1a && w[25] == 0xb73679a2
    ensures w[26] == 0xe5bc3909 && w[27] == 0x32663c5b
    ensures w[28] == 0x9d209d67 && w[29] == 0xec8726cb
    ensures w[30] == 0x702138a4 && w[31] == 0xd3b7973b
  {
    hide AbcBlock, Schedule, Expand;
    Expansions3();
    Words1(w);
    Words2(w);
    FromWords(AbcBlock(), 24);
    FromWords(AbcBlock(), 25);
    FromWords(AbcBlock(), 26);
    FromWords(AbcBlock(), 27);
    FromWords(AbcBlock(), 28);
    FromWords(AbcBlock(), 29);
    FromWords(AbcBlock(), 30);
    FromWords(AbcBlock(), 31);
  }

  lemma Expansions4()
    ensures Expand(0x702138a4, 0xb73679a2, 0x000f0000, 0x61626380) == 0x93f5997f
    ensures Expand(0xd3b7973b, 0xe5bc3909, 0x7da86405, 0x000f0000) == 0x3b68ba73
    ensures Expand(0x93f5997f, 0x32663c5b, 0x600003c6, 0x7da86405) == 0xaff4ffc1
    ensures Expand(0x3b68ba73, 0x9d209d67, 0x3e9d7b78, 0x600003c6) == 0xf10a5c62
    ensures Expand(0xaff4ffc1, 0xec8726cb, 0x0183fc00, 0x3e9d7b78) == 0x0a8b3996
    ensures Expand(0xf10a5c62, 0x702138a4, 0x12dcbfdb, 0x0183fc00) == 0x72af830a
    ensures Expand(0x0a8b3996, 0xd3b7973b, 0xe2e2c38e, 0x12dcbfdb) == 0x9409e33e
    ensures Expand(0x72af830a, 0x93f5997f, 0xc8215c1a, 0xe2e2c38e) == 0x24641522
  {
  }

  lemma Words4(w: seq<Word>)
    requires Lists(w, AbcBlock())
    ensures w[32] == 0x93f5997f && w[33] == 0x3b68ba73
    ensures w[34] == 0xaff4ffc1 && w[35] == 0xf10a5c62
    ensures w[36] == 0x0a8b3996 && w[37] == 0x72af830a
    ensures w[38] == 0x9409e33e && w[39] == 0x24641522
  {
    hide AbcBlock, Schedule, Expand;
    Expansions4();
    Words2(w);
    Words3(w);
    FromWords(AbcBlock(), 32);
    FromWords(AbcBlock(), 33);
    FromWords(AbcBlock(), 34);
    FromWords(AbcBlock(), 35);
    FromWords(AbcBlock(), 36);
    FromWords(AbcBlock(), 37);
    FromWords(AbcBlock(), 38);
    FromWords(AbcBlock(), 39);
  }

  lemma Expansions5()
    ensures Expand(0x9409e33e, 0x3b68ba73, 0xb73679a2, 0xc8215c1a) == 0x9f47bf94
    ensures Expand(0x24641522, 0xaff4ffc1, 0xe5bc3909, 0xb73679a2) == 0xf0a64f5a
    ensures Expand(0x9f47bf94, 0xf10a5c62, 0x32663c5b, 0xe5bc3909) == 0x3e246a79
    ensures Expand(0xf0a64f5a, 0x0a8b3996, 0x9d209d67, 0x32663c5b) == 0x27333ba3
    ensures Expand(0x3e246a79, 0x72af830a, 0xec8726cb, 0x9d209d67) == 0x0c4763f2
    ensures Expand(0x27333ba3, 0x9409e33e, 0x702138a4, 0xec8726cb) == 0x840abf27
    ensures Expand(0x0c4763f2, 0x24641522, 0xd3b7973b, 0x702138a4) == 0x7a290d5d
    ensures Expand(0x840abf27, 0x9f47bf94, 0x93f5997f, 0xd3b7973b) == 0x065c43da
  {
  }

  lemma Words5(w: seq<Word>)
    requires Lists(w, AbcBlock())
    ensures w[40] == 0x9f47bf94 && w[41] == 0xf0a64f5a
    ensures w[42] == 0x3e246a79 && w[43] == 0x27333ba3
    ensures w[44] == 0x0c4763f2 && w[45] == 0x840abf27
    ensures w[46] == 0x7a290d5d && w[47] == 0x065c43da
  {
    hide AbcBlock, Schedule, Expand;
    Expansions5();
    Words3(w);
    Words4(w);
    FromWords(AbcBlock(), 40);
    FromWords(AbcBlock(), 41);
    FromWords(AbcBlock(), 42);
    FromWords(AbcBlock(), 43);
    FromWords(AbcBlock(), 44);
    FromWords(AbcBlock(), 45);
    FromWords(AbcBlock(), 46);
    FromWords(AbcBlock(), 47);
  }

  lemma Expansions6()
    ensures Expand(0x7a290d5d, 0xf0a64f5a, 0x3b68ba73, 0x93f5997f) == 0xfb3e89cb
    ensures Expand(0x065c43da, 0x3e246a79, 0xaff4ffc1, 0x3b68ba73) == 0xcc7617db
    ensures Expand(0xfb3e89cb, 0x27333ba3, 0xf10a5c62, 0xaff4ffc1) == 0xb9e66c34
    ensures Expand(0xcc7617db, 0x0c4763f2, 0x0a8b3996, 0xf10a5c62) == 0xa9993667
    ensures Expand(0xb9e66c34, 0x840abf27, 0x72af830a, 0x0a8b3996) == 0x84badedd
    ensures Expand(0xa9993667, 0x7a290d5d, 0x9409e33e, 0x72af830a) == 0xc21462bc
    ensures Expand(0x84badedd, 0x065c43da, 0x24641522, 0x9409e33e) == 0x1487472c
    ensures Expand(0xc21462bc, 0xfb3e89cb, 0x9f47bf94, 0x24641522) == 0xb20f7a99
  {
  }

  lemma Words6(w: seq<Word>)
    requires Lists(w, AbcBlock())
    ensures w[48] == 0xfb3e89cb && w[49] == 0xcc7617db
    ensures w[50] == 0xb9e66c34 && w[51] == 0xa9993667
    ensures w[52] == 0x84badedd && w[53] == 0xc21462bc
    ensures w[54] == 0x1487472c && w[55] == 0xb20f7a99
  {
    hide AbcBlock, Schedule, Expand;
    Expansions6();
    Words4(w);
    Words5(w);
    FromWords(AbcBlock(), 48);
    FromWords(AbcBlock(), 49);
    FromWords(AbcBlock(), 50);
    FromWords(AbcBlock(), 51);
    FromWords(AbcBlock(), 52);
    FromWords(AbcBlock(), 53);
    FromWords(AbcBlock(), 54);
    FromWords(AbcBlock(), 55);
  }

  lemma Expansions7()
    ensures Expand(0x1487472c, 0xcc7617db, 0xf0a64f5a, 0x9f47bf94) == 0xef57b9cd
    ensures Expand(0xb20f7a99, 0xb9e66c34, 0x3e246a79, 0xf0a64f5a) == 0xebe6b238
    ensures Expand(0xef57b9cd, 0xa9993667, 0x27333ba3, 0x3e246a79) == 0x9fe3095e
    ensures Expand(0xebe6b238, 0x84badedd, 0x0c4763f2, 0x27333ba3) == 0x78bc8d4b
    ensures Expand(0x9fe3095e, 0xc21462bc, 0x840abf27, 0x0c4763f2) == 0xa43fcf15
    ensures Expand(0x78bc8d4b, 0x1487472c, 0x7a290d5d, 0x840abf27) == 0x668b2ff8
    ensures Expand(0xa43fcf15, 0xb20f7a99, 0x065c43da, 0x7a290d5d) == 0xeeaba2cc
    ensures Expand(0x668b2ff8, 0xef57b9cd, 0xfb3e89cb, 0x065c43da) == 0x12b1edeb
  {
  }

  lemma Words7(w: seq<Word>)
    requires Lists(w, AbcBlock())
    ensures w[56] == 0xef57b9cd && w[57] == 0xebe6b238
    ensures w[58] == 0x9fe3095e && w[59] == 0x78bc8d4b
    ensures w[60] == 0xa43fcf15 && w[61] == 0x668b2ff8
    ensures w[62] == 0xeeaba2cc && w[63] == 0x12b1edeb
  {
    hide AbcBlock, Schedule, Expand;
    Expansions7();
    Words5(w);
    Words6(w);
    FromWords(AbcBlock(), 56);
    FromWords(AbcBlock(), 57);
    FromWords(AbcBlock(), 58);
    FromWords(AbcBlock(), 59);
    FromWords(AbcBlock(), 60);
    FromWords(AbcBlock(), 61);
    FromWords(AbcBlock(), 62);
    FromWords(AbcBlock(), 63);
  }

  // ---------------------------------------------------------------- the rounds

  lemma NextRound(v: Working, block: seq<Byte>, t: nat)
    requires |block| == 64 && 1 <= t <= 64
    ensures Rounds(v, block, t) == Round(Rounds(v, block, t - 1), K()[t - 1], Schedule(block, t - 1))
  {
  }

  lemma NoRounds(block: seq<Byte>)
    requires |block| == 64
    ensures Rounds(Start(H0()), block, 0) == Working(0x6a09e667, 0xbb67ae85, 0x3c6ef372, 0xa54ff53a,
                    0x510e527f, 0x9b05688c, 0x1f83d9ab, 0x5be0cd19)
  {
  }

  lemma Rounds1(w: seq<Word>)
    requires Lists(w, AbcBlock())
    ensures Rounds(Start(H0()), AbcBlock(), 8) ==
            Working(0x85a07b5f, 0xe5030380, 0x2b4209f5, 0x04409a6a,
                    0x0c657a79, 0x9b27a401, 0x714260ad, 0x43ada245)
  {
    hide AbcBlock, Schedule, Rounds, Start, K, H0;
    Row0();
    Words0(w);
    NoRounds(AbcBlock());
    NextRound(Start(H0()), AbcBlock(), 1);
    NextRound(Start(H0()), AbcBlock(), 2);
    NextRound(Start(H0()), AbcBlock(), 3);
    NextRound(Start(H0()), AbcBlock(), 4);
    NextRound(Start(H0()), AbcBlock(), 5);
    NextRound(Start(H0()), AbcBlock(), 6);
    NextRound(Start(H0()), AbcBlock(), 7);
    NextRound(Start(H0()), AbcBlock(), 8);
  }

  lemma Rounds2(w: seq<Word>)
    requires Lists(w, AbcBlock())
    ensures Rounds(Start(H0()), AbcBlock(), 16) ==
            Working(0xb0fa238e, 0xc0645fde, 0xd932eb16, 0x87912990,
                    0x07590dcd, 0x0b92f20c, 0x745a48de, 0x1e578218)
  {
    hide AbcBlock, Schedule, Rounds, Start, K, H0;
    Row1();
    Words1(w);
    Rounds1(w);
    NextRound(Start(H0()), AbcBlock(), 9);
    NextRound(Start(H0()), AbcBlock(), 10);
    NextRound(Start(H0()), AbcBlock(), 11);
    NextRound(Start(H0()), AbcBlock(), 12);
    NextRound(Start(H0()), AbcBlock(), 13);
    NextRound(Start(H0()), AbcBlock(), 14);
    NextRound(Start(H0()), AbcBlock(), 15);
    NextRound(Start(H0()), AbcBlock(), 16);
  }

  lemma Rounds3(w: seq<Word>)
    requires Lists(w, AbcBlock())
    ensures Rounds(Start(H0()), AbcBlock(), 24) ==
            Working(0xc5d53d8d, 0xa7a3623f, 0xc2606d6d, 0x9dc68b63,
                    0xaa47c347, 0x49f5114a, 0xe1257970, 0x8ada8930)
  {
    hide AbcBlock, Schedule, Rounds, Start, K, H0;
    Row2();
    Words2(w);
    Rounds2(w);
    NextRound(Start(H0()), AbcBlock(), 17);
    NextRound(Start(H0()), AbcBlock(), 18);
    NextRound(Start(H0()), AbcBlock(), 19);
    NextRound(Start(H0()), AbcBlock(), 20);
    NextRound(Start(H0()), AbcBlock(), 21);
    NextRound(Start(H0()), AbcBlock(), 22);
    NextRound(Start(H0()), AbcBlock(), 23);
    NextRound(Start(H0()), AbcBlock(), 24);
  }

  lemma Rounds4(w: seq<Word>)
    requires Lists(w, AbcBlock())
    ensures Rounds(Start(H0()), AbcBlock(), 32) ==
            Working(0x73b33bf5, 0xea992a22, 0xa0060b30, 0x363482c9,
                    0xba591112, 0x0109ab3a, 0xade79437, 0x6112a3b7)
  {
    hide AbcBlock, Schedule, Rounds, Start, K, H0;
    Row3();
    Words3(w);
    Rounds3(w);
    NextRound(Start(H0()), AbcBlock(), 25);
    NextRound(Start(H0()), AbcBlock(), 26);
    NextRound(Start(H0()), AbcBlock(), 27);
    NextRound(Start(H0()), AbcBlock(), 28);
    NextRound(Start(H0()), AbcBlock(), 29);
    NextRound(Start(H0()), AbcBlock(), 30);
    NextRound(Start(H0()), AbcBlock(), 31);
    NextRound(Start(H0()), AbcBlock(), 32);
  }

  lemma Rounds5(w: seq<Word>)
    requires Lists(w, AbcBlock())
    ensures Rounds(Start(H0()), AbcBlock(), 40) ==
            Working(0x79ea687a, 0x6dc57a8a, 0x34df1604, 0x41a65cb1,
                    0x1efbc0a0, 0xf0781bc8, 0xa507a53d, 0x0772a26b)
  {
    hide AbcBlock, Schedule, Rounds, Start, K, H0;
    Row4();
    Words4(w);
    Rounds4(w);
    NextRound(Start(H0()), AbcBlock(), 33);
    NextRound(Start(H0()), AbcBlock(), 34);
    NextRound(Start(H0()), AbcBlock(), 35);
    NextRound(Start(H0()), AbcBlock(), 36);
    NextRound(Start(H0()), AbcBlock(), 37);
    NextRound(Start(H0()), AbcBlock(), 38);
    NextRound(Start(H0()), AbcBlock(), 39);
    NextRound(Start(H0()), AbcBlock(), 40);
  }

  lemma Rounds6(w: seq<Word>)
    requires Lists(w, AbcBlock())
    ensures Rounds(Start(H0()), AbcBlock(), 48) ==
            Working(0x4172328d, 0xa14c14b0, 0x72ab4b91, 0x26628815,
                    0xfecf0bc6, 0xd57b94a9, 0xb7755da1, 0xa80f11f0)
  {
    hide AbcBlock, Schedule, Rounds, Start, K, H0;
    Row5();
    Words5(w);
    Rounds5(w);
    NextRound(Start(H0()), AbcBlock(), 41);
    NextRound(Start(H0()), AbcBlock(), 42);
    NextRound(Start(H0()), AbcBlock(), 43);
    NextRound(Start(H0()), AbcBlock(), 44);
    NextRound(Start(H0()), AbcBlock(), 45);
    NextRound(Start(H0()), AbcBlock(), 46);
    NextRound(Start(H0()), AbcBlock(), 47);
    NextRound(Start(H0()), AbcBlock(), 48);
  }

  lemma Rounds7(w: seq<Word>)
    requires Lists(w, AbcBlock())
    ensures Rounds(Start(H0()), AbcBlock(), 56) ==
            Working(0x38cc9913, 0x3ec45cdb, 0xf5702fdb, 0x101fd28f,
                    0x54cb266b, 0xe50e1b4f, 0x9f4787c3, 0x529e7d00)
  {
    hide AbcBlock, Schedule, Rounds, Start, K, H0;
    Row6();
    Words6(w);
    Rounds6(w);
    NextRound(Start(H0()), AbcBlock(), 49);
    NextRound(Start(H0()), AbcBlock(), 50);
    NextRound(Start(H0()), AbcBlock(), 51);
    NextRound(Start(H0()), AbcBlock(), 52);
    NextRound(Start(H0()), AbcBlock(), 53);
    NextRound(Start(H0()), AbcBlock(), 54);
    NextRound(Start(H0()), AbcBlock(), 55);
    NextRound(Start(H0()), AbcBlock(), 56);
  }

  lemma Rounds8(w: seq<Word>)
    requires Lists(w, AbcBlock())
    ensures Rounds(Start(H0()), AbcBlock(), 64) ==
            Working(0x506e3058, 0xd39a2165, 0x04d24d6c, 0xb85e2ce9,
                    0x5ef50f24, 0xfb121210, 0x948d25b6, 0x961f4894)
  {
    hide AbcBlock, Schedule, Rounds, Start, K, H0;
    Row7();
    Words7(w);
    Rounds7(w);
    NextRound(Start(H0()), AbcBlock(), 57);
    NextRound(Start(H0()), AbcBlock(), 58);
    NextRound(Start(H0()), AbcBlock(), 59);
    NextRound(Start(H0()), AbcBlock(), 60);
    NextRound(Start(H0()), AbcBlock(), 61);
    NextRound(Start(H0()), AbcBlock(), 62);
    NextRound(Start(H0()), AbcBlock(), 63);
    NextRound(Start(H0()), AbcBlock(), 64);
  }

  // ---------------------------------------------------------------- the digest

  lemma AbcCompressed()
    ensures Compress(H0(), AbcBlock()) ==
            [0xba7816bf, 0x8f01cfea, 0x414140de, 0x5dae2223,
             0xb00361a3, 0x96177a9c, 0xb410ff61, 0xf20015ad]
  {
    hide AbcBlock, Rounds, Schedule, Start;
    Rounds8(seq(64, t requires 0 <= t => Schedule(AbcBlock(), t)));
  }

  lemma OneBlock(h: HashValue, block: seq<Byte>)
    requires |block| == 64
    ensures Fold(h, block) == Compress(h, block)
  {
    FoldSnoc(h, [], block);
    assert [] + block == block;
  }

  lemma MoreBytes(h: HashValue, n: nat)
    requires n < 8
    ensures HashBytes(h, n + 1) == HashBytes(h, n) + BigEndianWord(h[n])
  {
  }

  lemma EightWords(h: HashValue)
    ensures HashBytes(h, 8) ==
            BigEndianWord(h[0]) + BigEndianWord(h[1]) + BigEndianWord(h[2]) + BigEndianWord(h[3])
            + BigEndianWord(h[4]) + BigEndianWord(h[5]) + BigEndianWord(h[6]) + BigEndianWord(h[7])
  {
    hide HashBytes, BigEndianWord;
    NoBytes(h);
    forall n: nat | n < 8 ensures HashBytes(h, n + 1) == HashBytes(h, n) + BigEndianWord(h[n]) {
      MoreBytes(h, n);
    }
  }

  lemma NoBytes(h: HashValue)
    ensures HashBytes(h, 0) == []
  {
  }

  lemma DigestBytes()
    ensures BigEndianWord(0xba7816bf) == [0xba, 0x78, 0x16, 0xbf]
    ensures BigEndianWord(0x8f01cfea) == [0x8f, 0x01, 0xcf, 0xea]
    ensures BigEndianWord(0x414140de) == [0x41, 0x41, 0x40, 0xde]
    ensures BigEndianWord(0x5dae2223) == [0x5d, 0xae, 0x22, 0x23]
    ensures BigEndianWord(0xb00361a3) == [0xb0, 0x03, 0x61, 0xa3]
    ensures BigEndianWord(0x96177a9c) == [0x96, 0x17, 0x7a, 0x9c]
    ensures BigEndianWord(0xb410ff61) == [0xb4, 0x10, 0xff, 0x61]
    ensures BigEndianWord(0xf20015ad) == [0xf2, 0x00, 0x15, 0xad]
  {
  }

  /** The digest of "abc". */
  lemma AbcDigest()
    ensures Sha256(Abc()) ==
            [0xba, 0x78, 0x16, 0xbf, 0x8f, 0x01, 0xcf, 0xea, 0x41, 0x41, 0x40, 0xde, 0x5d, 0xae, 0x22, 0x23,
             0xb0, 0x03, 0x61, 0xa3, 0x96, 0x17, 0x7a, 0x9c, 0xb4, 0x10, 0xff, 0x61, 0xf2, 0x00, 0x15, 0xad]
  {
    hide AbcBlock, Compress, Pad, Fold, HashBytes, BigEndianWord;
    AbcPadded();
    OneBlock(H0(), AbcBlock());
    AbcCompressed();
    EightWords(Compress(H0(), AbcBlock()));
    DigestBytes();
  }
}

/** The CRC pinned from outside: the known answer for the string "123456789", and four entries of the table
    that section 8 of RFC 1952 computes. */
module Crc32Known {
  import opened Crc32

  lemma OneStep(x: Word, n: nat)
    ensures Iterate(BitStep, x, 0) == x
    ensures Iterate(BitStep, x, n + 1) == BitStep(Iterate(BitStep, x, n))
  {
    hide BitStep;
  }

  lemma EightBits(x: Word)
    ensures Iterate(BitStep, x, 8) == BitStep(BitStep(BitStep(BitStep(BitStep(BitStep(BitStep(BitStep(x))))))))
  {
    hide BitStep, Iterate;
    OneStep(x, 0);
    OneStep(x, 1);
    OneStep(x, 2);
    OneStep(x, 3);
    OneStep(x, 4);
    OneStep(x, 5);
    OneStep(x, 6);
    OneStep(x, 7);
  }

  lemma Byte0()
    ensures ByteStep(BitStep, 0xFFFF_FFFF, 0x31) == 0x7C23_1048
  {
    hide Iterate;
    EightBits(Xor(0xFFFF_FFFF, 0x31));
    assert BitStep(BitStep(BitStep(BitStep(BitStep(BitStep(BitStep(BitStep(0xFFFF_FFCE)))))))) == 0x7C23_1048;
  }

  lemma Byte1()
    ensures ByteStep(BitStep, 0x7C23_1048, 0x32) == 0xB0AC_BB32
  {
    hide Iterate;
    EightBits(Xor(0x7C23_1048, 0x32));
    assert BitStep(BitStep(BitStep(BitStep(BitStep(BitStep(BitStep(BitStep(0x7C23_107A)))))))) == 0xB0AC_BB32;
  }

  lemma Byte2()
    ensures ByteStep(BitStep, 0xB0AC_BB32, 0x33) == 0x77B7_9C2D
  {
    hide Iterate;
    EightBits(Xor(0xB0AC_BB32, 0x33));
    assert BitStep(BitStep(BitStep(BitStep(BitStep(BitStep(BitStep(BitStep(0xB0AC_BB01)))))))) == 0x77B7_9C2D;
  }

  lemma Byte3()
    ensures ByteStep(BitStep, 0x77B7_9C2D, 0x34) == 0x641C_1F5C
  {
    hide Iterate;
    EightBits(Xor(0x77B7_9C2D, 0x34));
    assert BitStep(BitStep(BitStep(BitStep(BitStep(BitStep(BitStep(BitStep(0x77B7_9C19)))))))) == 0x641C_1F5C;
  }

  lemma Byte4()
    ensures ByteStep(BitStep, 0x641C_1F5C, 0x35) == 0x340A_C5E3
  {
    hide Iterate;
    EightBits(Xor(0x641C_1F5C, 0x35));
    assert BitStep(BitStep(BitStep(BitStep(BitStep(BitStep(BitStep(BitStep(0x641C_1F69)))))))) == 0x340A_C5E3;
  }

  lemma Byte5()
    ensures ByteStep(BitStep, 0x340A_C5E3, 0x36) == 0xF68D_2C9E
  {
    hide Iterate;
    EightBits(Xor(0x340A_C5E3, 0x36));
    assert BitStep(BitStep(BitStep(BitStep(BitStep(BitStep(BitStep(BitStep(0x340A_C5D5)))))))) == 0xF68D_2C9E;
  }

  lemma Byte6()
    ensures ByteStep(BitStep, 0xF68D_2C9E, 0x37) == 0xAFFC_9660
  {
    hide Iterate;
    EightBits(Xor(0xF68D_2C9E, 0x37));
    assert BitStep(BitStep(BitStep(BitStep(BitStep(BitStep(BitStep(BitStep(0xF68D_2CA9)))))))) == 0xAFFC_9660;
  }

  lemma Byte7()
    ensures ByteStep(BitStep, 0xAFFC_9660, 0x38) == 0x651F_2550
  {
    hide Iterate;
    EightBits(Xor(0xAFFC_9660, 0x38));
    assert BitStep(BitStep(BitStep(BitStep(BitStep(BitStep(BitStep(BitStep(0xAFFC_9658)))))))) == 0x651F_2550;
  }

  lemma Byte8()
    ensures ByteStep(BitStep, 0x651F_2550, 0x39) == 0x340B_C6D9
  {
    hide Iterate;
    EightBits(Xor(0x651F_2550, 0x39));
    assert BitStep(BitStep(BitStep(BitStep(BitStep(BitStep(BitStep(BitStep(0x651F_2569)))))))) == 0x340B_C6D9;
  }

  lemma NextRegister(d: seq<Byte>, i: nat)
    requires i < |d|
    ensures Run(BitStep, 0xFFFF_FFFF, d[..i + 1]) == ByteStep(BitStep, Run(BitStep, 0xFFFF_FFFF, d[..i]), d[i])
  {
    hide ByteStep;
    RunSnoc(BitStep, 0xFFFF_FFFF, d[..i], d[i]);
    assert d[..i + 1] == d[..i] + [d[i]];
  }

  lemma NoneYet(d: seq<Byte>)
    ensures Run(BitStep, 0xFFFF_FFFF, d[..0]) == 0xFFFF_FFFF
  {
  }

  lemma CheckRegister(d: seq<Byte>)
    requires d == [0x31, 0x32, 0x33, 0x34, 0x35, 0x36, 0x37, 0x38, 0x39]
    ensures Run(BitStep, 0xFFFF_FFFF, d) == 0x340B_C6D9
  {
    hide Run, ByteStep;
    NoneYet(d);
    NextRegister(d, 0);
    Byte0();
    NextRegister(d, 1);
    Byte1();
    NextRegister(d, 2);
    Byte2();
    NextRegister(d, 3);
    Byte3();
    NextRegister(d, 4);
    Byte4();
    NextRegister(d, 5);
    Byte5();
    NextRegister(d, 6);
    Byte6();
    NextRegister(d, 7);
    Byte7();
    NextRegister(d, 8);
    Byte8();
    assert d[..9] == d;
  }

  /** The check value of this CRC: that of the string "123456789". */
  lemma CheckValue()
    ensures Crc([0x31, 0x32, 0x33, 0x34, 0x35, 0x36, 0x37, 0x38, 0x39]) == 0xCBF4_3926
  {
    hide Run;
    CheckRegister([0x31, 0x32, 0x33, 0x34, 0x35, 0x36, 0x37, 0x38, 0x39]);
  }

  lemma Entry1()
    ensures TableEntry(BitStep, 1) == 0x7707_3096
  {
    hide Iterate;
    EightBits(1);
    assert BitStep(BitStep(BitStep(BitStep(BitStep(BitStep(BitStep(BitStep(0x0000_0001)))))))) == 0x7707_3096;
  }

  lemma Entry2()
    ensures TableEntry(BitStep, 2) == 0xEE0E_612C
  {
    hide Iterate;
    EightBits(2);
    assert BitStep(BitStep(BitStep(BitStep(BitStep(BitStep(BitStep(BitStep(0x0000_0002)))))))) == 0xEE0E_612C;
  }

  lemma Entry128()
    ensures TableEntry(BitStep, 128) == 0xEDB8_8320
  {
    hide Iterate;
    EightBits(128);
    assert BitStep(BitStep(BitStep(BitStep(BitStep(BitStep(BitStep(BitStep(0x0000_0080)))))))) == 0xEDB8_8320;
  }

  lemma Entry255()
    ensures TableEntry(BitStep, 255) == 0x2D02_EF8D
  {
    hide Iterate;
    EightBits(255);
    assert BitStep(BitStep(BitStep(BitStep(BitStep(BitStep(BitStep(BitStep(0x0000_00FF)))))))) == 0x2D02_EF8D;
  }

  /** Entries of the table of RFC 1952. */
  lemma TableEntries()
    ensures TableEntry(BitStep, 1) == 0x7707_3096
    ensures TableEntry(BitStep, 2) == 0xEE0E_612C
    ensures TableEntry(BitStep, 128) == 0xEDB8_8320
    ensures TableEntry(BitStep, 255) == 0x2D02_EF8D
  {
    hide TableEntry;
    Entry1();
    Entry2();
    Entry128();
    Entry255();
  }
}

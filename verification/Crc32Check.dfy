/** The two CRCs of the text "123456789", the check values by which CRC algorithms are catalogued. */
module Crc32Check {
  import opened Crc32
  import opened Crc32Detection
  import opened Crc32Polynomial

  const DIGITS: seq<bv8> := [49, 50, 51, 52, 53, 54, 55, 56, 57]

  // ---------------------------------------------------------------- reflected

  lemma NextR(c: bv32, data: seq<bv8>, i: nat)
    requires i < |data|
    ensures RegisterR(c, data[i..]) == RegisterR(UpdateR(c, data[i]), data[i + 1..])
  {
    hide UpdateR;
    assert data[i..][0] == data[i] && data[i..][1..] == data[i + 1..];
  }

  /** Eight shifts, spelled out. */
  lemma ByteR(c: bv32, b: bv8, c0: bv32, c1: bv32, c2: bv32, c3: bv32, c4: bv32, c5: bv32, c6: bv32, c7: bv32, c8: bv32)
    requires Xor(c, b as bv32) == c0 && StepR(c0) == c1 && StepR(c1) == c2 && StepR(c2) == c3 && StepR(c3) == c4
    requires StepR(c4) == c5 && StepR(c5) == c6 && StepR(c6) == c7 && StepR(c7) == c8
    ensures UpdateR(c, b) == c8
  {
    hide StepR, StepsR, Xor;
    EightSteps(c0, c1, c2, c3, c4, c5, c6, c7, c8);
  }

  lemma ReflectedCheck()
    ensures Reflected(DIGITS) == 0xCBF4_3926
  {
    hide RegisterR, UpdateR, StepsR;
    assert DIGITS[0..] == DIGITS;
    NextR(0xFFFFFFFF, DIGITS, 0);
    ByteR(0xFFFFFFFF, 49, 0xFFFFFFCE, 0x7FFFFFE7, 0xD2477CD3, 0x849B3D49,
      0xAFF51D84, 0x57FA8EC2, 0x2BFD4761, 0xF8462090, 0x7C231048);
    NextR(0x7C231048, DIGITS, 1);
    ByteR(0x7C231048, 50, 0x7C23107A, 0x3E11883D, 0xF2B0473E, 0x7958239F,
      0xD11492EF, 0x8532CA57, 0xAF21E60B, 0xBA287025, 0xB0ACBB32);
    NextR(0xB0ACBB32, DIGITS, 2);
    ByteR(0xB0ACBB32, 51, 0xB0ACBB01, 0xB5EEDEA0, 0x5AF76F50, 0x2D7BB7A8,
      0x16BDDBD4, 0x0B5EEDEA, 0x05AF76F5, 0xEF6F385A, 0x77B79C2D);
    NextR(0x77B79C2D, DIGITS, 3);
    ByteR(0x77B79C2D, 52, 0x77B79C19, 0xD6634D2C, 0x6B31A696, 0x3598D34B,
      0xF774EA85, 0x9602F662, 0x4B017B31, 0xC8383EB8, 0x641C1F5C);
    NextR(0x641C1F5C, DIGITS, 4);
    ByteR(0x641C1F5C, 53, 0x641C1F69, 0xDFB68C94, 0x6FDB464A, 0x37EDA325,
      0xF64E52B2, 0x7B272959, 0xD02B178C, 0x68158BC6, 0x340AC5E3);
    NextR(0x340AC5E3, DIGITS, 5);
    ByteR(0x340AC5E3, 54, 0x340AC5D5, 0xF7BDE1CA, 0x7BDEF0E5, 0xD057FB52,
      0x682BFDA9, 0xD9AD7DF4, 0x6CD6BEFA, 0x366B5F7D, 0xF68D2C9E);
    NextR(0xF68D2C9E, DIGITS, 6);
    ByteR(0xF68D2C9E, 55, 0xF68D2CA9, 0x96FE1574, 0x4B7F0ABA, 0x25BF855D,
      0xFF67418E, 0x7FB3A0C7, 0xD2615343, 0x84882A81, 0xAFFC9660);
    NextR(0xAFFC9660, DIGITS, 7);
    ByteR(0xAFFC9660, 56, 0xAFFC9658, 0x57FE4B2C, 0x2BFF2596, 0x15FF92CB,
      0xE7474A45, 0x9E1B2602, 0x4F0D9301, 0xCA3E4AA0, 0x651F2550);
    NextR(0x651F2550, DIGITS, 8);
    ByteR(0x651F2550, 57, 0x651F2569, 0xDF371194, 0x6F9B88CA, 0x37CDC465,
      0xF65E6112, 0x7B2F3089, 0xD02F1B64, 0x68178DB2, 0x340BC6D9);
    EndR(0x340B_C6D9, DIGITS);
  }

  lemma EndR(c: bv32, data: seq<bv8>)
    ensures RegisterR(c, data[|data|..]) == c
  {
  }

  // ---------------------------------------------------------------- forward

  lemma NextF(c: bv32, data: seq<bv8>, i: nat)
    requires i < |data|
    ensures RegisterF(c, data[i..]) == RegisterF(UpdateF(c, data[i]), data[i + 1..])
  {
    hide UpdateF;
    assert data[i..][0] == data[i] && data[i..][1..] == data[i + 1..];
  }

  lemma ByteF(c: bv32, b: bv8, c0: bv32, c1: bv32, c2: bv32, c3: bv32, c4: bv32, c5: bv32, c6: bv32, c7: bv32, c8: bv32)
    requires Xor(c, AtTop(b)) == c0 && StepF(c0) == c1 && StepF(c1) == c2 && StepF(c2) == c3 && StepF(c3) == c4
    requires StepF(c4) == c5 && StepF(c5) == c6 && StepF(c6) == c7 && StepF(c7) == c8
    ensures UpdateF(c, b) == c8
  {
    hide StepF, Xor, AtTop;
    assert StepsF(c6, 2) == c8;
    assert StepsF(c4, 4) == c8;
    assert StepsF(c2, 6) == c8;
  }

  lemma ForwardCheck()
    ensures Forward(DIGITS) == 0x0376_E6E7
  {
    hide RegisterF, UpdateF, StepsF;
    assert DIGITS[0..] == DIGITS;
    NextF(0xFFFFFFFF, DIGITS, 0);
    ByteF(0xFFFFFFFF, 49, 0xCEFFFFFF, 0x993EE249, 0x36BCD925, 0x6D79B24A,
      0xDAF36494, 0xB127D49F, 0x668EB489, 0xCD1D6912, 0x9EFBCF93);
    NextF(0x9EFBCF93, DIGITS, 1);
    ByteF(0x9EFBCF93, 50, 0xACFBCF93, 0x5D368291, 0xBA6D0522, 0x701B17F3,
      0xE0362FE6, 0xC4AD427B, 0x8D9B9941, 0x1FF62F35, 0x3FEC5E6A);
    NextF(0x3FEC5E6A, DIGITS, 2);
    ByteF(0x3FEC5E6A, 51, 0x0CEC5E6A, 0x19D8BCD4, 0x33B179A8, 0x6762F350,
      0xCEC5E6A0, 0x994AD0F7, 0x3654BC59, 0x6CA978B2, 0xD952F164);
    NextF(0xD952F164, DIGITS, 3);
    ByteF(0xD952F164, 52, 0xED52F164, 0xDE64FF7F, 0xB808E349, 0x74D0DB25,
      0xE9A1B64A, 0xD7827123, 0xABC5FFF1, 0x534AE255, 0xA695C4AA);
    NextF(0xA695C4AA, DIGITS, 4);
    ByteF(0xA695C4AA, 53, 0x9395C4AA, 0x23EA94E3, 0x47D529C6, 0x8FAA538C,
      0x1B95BAAF, 0x372B755E, 0x6E56EABC, 0xDCADD578, 0xBD9AB747);
    NextF(0xBD9AB747, DIGITS, 5);
    ByteF(0xBD9AB747, 54, 0x8B9AB747, 0x13F47339, 0x27E8E672, 0x4FD1CCE4,
      0x9FA399C8, 0x3B862E27, 0x770C5C4E, 0xEE18B89C, 0xD8F06C8F);
    NextF(0xD8F06C8F, DIGITS, 6);
    ByteF(0xD8F06C8F, 55, 0xEFF06C8F, 0xDB21C4A9, 0xB28294E5, 0x61C4347D,
      0xC38868FA, 0x83D1CC43, 0x03628531, 0x06C50A62, 0x0D8A14C4);
    NextF(0x0D8A14C4, DIGITS, 7);
    ByteF(0x0D8A14C4, 56, 0x358A14C4, 0x6B142988, 0xD6285310, 0xA891BB97,
      0x55E26A99, 0xABC4D532, 0x5348B7D3, 0xA6916FA6, 0x49E3C2FB);
    NextF(0x49E3C2FB, DIGITS, 8);
    ByteF(0x49E3C2FB, 57, 0x70E3C2FB, 0xE1C785F6, 0xC74E165B, 0x8A5D3101,
      0x107B7FB5, 0x20F6FF6A, 0x41EDFED4, 0x83DBFDA8, 0x0376E6E7);
    EndF(0x0376_E6E7, DIGITS);
  }

  lemma EndF(c: bv32, data: seq<bv8>)
    ensures RegisterF(c, data[|data|..]) == c
  {
  }

  // ---------------------------------------------------------------- the generator

  /** The four coefficients at the head of a word, and the word they leave. */
  lemma FourBits(c0: bv32, c1: bv32, c2: bv32, c3: bv32, c4: bv32, n: nat)
    requires n >= 4 && Shl(c0) == c1 && Shl(c1) == c2 && Shl(c2) == c3 && Shl(c3) == c4
    ensures Bits(c0, n) == [High(c0), High(c1), High(c2), High(c3)] + Bits(c4, n - 4)
  {
    hide High, Shl, Bits;
    OneBit(c0, n);
    OneBit(c1, n - 1);
    OneBit(c2, n - 2);
    OneBit(c3, n - 3);
    Listed(High(c0), High(c1), High(c2), High(c3), Bits(c4, n - 4));
  }

  lemma OneBit(c: bv32, n: nat)
    requires n >= 1
    ensures Bits(c, n) == [High(c)] + Bits(Shl(c), n - 1)
  {
    hide High, Shl;
  }

  lemma Listed(a: bool, b: bool, c: bool, d: bool, rest: Poly)
    ensures [a] + ([b] + ([c] + ([d] + rest))) == [a, b, c, d] + rest
  {
  }

  /** x^32 + x^26 + x^23 + x^22 + x^16 + x^12 + x^11 + x^10 + x^8 + x^7 + x^5 + x^4 + x^2 + x + 1. */
  lemma GeneratorIs(k: nat)
    requires k <= 32
    ensures Generator()[32 - k] <==> k in {32, 26, 23, 22, 16, 12, 11, 10, 8, 7, 5, 4, 2, 1, 0}
  {
    hide Bits;
    FourBits(0x04C11DB7, 0x09823B6E, 0x130476DC, 0x2608EDB8, 0x4C11DB70, 32);
    FourBits(0x4C11DB70, 0x9823B6E0, 0x30476DC0, 0x608EDB80, 0xC11DB700, 28);
    FourBits(0xC11DB700, 0x823B6E00, 0x0476DC00, 0x08EDB800, 0x11DB7000, 24);
    FourBits(0x11DB7000, 0x23B6E000, 0x476DC000, 0x8EDB8000, 0x1DB70000, 20);
    FourBits(0x1DB70000, 0x3B6E0000, 0x76DC0000, 0xEDB80000, 0xDB700000, 16);
    FourBits(0xDB700000, 0xB6E00000, 0x6DC00000, 0xDB800000, 0xB7000000, 12);
    FourBits(0xB7000000, 0x6E000000, 0xDC000000, 0xB8000000, 0x70000000, 8);
    FourBits(0x70000000, 0xE0000000, 0xC0000000, 0x80000000, 0x00000000, 4);
    BitsNone();
  }

  lemma BitsNone()
    ensures Bits(0, 0) == []
  {
  }
}

/**
 The reflected and the forward CRC are mirror images, which carries the detection results over
 to crc32_mpeg_2.
 */
module Crc32Mirror {
  import opened Crc32
  import opened Crc32Detection

  /** The bits of a word in the opposite order. */
  function Mirror(x: bv32): bv32 {
    var a := ((x >> 1) & 0x5555_5555) | ((x & 0x5555_5555) << 1);
    var b := ((a >> 2) & 0x3333_3333) | ((a & 0x3333_3333) << 2);
    var c := ((b >> 4) & 0x0F0F_0F0F) | ((b & 0x0F0F_0F0F) << 4);
    var d := ((c >> 8) & 0x00FF_00FF) | ((c & 0x00FF_00FF) << 8);
    (d >> 16) | (d << 16)
  }

  function MirrorByte(x: bv8): bv8 {
    var a := ((x >> 1) & 0x55) | ((x & 0x55) << 1);
    var b := ((a >> 2) & 0x33) | ((a & 0x33) << 2);
    (b >> 4) | (b << 4)
  }

  function MirrorBytes(data: seq<bv8>): (r: seq<bv8>)
    ensures |r| == |data|
    ensures forall i :: 0 <= i < |data| ==> r[i] == MirrorByte(data[i])
  {
    seq(|data|, i requires 0 <= i < |data| => MirrorByte(data[i]))
  }

  /** Bit i of the mirrored word is bit 31 - i of the word. */
  lemma MirrorBit(x: bv32, i: bv32)
    requires i < 32
    ensures (Mirror(x) >> i) & 1 == (x >> (31 - i)) & 1
  {
    hide Mirror;
    if i < 16 {
      MirrorLowHalf(x, i);
    } else {
      MirrorTwice(x);
      MirrorLowHalf(Mirror(x), 31 - i);
    }
  }

  lemma MirrorLowHalf(x: bv32, i: bv32)
    requires i < 16
    ensures (Mirror(x) >> i) & 1 == (x >> (31 - i)) & 1
  {
    if
    case i == 0 => case i == 1 => case i == 2 => case i == 3 =>
    case i == 4 => case i == 5 => case i == 6 => case i == 7 =>
    case i == 8 => case i == 9 => case i == 10 => case i == 11 =>
    case i == 12 => case i == 13 => case i == 14 => case i == 15 =>
  }

  lemma MirrorByteBit(x: bv8, i: bv8)
    requires i < 8
    ensures (MirrorByte(x) >> i) & 1 == (x >> (7 - i)) & 1
  {
  }

  lemma MirrorTwice(x: bv32)
    ensures Mirror(Mirror(x)) == x
  {
  }

  lemma MirrorByteTwice(x: bv8)
    ensures MirrorByte(MirrorByte(x)) == x
  {
  }

  lemma MirrorXor(a: bv32, b: bv32)
    ensures Mirror(Xor(a, b)) == Xor(Mirror(a), Mirror(b))
  {
  }

  lemma MirrorAtTop(b: bv8)
    ensures Mirror(AtTop(b)) == MirrorByte(b) as bv32
  {
  }

  lemma MirrorShift(c: bv32)
    ensures Mirror(c << 1) == Mirror(c) >> 1
  {
  }

  lemma MirrorLowBit(c: bv32)
    ensures (Mirror(c) & 1 == 1) == (c & TOP != 0)
  {
  }

  lemma MirrorPoly()
    ensures Mirror(POLY) == POLY_REFLECTED
  {
  }

  lemma MirrorStep(c: bv32)
    ensures StepR(Mirror(c)) == Mirror(StepF(c))
  {
    hide Mirror, Xor;
    MirrorLowBit(c);
    MirrorShift(c);
    MirrorXor(c << 1, POLY);
    MirrorPoly();
  }

  lemma {:induction false} MirrorSteps(c: bv32, n: nat)
    ensures StepsR(Mirror(c), n) == Mirror(StepsF(c, n))
    decreases n
  {
    hide StepR, StepF, Mirror;
    if n > 0 {
      MirrorStep(c);
      MirrorSteps(StepF(c), n - 1);
    }
  }

  lemma MirrorUpdate(c: bv32, b: bv8)
    ensures UpdateR(Mirror(c), MirrorByte(b)) == Mirror(UpdateF(c, b))
  {
    hide StepsR, StepsF, Mirror, MirrorByte, Xor, AtTop;
    MirrorSteps(Xor(c, AtTop(b)), 8);
    MirrorXor(c, AtTop(b));
    MirrorAtTop(b);
  }

  lemma {:induction false} MirrorRegister(c: bv32, data: seq<bv8>)
    ensures RegisterR(Mirror(c), MirrorBytes(data)) == Mirror(RegisterF(c, data))
    decreases |data|
  {
    hide UpdateR, UpdateF, Mirror, MirrorByte;
    if data != [] {
      MirrorUpdate(c, data[0]);
      assert MirrorBytes(data)[1..] == MirrorBytes(data[1..]);
      MirrorRegister(UpdateF(c, data[0]), data[1..]);
    }
  }

  lemma MirrorInit()
    ensures Mirror(INIT) == INIT
  {
  }

  lemma MirrorBytesTwice(data: seq<bv8>)
    ensures MirrorBytes(MirrorBytes(data)) == data
  {
    hide MirrorByte;
    forall i | 0 <= i < |data|
      ensures MirrorByte(MirrorByte(data[i])) == data[i]
    {
      MirrorByteTwice(data[i]);
    }
  }

  /** crc32 is the complement of crc32_mpeg_2 of the mirrored bytes, mirrored. */
  lemma ReflectedMirrorsForward(data: seq<bv8>)
    ensures Reflected(data) == Not(Mirror(Forward(MirrorBytes(data))))
  {
    hide RegisterR, RegisterF, Mirror, MirrorByte, Not;
    MirrorInit();
    MirrorRegister(INIT, MirrorBytes(data));
    MirrorBytesTwice(data);
  }

  /** The forward CRC detects the same bursts. */
  lemma ForwardDetectsBurst(x: seq<bv8>, y: seq<bv8>, k: nat)
    requires |x| == |y| && x != y
    requires forall i :: 0 <= i < |x| && !(k <= i < k + 4) ==> x[i] == y[i]
    ensures Forward(x) != Forward(y)
  {
    hide RegisterR, RegisterF, Mirror, MirrorByte, Not;
    MirrorBytesTwice(x);
    MirrorBytesTwice(y);
    ReflectedMirrorsForward(MirrorBytes(x));
    ReflectedMirrorsForward(MirrorBytes(y));
    DetectsBurst(MirrorBytes(x), MirrorBytes(y), k);
  }

  function BigEndian(w: bv32): seq<bv8> {
    [LowByte(w >> 24), LowByte(w >> 16), LowByte(w >> 8), LowByte(w)]
  }

  lemma MirrorLowByte(w: bv32)
    ensures MirrorByte(LowByte(w >> 24)) == LowByte(Mirror(w))
    ensures MirrorByte(LowByte(w >> 16)) == LowByte(Mirror(w) >> 8)
    ensures MirrorByte(LowByte(w >> 8)) == LowByte(Mirror(w) >> 16)
    ensures MirrorByte(LowByte(w)) == LowByte(Mirror(w) >> 24)
  {
  }

  lemma MirrorBigEndian(w: bv32)
    ensures MirrorBytes(BigEndian(w)) == LittleEndian(Mirror(w))
  {
    hide Mirror, MirrorByte, LowByte;
    MirrorLowByte(w);
  }

  /** A message followed by its forward CRC, high byte first, has CRC zero. */
  lemma ForwardResidue(data: seq<bv8>)
    ensures Forward(data + BigEndian(Forward(data))) == 0
  {
    hide StepsR, RegisterR, RegisterF, Mirror, MirrorByte, LittleEndian, BigEndian, Xor;
    var w := Forward(data);
    var whole := data + BigEndian(w);
    MirrorInit();
    MirrorRegister(INIT, data);
    MirrorRegister(INIT, whole);
    MirrorBigEndian(w);
    assert MirrorBytes(whole) == MirrorBytes(data) + LittleEndian(Mirror(w));
    RegisterRConcat(INIT, MirrorBytes(data), LittleEndian(Mirror(w)));
    FeedsWord(Mirror(w), Mirror(w));
    XorSelf(Mirror(w));
    ZeroStays(32);
    MirrorTwice(Forward(whole));
    MirrorZero();
  }

  lemma XorSelf(a: bv32)
    ensures Xor(a, a) == 0
  {
  }

  lemma MirrorZero()
    ensures Mirror(0) == 0
  {
  }

  lemma {:induction false} ZeroStays(n: nat)
    ensures StepsR(0, n) == 0
    decreases n
  {
    if n > 0 {
      ZeroStays(n - 1);
    }
  }
}

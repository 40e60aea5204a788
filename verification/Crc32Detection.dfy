/**
 What the reflected CRC detects: the register step is a bijection, so a burst confined to four
 bytes always shows, and a message carrying its own CRC leaves a fixed residue.
 */
module Crc32Detection {
  import opened Crc32

  function UnstepR(d: bv32): bv32 {
    if d & TOP != 0 then ((d ^ POLY_REFLECTED) << 1) | 1 else d << 1
  }

  lemma UnstepStep(c: bv32)
    ensures UnstepR(StepR(c)) == c
  {
  }

  lemma {:induction false} StepsRInjective(a: bv32, b: bv32, n: nat)
    requires StepsR(a, n) == StepsR(b, n)
    ensures a == b
    decreases n
  {
    hide StepR, UnstepR;
    if n > 0 {
      StepsRInjective(StepR(a), StepR(b), n - 1);
      UnstepStep(a);
      UnstepStep(b);
    }
  }

  lemma XorCancels(a: bv32, b: bv32, x: bv32)
    requires Xor(a, x) == Xor(b, x)
    ensures a == b
  {
    assert (a ^ x) ^ x == a && (b ^ x) ^ x == b;
  }

  lemma {:induction false} RegisterRInjective(a: bv32, b: bv32, data: seq<bv8>)
    requires RegisterR(a, data) == RegisterR(b, data)
    ensures a == b
    decreases |data|
  {
    hide StepsR, Xor;
    if data != [] {
      RegisterRInjective(UpdateR(a, data[0]), UpdateR(b, data[0]), data[1..]);
      StepsRInjective(Xor(a, data[0] as bv32), Xor(b, data[0] as bv32), 8);
      XorCancels(a, b, data[0] as bv32);
    }
  }

  lemma {:induction false} RegisterRConcat(c: bv32, x: seq<bv8>, y: seq<bv8>)
    ensures RegisterR(c, x + y) == RegisterR(RegisterR(c, x), y)
    decreases |x|
  {
    hide UpdateR;
    if x == [] {
      assert x + y == y;
    } else {
      assert (x + y)[1..] == x[1..] + y;
      RegisterRConcat(UpdateR(c, x[0]), x[1..], y);
    }
  }

  // ---------------------------------------------------------------- four bytes at once

  function Pack(b0: bv8, b1: bv8, b2: bv8, b3: bv8): bv32 {
    (b0 as bv32) | ((b1 as bv32) << 8) | ((b2 as bv32) << 16) | ((b3 as bv32) << 24)
  }

  lemma PackSplit(c: bv32, b0: bv8, b1: bv8, b2: bv8, b3: bv8)
    ensures Xor(c, Pack(b0, b1, b2, b3)) == Xor(Xor(c, b0 as bv32), Pack(0, b1, b2, b3))
    ensures ShiftsOut(Pack(0, b1, b2, b3), Pack(b1, b2, b3, 0))
  {
  }

  lemma AbsorbByte(c: bv32, b0: bv8, b1: bv8, b2: bv8, b3: bv8)
    ensures StepsR(Xor(c, Pack(b0, b1, b2, b3)), 8) == Xor(UpdateR(c, b0), Pack(b1, b2, b3, 0))
  {
    hide StepsR, Xor, Pack, ShiftsOut;
    PackSplit(c, b0, b1, b2, b3);
    StepsRLinear(Xor(c, b0 as bv32), Pack(0, b1, b2, b3), 8);
    EightShifts(Pack(0, b1, b2, b3), Pack(b1, b2, b3, 0));
  }

  /** Four bytes act on the register as one word followed by 32 shifts. */
  lemma FourBytes(c: bv32, b0: bv8, b1: bv8, b2: bv8, b3: bv8)
    ensures RegisterR(c, [b0, b1, b2, b3]) == StepsR(Xor(c, Pack(b0, b1, b2, b3)), 32)
  {
    hide StepsR, UpdateR, Pack, Xor;
    var c1 := UpdateR(c, b0);
    var c2 := UpdateR(c1, b1);
    var c3 := UpdateR(c2, b2);
    AbsorbByte(c, b0, b1, b2, b3);
    AbsorbByte(c1, b1, b2, b3, 0);
    AbsorbByte(c2, b2, b3, 0, 0);
    AbsorbByte(c3, b3, 0, 0, 0);
    StepsRAdd(Xor(c, Pack(b0, b1, b2, b3)), 8, 24);
    StepsRAdd(Xor(c1, Pack(b1, b2, b3, 0)), 8, 16);
    StepsRAdd(Xor(c2, Pack(b2, b3, 0, 0)), 8, 8);
    PackZero(UpdateR(c3, b3));
    UnfoldFour(c, b0, b1, b2, b3);
  }

  lemma PackZero(c: bv32)
    ensures Xor(c, Pack(0, 0, 0, 0)) == c
  {
  }

  lemma UnfoldFour(c: bv32, b0: bv8, b1: bv8, b2: bv8, b3: bv8)
    ensures RegisterR(c, [b0, b1, b2, b3]) == UpdateR(UpdateR(UpdateR(UpdateR(c, b0), b1), b2), b3)
  {
    hide UpdateR;
    RegisterRConcat(c, [b0], [b1, b2, b3]);
    RegisterRConcat(c, [b0, b1], [b2, b3]);
    RegisterRConcat(c, [b0, b1, b2], [b3]);
    assert [b0, b1, b2, b3] == [b0, b1, b2] + [b3];
    assert [b0, b1, b2] == [b0, b1] + [b2] && [b0, b1] == [b0] + [b1];
    RegisterRConcat(c, [b0, b1], [b2]);
    RegisterRConcat(c, [b0], [b1]);
    OneByte(c, b0);
    OneByte(UpdateR(c, b0), b1);
    OneByte(UpdateR(UpdateR(c, b0), b1), b2);
    OneByte(UpdateR(UpdateR(UpdateR(c, b0), b1), b2), b3);
  }

  lemma OneByte(c: bv32, b: bv8)
    ensures RegisterR(c, [b]) == UpdateR(c, b)
  {
    hide UpdateR;
    assert [b][1..] == [];
  }

  function LittleEndian(w: bv32): seq<bv8> {
    [LowByte(w), LowByte(w >> 8), LowByte(w >> 16), LowByte(w >> 24)]
  }

  lemma UnpackPack(b0: bv8, b1: bv8, b2: bv8, b3: bv8)
    ensures LittleEndian(Pack(b0, b1, b2, b3)) == [b0, b1, b2, b3]
  {
  }

  // ---------------------------------------------------------------- error detection

  lemma FourByteBlockInjective(c: bv32, u: seq<bv8>, v: seq<bv8>)
    requires |u| == |v| == 4
    requires RegisterR(c, u) == RegisterR(c, v)
    ensures u == v
  {
    hide StepsR, UpdateR, Pack, Xor, LittleEndian, RegisterR;
    assert u == [u[0], u[1], u[2], u[3]] && v == [v[0], v[1], v[2], v[3]];
    FourBytes(c, u[0], u[1], u[2], u[3]);
    FourBytes(c, v[0], v[1], v[2], v[3]);
    var p, q := Pack(u[0], u[1], u[2], u[3]), Pack(v[0], v[1], v[2], v[3]);
    StepsRInjective(Xor(c, p), Xor(c, q), 32);
    XorCommutes(c, p);
    XorCommutes(c, q);
    XorCancels(p, q, c);
    UnpackPack(u[0], u[1], u[2], u[3]);
    UnpackPack(v[0], v[1], v[2], v[3]);
  }

  /** Four bytes or fewer are determined by their effect on the register. */
  lemma ShortBlockInjective(c: bv32, u: seq<bv8>, v: seq<bv8>)
    requires |u| == |v| <= 4
    requires RegisterR(c, u) == RegisterR(c, v)
    ensures u == v
  {
    hide RegisterR;
    var pad: seq<bv8> := seq(4 - |u|, _ => 0);
    RegisterRConcat(c, u, pad);
    RegisterRConcat(c, v, pad);
    FourByteBlockInjective(c, u + pad, v + pad);
    assert u == (u + pad)[..|u|] && v == (v + pad)[..|v|];
  }

  /** Messages of one length that differ only inside bytes k .. k+3 get different CRCs. */
  lemma DetectsBurst(x: seq<bv8>, y: seq<bv8>, k: nat)
    requires |x| == |y| && x != y
    requires forall i :: 0 <= i < |x| && !(k <= i < k + 4) ==> x[i] == y[i]
    ensures Reflected(x) != Reflected(y)
  {
    hide RegisterR, Not;
    var from := if k < |x| then k else |x|;
    var to := if k + 4 < |x| then k + 4 else |x|;
    var prefix, suffix := x[..from], x[to..];
    var c := RegisterR(INIT, prefix);
    assert prefix == y[..from] && suffix == y[to..];
    assert x == prefix + (x[from..to] + suffix) && y == prefix + (y[from..to] + suffix);
    if Reflected(x) == Reflected(y) {
      ComplementInjective(RegisterR(INIT, x), RegisterR(INIT, y));
      RegisterRConcat(INIT, prefix, x[from..to] + suffix);
      RegisterRConcat(INIT, prefix, y[from..to] + suffix);
      RegisterRConcat(c, x[from..to], suffix);
      RegisterRConcat(c, y[from..to], suffix);
      RegisterRInjective(RegisterR(c, x[from..to]), RegisterR(c, y[from..to]), suffix);
      ShortBlockInjective(c, x[from..to], y[from..to]);
      assert false;
    }
  }

  lemma ComplementInjective(a: bv32, b: bv32)
    requires Not(a) == Not(b)
    ensures a == b
  {
    assert !(!a) == a && !(!b) == b;
  }

  // ---------------------------------------------------------------- residue

  lemma PackLittleEndian(w: bv32)
    ensures Pack(LowByte(w), LowByte(w >> 8), LowByte(w >> 16), LowByte(w >> 24)) == w
  {
  }

  /** Feeding a word, low byte first, into the register is one exclusive-or and 32 shifts. */
  lemma FeedsWord(c: bv32, w: bv32)
    ensures RegisterR(c, LittleEndian(w)) == StepsR(Xor(c, w), 32)
  {
    hide StepsR, RegisterR, Pack, LowByte, Xor;
    FourBytes(c, LowByte(w), LowByte(w >> 8), LowByte(w >> 16), LowByte(w >> 24));
    PackLittleEndian(w);
  }

  /** A message followed by its own CRC, low byte first, always has the same CRC. */
  lemma ReflectedResidue(data: seq<bv8>)
    ensures Reflected(data + LittleEndian(Reflected(data))) == 0x2144_DF1C
  {
    hide StepsR, RegisterR, LittleEndian, Xor;
    var c := RegisterR(INIT, data);
    RegisterRConcat(INIT, data, LittleEndian(Not(c)));
    FeedsWord(c, Not(c));
    XorComplement(c);
    OnesRunDown();
  }

  lemma XorComplement(c: bv32)
    ensures Xor(c, Not(c)) == INIT
  {
  }

  lemma OnesRunDown()
    ensures StepsR(INIT, 32) == 0xDEBB_20E3
  {
    hide StepsR;
    EightSteps(INIT, 0x92477CDF, 0xA49B3D4F, 0xBFF51D87, 0xB2420DE3, 0xB49985D1, 0xB7F441C8, 0x5BFA20E4, 0x2DFD1072);
    EightSteps(0x2DFD1072, 0x16FE8839, 0xE6C7C73C, 0x7363E39E, 0x39B1F1CF, 0xF1607BC7, 0x9508BEC3, 0xA73CDC41,
      0xBE26ED00);
    EightSteps(0xBE26ED00, 0x5F137680, 0x2F89BB40, 0x17C4DDA0, 0x0BE26ED0, 0x05F13768, 0x02F89BB4, 0x017C4DDA,
      0x00BE26ED);
    EightSteps(0x00BE26ED, 0xEDE79056, 0x76F3C82B, 0xD6C16735, 0x86D830BA, 0x436C185D, 0xCC0E8F0E, 0x66074787,
      0xDEBB20E3);
    StepsRAdd(INIT, 8, 24);
    StepsRAdd(0x2DFD1072, 8, 16);
    StepsRAdd(0xBE26ED00, 8, 8);
  }
}

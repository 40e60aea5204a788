/**
 Bursts at any bit offset: two messages that differ only within 32 consecutive bits, in the order in
 which the register takes them in, never have the same CRC.
 */
module Crc32Burst {
  import opened Crc32
  import opened Crc32Detection
  import opened Crc32Mirror
  import opened Crc32Polynomial

  // ---------------------------------------------------------------- the forward step is a bijection

  function UnstepF(d: bv32): bv32 {
    if d & 1 == 1 then (Xor(d, POLY) >> 1) | TOP else d >> 1
  }

  lemma UnstepHigh(c: bv32)
    requires c & TOP != 0
    ensures UnstepF(Xor(c << 1, POLY)) == c
  {
  }

  lemma UnstepLow(c: bv32)
    requires c & TOP == 0
    ensures UnstepF(c << 1) == c
  {
  }

  lemma UnstepStepF(c: bv32)
    ensures UnstepF(StepF(c)) == c
  {
    hide UnstepF, Xor;
    if c & TOP != 0 {
      UnstepHigh(c);
    } else {
      UnstepLow(c);
    }
  }

  lemma {:induction false} StepsFInjective(a: bv32, b: bv32, n: nat)
    requires StepsF(a, n) == StepsF(b, n)
    ensures a == b
    decreases n
  {
    hide StepF, UnstepF;
    if n > 0 {
      StepsFInjective(StepF(a), StepF(b), n - 1);
      UnstepStepF(a);
      UnstepStepF(b);
    }
  }

  lemma FeedBitInjective(a: bv32, b: bv32, bit: bool)
    requires FeedBit(a, bit) == FeedBit(b, bit)
    ensures a == b
  {
    hide StepF, UnstepF, Xor;
    var w: bv32 := if bit then TOP else 0;
    UnstepStepF(Xor(a, w));
    UnstepStepF(Xor(b, w));
    XorCancels(a, b, w);
  }

  lemma {:induction false} FeedInjective(a: bv32, b: bv32, bits: Poly)
    requires Feed(a, bits) == Feed(b, bits)
    ensures a == b
    decreases |bits|
  {
    hide FeedBit;
    if bits != [] {
      FeedInjective(FeedBit(a, bits[0]), FeedBit(b, bits[0]), bits[1..]);
      FeedBitInjective(a, b, bits[0]);
    }
  }

  // ---------------------------------------------------------------- at most 32 bits at once

  function Prepend(b: bool, w: bv32): bv32 {
    (w >> 1) | (if b then TOP else 0)
  }

  lemma PrependBits(b: bool, w: bv32)
    ensures High(Prepend(b, w)) == b
    ensures w & 1 == 0 ==> Shl(Prepend(b, w)) == w
  {
  }

  lemma {:induction false} ShlNZero(n: nat)
    ensures ShlN(0, n) == 0
    decreases n
  {
    if n > 0 {
      ShlNZero(n - 1);
    }
  }

  lemma ThirtyOneShifts(w: bv32)
    requires ShlN(w, 31) == 0
    ensures w & 1 == 0
  {
    hide ShlN, Shl;
    EightShiftsLeft(w);
    EightShiftsLeft(w << 8);
    EightShiftsLeft(w << 16);
    FourShifts(w << 24);
    ShlNAdd(w, 8, 23);
    ShlNAdd(w << 8, 8, 15);
    ShlNAdd(w << 16, 8, 7);
    ShlNAdd(w << 24, 4, 3);
    LastThree(w);
  }

  lemma LastThree(w: bv32)
    requires ShlN(w << 28, 3) == 0
    ensures w & 1 == 0
  {
    assert ShlN(w << 30, 1) == w << 31;
  }

  /** A word with only n leading bits ends in a zero when there is room for one more. */
  lemma LowBitClear(w: bv32, n: nat)
    requires ShlN(w, n) == 0 && n < 32
    ensures w & 1 == 0
  {
    hide ShlN;
    ShlNAdd(w, n, 31 - n);
    ShlNZero(31 - n);
    ThirtyOneShifts(w);
  }

  /** The word whose leading bits are these. */
  lemma {:induction false} WordOf(u: Poly) returns (w: bv32)
    requires |u| <= 32
    ensures Bits(w, |u|) == u && ShlN(w, |u|) == 0
    decreases |u|
  {
    hide Prepend, High, Shl;
    if u == [] {
      w := 0;
    } else {
      var rest := WordOf(u[1..]);
      LowBitClear(rest, |u| - 1);
      PrependBits(u[0], rest);
      w := Prepend(u[0], rest);
    }
  }

  /** Up to 32 bits are determined by their effect on the register. */
  lemma ShortWindowInjective(c: bv32, u: Poly, v: Poly)
    requires |u| == |v| <= 32
    requires Feed(c, u) == Feed(c, v)
    ensures u == v
  {
    hide Feed, Bits, ShlN, StepsF, Xor;
    var p := WordOf(u);
    var q := WordOf(v);
    StepsFeedBits(c, p, |u|);
    StepsFeedBits(c, q, |v|);
    StepsFInjective(Xor(c, p), Xor(c, q), |u|);
    XorCommutes(c, p);
    XorCommutes(c, q);
    XorCancels(p, q, c);
  }

  // ---------------------------------------------------------------- messages

  /** Feeding is injective over everything that agrees outside a window of 32 bits. */
  lemma FeedDetectsBurst(c: bv32, x: Poly, y: Poly, at: nat)
    requires |x| == |y| && x != y
    requires forall i :: 0 <= i < |x| && !(at <= i < at + 32) ==> x[i] == y[i]
    ensures Feed(c, x) != Feed(c, y)
  {
    hide Feed;
    var from := if at < |x| then at else |x|;
    var to := if at + 32 < |x| then at + 32 else |x|;
    var prefix, suffix := x[..from], x[to..];
    var u, v := x[from..to], y[from..to];
    Parts(x, from, to);
    Parts(y, from, to);
    assert prefix == y[..from] && suffix == y[to..];
    if Feed(c, x) == Feed(c, y) {
      FeedParts(c, prefix, u, suffix);
      FeedParts(c, prefix, v, suffix);
      FeedInjective(Feed(Feed(c, prefix), u), Feed(Feed(c, prefix), v), suffix);
      ShortWindowInjective(Feed(c, prefix), u, v);
      assert false;
    }
  }

  lemma Parts(x: Poly, from: nat, to: nat)
    requires from <= to <= |x|
    ensures x == x[..from] + (x[from..to] + x[to..])
  {
  }

  lemma FeedParts(c: bv32, x: Poly, y: Poly, z: Poly)
    ensures Feed(c, x + (y + z)) == Feed(Feed(Feed(c, x), y), z)
  {
    hide Feed;
    FeedConcat(c, x, y + z);
    FeedConcat(Feed(c, x), y, z);
  }

  lemma AtTopInjective(a: bv8, b: bv8)
    requires AtTop(a) == AtTop(b)
    ensures a == b
  {
  }

  lemma ByteBitsInjective(a: bv8, b: bv8)
    requires Bits(AtTop(a), 8) == Bits(AtTop(b), 8)
    ensures a == b
  {
    hide AtTop, Bits, ShlN;
    ByteShiftsOut(a);
    ByteShiftsOut(b);
    BitsDetermine(AtTop(a), AtTop(b), 8);
    AtTopInjective(a, b);
  }

  lemma {:induction false} MessageBitsInjective(x: seq<bv8>, y: seq<bv8>)
    requires |x| == |y| && MessageBits(x) == MessageBits(y)
    ensures x == y
    decreases |x|
  {
    hide AtTop, Bits;
    if x != [] {
      assert MessageBits(x)[..8] == Bits(AtTop(x[0]), 8) && MessageBits(y)[..8] == Bits(AtTop(y[0]), 8);
      assert MessageBits(x)[8..] == MessageBits(x[1..]) && MessageBits(y)[8..] == MessageBits(y[1..]);
      ByteBitsInjective(x[0], y[0]);
      MessageBitsInjective(x[1..], y[1..]);
    }
  }

  /** Bit i of a message, its bytes taken low or high bit first. */
  predicate Bit(data: seq<bv8>, i: nat, lowFirst: bool)
    requires i < 8 * |data|
  {
    BitOf(data[i / 8], if lowFirst then i % 8 else 7 - i % 8)
  }

  predicate BitOf(b: bv8, n: nat)
    requires n < 8
  {
    (b >> n) & 1 == 1
  }

  lemma ShiftedBit(b: bv8, n: nat)
    requires n < 7
    ensures BitOf(b << 1, n + 1) == BitOf(b, n)
  {
    if
    case n == 0 =>
    case n == 1 =>
    case n == 2 =>
    case n == 3 =>
    case n == 4 =>
    case n == 5 =>
    case n == 6 =>
  }

  lemma ShlAtTop(b: bv8)
    ensures Shl(AtTop(b)) == AtTop(b << 1) && High(AtTop(b)) == BitOf(b, 7)
  {
  }

  lemma {:induction false} ByteBit(b: bv8, n: nat, i: nat)
    requires i < n <= 8
    ensures Bits(AtTop(b), n)[i] == BitOf(b, 7 - i)
    decreases i
  {
    hide AtTop, BitOf, High, Shl;
    ShlAtTop(b);
    if i > 0 {
      ByteBit(b << 1, n - 1, i - 1);
      ShiftedBit(b, 7 - i);
    }
  }

  lemma {:induction false} MessageBit(data: seq<bv8>, i: nat)
    requires i < 8 * |data|
    ensures MessageBits(data)[i] == Bit(data, i, false)
    decreases |data|
  {
    hide AtTop, BitOf, Bits;
    if i < 8 {
      ByteBit(data[0], 8, i);
    } else {
      MessageBit(data[1..], i - 8);
    }
  }

  lemma MirrorBitOf(b: bv8, n: nat)
    requires n < 8
    ensures BitOf(MirrorByte(b), n) == BitOf(b, 7 - n)
  {
    hide MirrorByte;
    if
    case n == 0 => MirrorByteBit(b, 0);
    case n == 1 => MirrorByteBit(b, 1);
    case n == 2 => MirrorByteBit(b, 2);
    case n == 3 => MirrorByteBit(b, 3);
    case n == 4 => MirrorByteBit(b, 4);
    case n == 5 => MirrorByteBit(b, 5);
    case n == 6 => MirrorByteBit(b, 6);
    case n == 7 => MirrorByteBit(b, 7);
  }

  lemma MirroredBit(data: seq<bv8>, i: nat)
    requires i < 8 * |data|
    ensures Bit(MirrorBytes(data), i, false) == Bit(data, i, true)
  {
    hide MirrorByte, BitOf;
    MirrorBitOf(data[i / 8], 7 - i % 8);
  }

  /** The messages differ, and in no bit outside 32 consecutive ones. */
  predicate Burst(x: seq<bv8>, y: seq<bv8>, at: nat, lowFirst: bool) {
    && |x| == |y| && x != y
    && forall i: nat :: i < 8 * |x| && !(at <= i < at + 32) ==> Bit(x, i, lowFirst) == Bit(y, i, lowFirst)
  }

  /** crc32_mpeg_2, which takes each byte high bit first, detects every burst of at most 32 bits, wherever it starts. */
  lemma ForwardDetectsBits(x: seq<bv8>, y: seq<bv8>, at: nat)
    requires Burst(x, y, at, false)
    ensures Forward(x) != Forward(y)
  {
    hide MessageBits, Feed, RegisterF, Bit;
    var u, v := MessageBits(x), MessageBits(y);
    if u == v {
      MessageBitsInjective(x, y);
    }
    forall i: nat | i < |u| && !(at <= i < at + 32)
      ensures u[i] == v[i]
    {
      MessageBit(x, i);
      MessageBit(y, i);
    }
    RegisterFeedsBits(INIT, x);
    RegisterFeedsBits(INIT, y);
    FeedDetectsBurst(INIT, u, v, at);
  }

  lemma MirroredBurst(x: seq<bv8>, y: seq<bv8>, at: nat)
    requires Burst(x, y, at, true)
    ensures Burst(MirrorBytes(x), MirrorBytes(y), at, false)
  {
    hide MirrorByte, Bit;
    MirrorBytesTwice(x);
    MirrorBytesTwice(y);
    forall i: nat | i < 8 * |x| && !(at <= i < at + 32)
      ensures Bit(MirrorBytes(x), i, false) == Bit(MirrorBytes(y), i, false)
    {
      MirroredBit(x, i);
      MirroredBit(y, i);
    }
  }

  /** So does crc32, which takes each byte low bit first. */
  lemma ReflectedDetectsBits(x: seq<bv8>, y: seq<bv8>, at: nat)
    requires Burst(x, y, at, true)
    ensures Reflected(x) != Reflected(y)
  {
    hide *;
    MirroredBurst(x, y, at);
    ForwardDetectsBits(MirrorBytes(x), MirrorBytes(y), at);
    ReflectedMirrorsForward(x);
    ReflectedMirrorsForward(y);
    if Reflected(x) == Reflected(y) {
      ComplementInjective(Mirror(Forward(MirrorBytes(x))), Mirror(Forward(MirrorBytes(y))));
      MirrorTwice(Forward(MirrorBytes(x)));
      MirrorTwice(Forward(MirrorBytes(y)));
    }
  }
}

/**
 What the forward CRC means: it is the remainder of a polynomial division over GF(2).

 A polynomial is the sequence of its coefficients, highest degree first.
 */
module Crc32Polynomial {
  import opened Crc32
  import Gf2Polynomial

  type Poly = Gf2Polynomial.Poly

  // ---------------------------------------------------------------- words as coefficients

  function High(c: bv32): bool {
    c & TOP != 0
  }

  function Shl(c: bv32): bv32 {
    c << 1
  }

  function ShlN(c: bv32, n: nat): bv32
    decreases n
  {
    if n == 0 then c else ShlN(Shl(c), n - 1)
  }

  /** The n most significant bits of a word. */
  function Bits(c: bv32, n: nat): (p: Poly)
    ensures |p| == n
    decreases n
  {
    if n == 0 then [] else [High(c)] + Bits(Shl(c), n - 1)
  }

  /** The message as a polynomial, every byte most significant bit first. */
  function MessageBits(data: seq<bv8>): (p: Poly)
    ensures |p| == 8 * |data|
  {
    if data == [] then [] else Bits(AtTop(data[0]), 8) + MessageBits(data[1..])
  }

  /** The generator, with its leading coefficient. */
  function Generator(): (p: Poly)
    ensures |p| == 33
  {
    [true] + Bits(POLY, 32)
  }

  // ---------------------------------------------------------------- bit by bit

  function FeedBit(c: bv32, b: bool): bv32 {
    StepF(Xor(c, if b then TOP else 0))
  }

  function Feed(c: bv32, bits: Poly): bv32
    decreases |bits|
  {
    if bits == [] then c else Feed(FeedBit(c, bits[0]), bits[1..])
  }

  lemma StepFSplitsHighHigh(c: bv32, w: bv32)
    requires High(c) && High(w)
    ensures StepF(Xor(c, w)) == Xor(FeedBit(c, true), Shl(w))
  {
  }

  lemma StepFSplitsLowHigh(c: bv32, w: bv32)
    requires !High(c) && High(w)
    ensures StepF(Xor(c, w)) == Xor(FeedBit(c, true), Shl(w))
  {
  }

  lemma StepFSplitsHighLow(c: bv32, w: bv32)
    requires High(c) && !High(w)
    ensures StepF(Xor(c, w)) == Xor(FeedBit(c, false), Shl(w))
  {
  }

  lemma StepFSplitsLowLow(c: bv32, w: bv32)
    requires !High(c) && !High(w)
    ensures StepF(Xor(c, w)) == Xor(FeedBit(c, false), Shl(w))
  {
  }

  /** Mixing a word in at once or its leading bit first makes no difference. */
  lemma StepFSplits(c: bv32, w: bv32)
    ensures StepF(Xor(c, w)) == Xor(FeedBit(c, High(w)), Shl(w))
  {
    hide StepF, Xor, FeedBit, High, Shl;
    if High(w) {
      if High(c) {
        StepFSplitsHighHigh(c, w);
      } else {
        StepFSplitsLowHigh(c, w);
      }
    } else if High(c) {
      StepFSplitsHighLow(c, w);
    } else {
      StepFSplitsLowLow(c, w);
    }
  }

  lemma XorZero(c: bv32)
    ensures Xor(c, 0) == c
  {
  }

  lemma {:induction false} StepsFeedBits(c: bv32, w: bv32, n: nat)
    requires ShlN(w, n) == 0
    ensures StepsF(Xor(c, w), n) == Feed(c, Bits(w, n))
    decreases n
  {
    hide Xor, StepF, FeedBit, High, Shl;
    if n == 0 {
      XorZero(c);
    } else {
      StepFSplits(c, w);
      StepsFeedBits(FeedBit(c, High(w)), Shl(w), n - 1);
    }
  }

  lemma ByteShiftsOut(b: bv8)
    ensures ShlN(AtTop(b), 8) == 0
  {
    hide ShlN;
    EightShiftsLeft(AtTop(b));
  }

  lemma FourShifts(w: bv32)
    ensures ShlN(w, 4) == w << 4
  {
    assert ShlN(w << 2, 2) == w << 4;
  }

  lemma {:induction false} ShlNAdd(c: bv32, m: nat, n: nat)
    ensures ShlN(c, m + n) == ShlN(ShlN(c, m), n)
    decreases m
  {
    hide Shl;
    if m > 0 {
      ShlNAdd(Shl(c), m - 1, n);
    }
  }

  lemma {:induction false} FeedConcat(c: bv32, x: Poly, y: Poly)
    ensures Feed(c, x + y) == Feed(Feed(c, x), y)
    decreases |x|
  {
    hide FeedBit;
    if x == [] {
      assert x + y == y;
    } else {
      assert (x + y)[1..] == x[1..] + y;
      FeedConcat(FeedBit(c, x[0]), x[1..], y);
    }
  }

  lemma {:induction false} RegisterFeedsBits(c: bv32, data: seq<bv8>)
    ensures RegisterF(c, data) == Feed(c, MessageBits(data))
    decreases |data|
  {
    hide Xor, StepsF, Feed, AtTop;
    if data == [] {
      FeedNil(c);
    } else {
      ByteShiftsOut(data[0]);
      StepsFeedBits(c, AtTop(data[0]), 8);
      FeedConcat(c, Bits(AtTop(data[0]), 8), MessageBits(data[1..]));
      RegisterFeedsBits(UpdateF(c, data[0]), data[1..]);
    }
  }

  lemma FeedNil(c: bv32)
    ensures Feed(c, []) == c
  {
    hide FeedBit;
  }

  // ---------------------------------------------------------------- one division step

  lemma {:induction false} BitsXor(a: bv32, b: bv32, n: nat)
    ensures Bits(Xor(a, b), n) == Gf2Polynomial.Add(Bits(a, n), Bits(b, n))
    decreases n
  {
    hide Xor, High, Shl;
    if n > 0 {
      HighShlXor(a, b);
      BitsXor(Shl(a), Shl(b), n - 1);
    }
  }

  lemma HighShlXor(a: bv32, b: bv32)
    ensures High(Xor(a, b)) == (High(a) != High(b))
    ensures Shl(Xor(a, b)) == Xor(Shl(a), Shl(b))
  {
  }

  lemma {:induction false} BitsSnoc(c: bv32, n: nat)
    ensures Bits(c, n + 1) == Bits(c, n) + [High(ShlN(c, n))]
    decreases n
  {
    hide High, Shl;
    if n > 0 {
      BitsSnoc(Shl(c), n - 1);
    }
  }

  lemma EightShiftsLeft(w: bv32)
    ensures ShlN(w, 8) == w << 8
  {
    hide ShlN;
    FourShifts(w);
    FourShifts(w << 4);
    ShlNAdd(w, 4, 4);
  }

  lemma HighZero()
    ensures !High(0)
  {
  }

  lemma BitsShl(c: bv32)
    ensures Bits(Shl(c), 32) == Bits(c, 32)[1..] + [false]
  {
    hide High, Shl;
    BitsSnoc(Shl(c), 31);
    AllShiftedOut(c);
    HighZero();
  }

  lemma {:induction false} BitsZero(n: nat)
    ensures Bits(0, n) == Gf2Polynomial.Zeros(n)
    decreases n
  {
    if n > 0 {
      BitsZero(n - 1);
    }
  }

  /** The word that is subtracted when bit b arrives. */
  function Subtrahend(c: bv32, b: bool): bv32 {
    if High(c) != b then POLY else 0
  }

  lemma FeedBitHigh(c: bv32, b: bool)
    requires High(c)
    ensures FeedBit(c, b) == Xor(Shl(c), Subtrahend(c, b))
  {
  }

  lemma FeedBitLow(c: bv32, b: bool)
    requires !High(c)
    ensures FeedBit(c, b) == Xor(Shl(c), Subtrahend(c, b))
  {
  }

  /** One bit fed into the word is one step of the polynomial division. */
  lemma FeedBitBits(c: bv32, b: bool)
    ensures Bits(FeedBit(c, b), 32) == Gf2Polynomial.FeedBit(Bits(c, 32), b, Generator())
  {
    hide FeedBit, Xor, Shl, Bits, High;
    if High(c) {
      FeedBitHigh(c, b);
    } else {
      FeedBitLow(c, b);
    }
    BitsXor(Shl(c), Subtrahend(c, b), 32);
    BitsShl(c);
    BitsHead(c);
    BitsZero(32);
    assert Generator()[1..] == Bits(POLY, 32);
  }

  lemma BitsHead(c: bv32)
    ensures Bits(c, 32)[0] == High(c)
  {
    hide High, Shl;
  }

  lemma {:induction false} FeedBits(c: bv32, m: Poly)
    ensures Bits(Feed(c, m), 32) == Gf2Polynomial.Feed(Bits(c, 32), m, Generator())
    decreases |m|
  {
    hide FeedBit, Bits, Generator, Gf2Polynomial.FeedBit;
    if m != [] {
      FeedBitBits(c, m[0]);
      FeedBits(FeedBit(c, m[0]), m[1..]);
    }
  }

  /** M(x) x^32 + (x^31 + ... + 1) x^(8n), for a message M of n bytes. */
  function Dividend(data: seq<bv8>): (p: Poly)
    ensures |p| == 8 * |data| + 32
  {
    Gf2Polynomial.Add(Bits(INIT, 32) + Gf2Polynomial.Zeros(8 * |data|), MessageBits(data) + Gf2Polynomial.Zeros(32))
  }

  /** crc32_mpeg_2 is the remainder of the dividend by the generator ... */
  lemma ForwardIsRemainder(data: seq<bv8>) returns (q: Poly)
    ensures |q| == 8 * |data|
    ensures Dividend(data) == Gf2Polynomial.Combine(q, Generator(), Bits(Forward(data), 32))
  {
    hide Bits, Feed, Generator, MessageBits, RegisterF;
    GeneratorMonic();
    q := Gf2Polynomial.Division(Bits(INIT, 32), MessageBits(data), Generator());
    RegisterFeedsBits(INIT, data);
    FeedBits(INIT, MessageBits(data));
  }

  /** ... and it is the only word that is. */
  lemma OnlyRemainder(data: seq<bv8>, q: Poly, w: bv32)
    requires |q| == 8 * |data|
    requires Dividend(data) == Gf2Polynomial.Combine(q, Generator(), Bits(w, 32))
    ensures w == Forward(data)
  {
    hide Bits, Feed, Generator, MessageBits, RegisterF;
    GeneratorMonic();
    var q' := ForwardIsRemainder(data);
    Gf2Polynomial.RemainderUnique(Generator(), q, Bits(w, 32), q', Bits(Forward(data), 32));
    BitsInjective(w, Forward(data));
  }

  lemma GeneratorMonic()
    ensures Generator()[0]
  {
    hide Bits;
  }

  lemma {:induction false} BitsDetermine(a: bv32, b: bv32, n: nat)
    requires Bits(a, n) == Bits(b, n) && ShlN(a, n) == ShlN(b, n)
    ensures a == b
    decreases n
  {
    hide High, Shl;
    if n > 0 {
      assert Bits(a, n)[0] == High(a) && Bits(b, n)[0] == High(b);
      assert Bits(a, n)[1..] == Bits(Shl(a), n - 1) && Bits(b, n)[1..] == Bits(Shl(b), n - 1);
      BitsDetermine(Shl(a), Shl(b), n - 1);
      HeadAndTail(a, b);
    }
  }

  lemma HeadAndTail(a: bv32, b: bv32)
    requires High(a) == High(b) && Shl(a) == Shl(b)
    ensures a == b
  {
  }

  lemma BitsInjective(a: bv32, b: bv32)
    requires Bits(a, 32) == Bits(b, 32)
    ensures a == b
  {
    hide Bits, ShlN;
    AllShiftedOut(a);
    AllShiftedOut(b);
    BitsDetermine(a, b, 32);
  }

  lemma AllShiftedOut(c: bv32)
    ensures ShlN(c, 32) == 0
  {
    hide ShlN;
    EightShiftsLeft(c);
    EightShiftsLeft(c << 8);
    EightShiftsLeft(c << 16);
    EightShiftsLeft(c << 24);
    ShlNAdd(c, 8, 24);
    ShlNAdd(c << 8, 8, 16);
    ShlNAdd(c << 16, 8, 8);
  }
}

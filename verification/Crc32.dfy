/**
 The three CRC-32 routines of crc/crc32.c and the register functions they are proved against.

 Exclusive-or and complement are wrapped in functions so that proofs which only need its algebra can hide them.
 */
module Crc32 {

  const INIT: bv32 := 0xFFFF_FFFF
  const POLY_REFLECTED: bv32 := 0xEDB8_8320
  const POLY: bv32 := 0x04C1_1DB7
  const TOP: bv32 := 0x8000_0000

  function Xor(a: bv32, b: bv32): bv32 {
    a ^ b
  }

  function Not(a: bv32): bv32 {
    !a
  }

  // ---------------------------------------------------------------- reflected register

  /** One shift, least significant bit first. */
  function StepR(c: bv32): bv32 {
    if c & 1 == 1 then Xor(c >> 1, POLY_REFLECTED) else c >> 1
  }

  function StepsR(c: bv32, n: nat): bv32
    decreases n
  {
    if n == 0 then c else StepsR(StepR(c), n - 1)
  }

  function UpdateR(c: bv32, b: bv8): bv32 {
    StepsR(Xor(c, b as bv32), 8)
  }

  function RegisterR(c: bv32, data: seq<bv8>): bv32
    decreases |data|
  {
    if data == [] then c else RegisterR(UpdateR(c, data[0]), data[1..])
  }

  /** The value crc32 returns. */
  function Reflected(data: seq<bv8>): bv32 {
    Not(RegisterR(INIT, data))
  }

  // ---------------------------------------------------------------- forward register

  /** One shift, most significant bit first. */
  function StepF(c: bv32): bv32 {
    if c & TOP != 0 then Xor(c << 1, POLY) else c << 1
  }

  function StepsF(c: bv32, n: nat): bv32
    decreases n
  {
    if n == 0 then c else StepsF(StepF(c), n - 1)
  }

  function UpdateF(c: bv32, b: bv8): bv32 {
    StepsF(Xor(c, AtTop(b)), 8)
  }

  function AtTop(b: bv8): bv32 {
    (b as bv32) << 24
  }

  function RegisterF(c: bv32, data: seq<bv8>): bv32
    decreases |data|
  {
    if data == [] then c else RegisterF(UpdateF(c, data[0]), data[1..])
  }

  /** The value crc32_mpeg_2 returns. */
  function Forward(data: seq<bv8>): bv32 {
    RegisterF(INIT, data)
  }

  // ---------------------------------------------------------------- the routines

  method ComputeReflected(data: seq<bv8>) returns (r: bv32)
    requires |data| < 0x1_0000
    ensures r == Reflected(data)
  {
    hide Xor;
    var crc := INIT;
    var at := 0;
    while at < |data|
      invariant at <= |data|
      invariant RegisterR(crc, data[at..]) == RegisterR(INIT, data)
    {
      ghost var before := crc;
      crc := Xor(crc, data[at] as bv32);
      var i := 0;
      while i < 8
        invariant 0 <= i <= 8
        invariant StepsR(crc, 8 - i) == UpdateR(before, data[at])
      {
        if crc & 1 == 1 {
          crc := Xor(crc >> 1, POLY_REFLECTED);
        } else {
          crc := crc >> 1;
        }
        i := i + 1;
      }
      at := at + 1;
    }
    r := !crc;
  }

  method ComputeForward(data: seq<bv8>) returns (r: bv32)
    requires |data| < 0x1_0000
    ensures r == Forward(data)
  {
    hide Xor;
    var crc := INIT;
    var at := 0;
    while at < |data|
      invariant at <= |data|
      invariant RegisterF(crc, data[at..]) == RegisterF(INIT, data)
    {
      ghost var before := crc;
      crc := Xor(crc, (data[at] as bv32) << 24);
      var i := 0;
      while i < 8
        invariant 0 <= i <= 8
        invariant StepsF(crc, 8 - i) == UpdateF(before, data[at])
      {
        if crc & TOP != 0 {
          crc := Xor(crc << 1, POLY);
        } else {
          crc := crc << 1;
        }
        i := i + 1;
      }
      at := at + 1;
    }
    r := crc;
  }

  /** Table entry b is byte b after eight shifts. */
  function Entry(b: bv8): bv32 {
    StepsR(b as bv32, 8)
  }

  function Index(b: bv8): (i: nat)
    ensures i < 256
  {
    b as nat
  }

  ghost predicate Filled(table: array<bv32>, upTo: nat)
    reads table
  {
    table.Length == 256 && forall b: bv8 :: Index(b) < upTo ==> table[Index(b)] == Entry(b)
  }

  lemma LastIndex(b: bv8)
    ensures Index(0) == 0 && (Index(b) == 255 <==> b == 255)
  {
  }

  lemma NextIndex(b: bv8)
    requires b != 255
    ensures Index(b + 1) == Index(b) + 1
  {
  }

  lemma IndexInjective(a: bv8, b: bv8)
    ensures Index(a) == Index(b) ==> a == b
  {
  }

  method InitTable(table: array<bv32>)
    requires table.Length == 256
    modifies table
    ensures Filled(table, 256)
  {
    hide Xor, Index, Entry;
    var i, byte: bv8 := 0, 0;
    LastIndex(byte);
    while i < 256
      invariant 0 <= i <= 256 && (i < 256 ==> Index(byte) == i)
      invariant Filled(table, i)
    {
      table[i] := ComputeEntry(byte);
      forall b: bv8 | Index(b) < i + 1
        ensures table[Index(b)] == Entry(b)
      {
        IndexInjective(b, byte);
      }
      LastIndex(byte);
      if byte != 255 {
        NextIndex(byte);
      }
      i, byte := i + 1, byte + 1;
    }
  }

  /** The inner loop of init_crc_table. */
  method ComputeEntry(b: bv8) returns (c: bv32)
    ensures c == Entry(b)
  {
    hide Xor;
    c := b as bv32;
    var j := 0;
    while j < 8
      invariant 0 <= j <= 8
      invariant StepsR(c, 8 - j) == Entry(b)
    {
      if c & 1 == 1 {
        XorCommutes(POLY_REFLECTED, c >> 1);
        c := Xor(POLY_REFLECTED, c >> 1);
      } else {
        c := c >> 1;
      }
      j := j + 1;
    }
  }

  lemma XorCommutes(a: bv32, b: bv32)
    ensures Xor(a, b) == Xor(b, a)
  {
  }

  function LowByte(c: bv32): bv8 {
    (c & 0xFF) as bv8
  }

  /** One table lookup does the work of eight shifts, whatever the register and the byte. */
  lemma LookupIsEightSteps(c: bv32, b: bv8)
    ensures Xor(Entry(LowByte(Xor(c, b as bv32))), c >> 8) == UpdateR(c, b)
  {
    hide StepsR, Xor, LowByte, ShiftsOut;
    var low, high := SplitLowByte(c, b);
    StepsRLinear(low, high, 8);
    EightShifts(high, c >> 8);
  }

  method ComputeByTable(table: array<bv32>, data: seq<bv8>) returns (r: bv32)
    requires Filled(table, 256)
    requires |data| < 0x1_0000
    ensures r == Reflected(data)
  {
    hide Xor, Index, Entry, LowByte, UpdateR;
    var crc := INIT;
    var i := 0;
    while i < |data|
      invariant 0 <= i <= |data|
      invariant RegisterR(crc, data[i..]) == RegisterR(INIT, data)
    {
      LookupIsEightSteps(crc, data[i]);
      crc := Xor(table[Index(LowByte(Xor(crc, data[i] as bv32)))], crc >> 8);
      i := i + 1;
    }
    r := !crc;
  }

  // ---------------------------------------------------------------- linearity of the shift

  lemma StepRLinearBothOdd(a: bv32, b: bv32)
    requires a & 1 == 1 && b & 1 == 1
    ensures StepR(Xor(a, b)) == Xor(StepR(a), StepR(b))
  {
  }

  lemma StepRLinearOneOdd(a: bv32, b: bv32)
    requires a & 1 == 1 && b & 1 != 1
    ensures StepR(Xor(a, b)) == Xor(StepR(a), StepR(b))
  {
  }

  lemma StepRLinearEven(a: bv32, b: bv32)
    requires a & 1 != 1 && b & 1 != 1
    ensures StepR(Xor(a, b)) == Xor(StepR(a), StepR(b))
  {
  }

  lemma StepRLinear(a: bv32, b: bv32)
    ensures StepR(Xor(a, b)) == Xor(StepR(a), StepR(b))
  {
    hide StepR, Xor;
    if a & 1 == 1 {
      if b & 1 == 1 {
        StepRLinearBothOdd(a, b);
      } else {
        StepRLinearOneOdd(a, b);
      }
    } else if b & 1 == 1 {
      StepRLinearOneOdd(b, a);
      XorCommutes(a, b);
      XorCommutes(StepR(a), StepR(b));
    } else {
      StepRLinearEven(a, b);
    }
  }

  lemma {:induction false} StepsRLinear(a: bv32, b: bv32, n: nat)
    ensures StepsR(Xor(a, b), n) == Xor(StepsR(a, n), StepsR(b, n))
    decreases n
  {
    hide StepR, Xor;
    if n > 0 {
      StepRLinear(a, b);
      StepsRLinear(StepR(a), StepR(b), n - 1);
    }
  }

  lemma {:induction false} StepsRAdd(c: bv32, m: nat, n: nat)
    ensures StepsR(c, m + n) == StepsR(StepsR(c, m), n)
    decreases m
  {
    hide StepR;
    if m > 0 {
      StepsRAdd(StepR(c), m - 1, n);
    }
  }

  lemma EightSteps(c0: bv32, c1: bv32, c2: bv32, c3: bv32, c4: bv32, c5: bv32, c6: bv32, c7: bv32, c8: bv32)
    requires StepR(c0) == c1 && StepR(c1) == c2 && StepR(c2) == c3 && StepR(c3) == c4
    requires StepR(c4) == c5 && StepR(c5) == c6 && StepR(c6) == c7 && StepR(c7) == c8
    ensures StepsR(c0, 8) == c8
  {
    hide StepR;
    assert StepsR(c6, 2) == c8;
    assert StepsR(c4, 4) == c8;
    assert StepsR(c2, 6) == c8;
  }

  predicate ShiftsOut(c: bv32, d: bv32) {
    c & 0xFF == 0 && c >> 8 == d
  }

  /** With its low byte clear the register only shifts. */
  lemma EightShifts(c: bv32, d: bv32)
    requires ShiftsOut(c, d)
    ensures StepsR(c, 8) == d
  {
    EightSteps(c, c >> 1, c >> 2, c >> 3, c >> 4, c >> 5, c >> 6, c >> 7, c >> 8);
  }

  lemma SplitLowByte(c: bv32, b: bv8) returns (low: bv32, high: bv32)
    ensures low == LowByte(Xor(c, b as bv32)) as bv32
    ensures ShiftsOut(high, c >> 8)
    ensures Xor(c, b as bv32) == Xor(low, high)
  {
    hide Xor, LowByte, ShiftsOut;
    var x := Xor(c, b as bv32);
    low, high := LowByte(x) as bv32, x & 0xFFFF_FF00;
    SplitWord(x);
    HighBytesKept(c, b);
  }

  lemma SplitWord(x: bv32)
    ensures x == Xor(LowByte(x) as bv32, x & 0xFFFF_FF00)
  {
  }

  lemma HighBytesKept(c: bv32, b: bv8)
    ensures ShiftsOut(Xor(c, b as bv32) & 0xFFFF_FF00, c >> 8)
  {
  }
}

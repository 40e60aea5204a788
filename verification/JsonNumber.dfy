/**
 The number tokens of parse_number and print_number: strtod on the exact value its token denotes,
 and the numbers of section 6 of RFC 8259. Rounding to double is not modelled.
 */
module JsonNumber {
  import opened Bytes
  import opened Json

  predicate IsDigit(c: byte) {
    48 <= c <= 57
  }

  /** The characters parse_number copies for strtod. */
  predicate IsNumberChar(c: byte) {
    IsDigit(c) || c == PLUS || c == MINUS || c == DOT || IsExponentMark(c)
  }

  predicate IsExponentMark(c: byte) {
    c == 101 || c == 69
  }

  /** The 63 bytes of number_c_string at most. */
  function Window(s: Text, room: nat := 63): (w: Text)
    ensures |w| <= |s|
  {
    if room == 0 || s == [] || !IsNumberChar(s[0]) then [] else [s[0]] + Window(s[1..], room - 1)
  }

  /** The longest run of number characters that fits. */
  lemma {:induction false} WindowIs(s: Text, room: nat)
    ensures var w := Window(s, room);
      && w <= s && |w| <= room
      && (forall i :: 0 <= i < |w| ==> IsNumberChar(w[i]))
      && (|w| < room && |w| < |s| ==> !IsNumberChar(s[|w|]))
    decreases room
  {
    if room > 0 && s != [] && IsNumberChar(s[0]) {
      WindowIs(s[1..], room - 1);
    }
  }

  /** How many digits s starts with. */
  function DigitRun(s: Text): (n: nat)
    ensures n <= |s|
    ensures forall i :: 0 <= i < n ==> IsDigit(s[i])
    ensures n < |s| ==> !IsDigit(s[n])
  {
    if s == [] || !IsDigit(s[0]) then 0 else 1 + DigitRun(s[1..])
  }

  /** The value of a run of digits. */
  function NatOf(digits: Text): int {
    if digits == [] then 0
    else NatOf(digits[..|digits| - 1]) * 10 + (digits[|digits| - 1] - ZERO)
  }

  function SignLength(s: Text): (n: nat)
    ensures n <= |s|
  {
    if s != [] && (s[0] == MINUS || s[0] == PLUS) then 1 else 0
  }

  /** The optional fraction after the leading digits: its length with the point, or 0. */
  function FractionLength(s: Text): (n: nat)
    ensures n <= |s|
  {
    if s != [] && s[0] == DOT then 1 + DigitRun(s[1..]) else 0
  }

  /** The optional exponent: it counts only when it has a digit. */
  function ExponentLength(s: Text): (n: nat)
    ensures n <= |s|
  {
    if s == [] || !IsExponentMark(s[0]) then 0
    else
      var sign := SignLength(s[1..]);
      var run := DigitRun(s[1 + sign..]);
      if run == 0 then 0 else 1 + sign + run
  }

  /** The value and length of the longest number at the head of s; length 0 when there is none. */
  datatype Scanned = Scanned(value: real, length: nat)

  function Strtod(s: Text): (r: Scanned)
    ensures r.length <= |s|
  {
    var sign := SignLength(s);
    var whole := DigitRun(s[sign..]);
    var mark := sign + whole;
    var fraction := FractionLength(s[mark..]);
    var end := mark + fraction;
    var places := if fraction == 0 then 0 else fraction - 1;
    if whole + places == 0 then Scanned(0.0, 0)
    else
      var exponent := ExponentLength(s[end..]);
      var digits := s[sign..mark] + (if fraction == 0 then [] else s[mark + 1..end]);
      var scale := if exponent == 0 then 0 else ExponentOf(s[end + 1..end + exponent]);
      Scanned(Decimal(sign == 1 && s[0] == MINUS, digits, scale - places), end + exponent)
  }

  /** Plus or minus the digits times a power of ten. */
  function Decimal(minus: bool, digits: Text, scale: int): real {
    var magnitude := (NatOf(digits) as real) * Power10(scale);
    if minus then 0.0 - magnitude else magnitude
  }

  function ExponentOf(s: Text): int {
    var sign := SignLength(s);
    var n := NatOf(s[sign..]);
    if sign == 1 && s[0] == MINUS then -n else n
  }

  function Power10(e: int): real
    decreases if e < 0 then -e else e
  {
    if e == 0 then 1.0 else if e > 0 then 10.0 * Power10(e - 1) else Power10(e + 1) / 10.0
  }

  lemma {:induction false} Power10Next(e: int)
    ensures Power10(e + 1) == 10.0 * Power10(e)
  {
  }

  lemma Power10None()
    ensures Power10(0) == 1.0
  {
  }

  /** Powers of ten, whatever the signs of the exponents. */
  lemma {:induction false} Power10Sum(a: int, b: int)
    ensures Power10(1) == 10.0 && Power10(a + b) == Power10(a) * Power10(b)
    decreases if b < 0 then -b else b
  {
    hide Power10;
    Power10None();
    Power10Next(0);
    if b > 0 {
      Power10Sum(a, b - 1);
      Power10Next(a + b - 1);
      Power10Next(b - 1);
      Associate(10.0, Power10(a), Power10(b - 1));
    } else if b < 0 {
      Power10Sum(a, b + 1);
      Power10Next(a + b);
      Power10Next(b);
      Associate(10.0, Power10(a), Power10(b));
    }
  }

  lemma Associate(x: real, y: real, z: real)
    ensures y * (x * z) == x * (y * z)
  {
  }

  /** Digits count in place: what stands in front of n digits counts 10^n times. */
  lemma {:induction false} NatOfIs(s: Text, t: Text, d: byte)
    requires IsDigit(d)
    ensures NatOf([d]) == d - 48 && NatOf([]) == 0
    ensures NatOf(s + t) as real == NatOf(s) as real * Power10(|t|) + NatOf(t) as real
    decreases |t|
  {
    hide Power10, NatOf;
    Power10None();
    NatOfLast([], d);
    assert [] + [d] == [d];
    if t == [] {
      assert s + t == s;
    } else {
      var init, last := t[..|t| - 1], t[|t| - 1];
      assert s + t == (s + init) + [last] && t == init + [last];
      NatOfLast(s + init, last);
      NatOfLast(init, last);
      NatOfIs(s, init, d);
      Power10Next(|t| - 1);
      OneMore(NatOf(s + init), NatOf(s), NatOf(init), Power10(|t| - 1), (last as int) - 48);
    }
  }

  lemma NatOfLast(s: Text, d: byte)
    ensures NatOf(s + [d]) == NatOf(s) * 10 + (d - 48) && NatOf([]) == 0
  {
    assert (s + [d])[..|s|] == s;
  }

  lemma OneMore(a: int, b: int, c: int, p: real, x: int)
    requires a as real == b as real * p + c as real
    ensures (a * 10 + x) as real == b as real * (10.0 * p) + (c * 10 + x) as real
  {
    assert b as real * (10.0 * p) == 10.0 * (b as real * p);
  }

  const INT_MAX := 2147483647
  const INT_MIN := -2147483648

  /** valueint: truncated towards zero, saturated at both ends. */
  function ValueInt(v: real): (n: int)
    ensures INT_MIN <= n <= INT_MAX
    ensures v >= INT_MAX as real ==> n == INT_MAX
    ensures v <= INT_MIN as real ==> n == INT_MIN
    ensures 0.0 <= v < INT_MAX as real ==> n as real <= v < n as real + 1.0
    ensures INT_MIN as real < v <= 0.0 ==> n as real - 1.0 < v <= n as real
  {
    if v >= INT_MAX as real then INT_MAX
    else if v <= INT_MIN as real then INT_MIN
    else if v >= 0.0 then v.Floor
    else -((0.0 - v).Floor)
  }

  // ---------------------------------------------------------------- printing integers

  const INTEGER_BOUND := 1_000_000_000_000_000

  /** The numbers whose %1.15g form is their plain decimal form. */
  predicate IsPlainInteger(v: real) {
    v == v.Floor as real && -INTEGER_BOUND < v.Floor < INTEGER_BOUND
  }

  function NatText(n: nat): (t: Text)
    ensures |t| > 0 && forall i :: 0 <= i < |t| ==> IsDigit(t[i])
  {
    if n < 10 then [ZERO + n] else NatText(n / 10) + [ZERO + n % 10]
  }

  function IntText(n: int): (t: Text)
    ensures |t| > 0 && forall i :: 0 <= i < |t| ==> IsNumberChar(t[i])
    ensures t[0] == MINUS || IsDigit(t[0])
  {
    if n < 0 then [MINUS] + NatText(-n) else NatText(n)
  }

  lemma {:induction false} NatOfText(n: nat)
    ensures NatOf(NatText(n)) == n
    decreases n
  {
    if n < 10 {
      assert NatText(n)[..0] == [];
    } else {
      var t := NatText(n);
      assert t[..|t| - 1] == NatText(n / 10);
      NatOfText(n / 10);
    }
  }

  /** An integer below 10^k has at most k digits. */
  lemma {:induction false} NatTextLength(n: nat, k: nat)
    requires k >= 1 && n < Tens(k)
    ensures |NatText(n)| <= k
    decreases n
  {
    if n >= 10 {
      assert n / 10 < Tens(k - 1);
      NatTextLength(n / 10, k - 1);
    }
  }

  function Tens(k: nat): nat {
    if k == 0 then 1 else 10 * Tens(k - 1)
  }

  lemma {:induction false} WindowWhole(t: Text, tail: Text, room: nat)
    requires |t| <= room && forall i :: 0 <= i < |t| ==> IsNumberChar(t[i])
    requires tail == [] || !IsNumberChar(tail[0])
    ensures Window(t + tail, room) == t
    decreases |t|
  {
    if t == [] {
      assert t + tail == tail;
    } else {
      assert (t + tail)[1..] == t[1..] + tail;
      WindowWhole(t[1..], tail, room - 1);
    }
  }

  lemma {:induction false} DigitRunAll(t: Text)
    requires forall i :: 0 <= i < |t| ==> IsDigit(t[i])
    ensures DigitRun(t) == |t|
  {
    if t != [] {
      DigitRunAll(t[1..]);
    }
  }

  // ---------------------------------------------------------------- the grammar of numbers

  datatype Exponent = Exponent(mark: byte, sign: Option<byte>, digits: Text)

  /** A number as section 6 of RFC 8259 writes it. */
  datatype Token = Token(minus: bool, whole: Text, fraction: Option<Text>, exponent: Option<Exponent>)

  predicate IsDigits(t: Text) {
    t != [] && forall i :: 0 <= i < |t| ==> IsDigit(t[i])
  }

  predicate IsExponent(e: Exponent) {
    && IsExponentMark(e.mark) && IsDigits(e.digits)
    && (e.sign.Some? ==> e.sign.value == PLUS || e.sign.value == MINUS)
  }

  predicate IsToken(t: Token) {
    && IsDigits(t.whole) && (t.whole[0] == ZERO ==> |t.whole| == 1)
    && (t.fraction.Some? ==> IsDigits(t.fraction.value))
    && (t.exponent.Some? ==> IsExponent(t.exponent.value))
  }

  /**
   What strtod takes of a number that starts with a digit or a minus: zeros in front, and nothing on
   one side of the point.
   */
  predicate IsNumeral(t: Token) {
    && (forall i :: 0 <= i < |t.whole| ==> IsDigit(t.whole[i]))
    && (t.whole != [] || (t.minus && t.fraction.Some? && t.fraction.value != []))
    && (t.fraction.Some? ==> forall i :: 0 <= i < |t.fraction.value| ==> IsDigit(t.fraction.value[i]))
    && (t.exponent.Some? ==> IsExponent(t.exponent.value))
  }

  lemma TokenIsNumeral(t: Token)
    requires IsToken(t)
    ensures IsNumeral(t)
  {
  }

  function SignText(sign: Option<byte>): Text {
    if sign.None? then [] else [sign.value]
  }

  function FractionText(fraction: Option<Text>): Text {
    if fraction.None? then [] else [DOT] + fraction.value
  }

  function ExponentText(exponent: Option<Exponent>): Text {
    if exponent.None? then [] else [exponent.value.mark] + (SignText(exponent.value.sign) + exponent.value.digits)
  }

  function TokenText(t: Token): Text {
    SignText(if t.minus then Some(MINUS) else None) + (t.whole + (FractionText(t.fraction) + ExponentText(t.exponent)))
  }

  function ExponentValue(exponent: Option<Exponent>): int {
    if exponent.None? then 0
    else
      var n := NatOf(exponent.value.digits);
      if exponent.value.sign == Some(MINUS) then -n else n
  }

  /** The number a token denotes. */
  function TokenValue(t: Token): real {
    var places := if t.fraction.None? then [] else t.fraction.value;
    Decimal(t.minus, t.whole + places, ExponentValue(t.exponent) - |places|)
  }

  /** "-12.25e1" is -122.5, and "5E-1" is 0.5. */
  lemma ValueExamples()
    ensures var t := Token(true, [49, 50], Some([50, 53]), Some(Exponent(101, None, [49])));
      IsToken(t) && TokenText(t) == [45, 49, 50, 46, 50, 53, 101, 49] && TokenValue(t) == -122.5
    ensures var t := Token(false, [53], None, Some(Exponent(69, Some(45), [49])));
      IsToken(t) && TokenText(t) == [53, 69, 45, 49] && TokenValue(t) == 0.5
  {
    hide NatOf, Power10;
    Power10None();
    NatOfIs([49], [50], 50);
    NatOfIs([49, 50], [50], 53);
    NatOfIs([49, 50, 50], [53], 53);
    NatOfIs([], [], 49);
    NatOfIs([], [], 53);
    Power10Next(-1);
    Power10Next(0);
    assert [49] + [50] == [49, 50] && [49, 50] + [50] == [49, 50, 50] && [49, 50, 50] + [53] == [49, 50, 50, 53];
    assert [49, 50] + [50, 53] == [49, 50, 50, 53] && [53] + [] == [53];
  }

  lemma TokenShape(t: Token)
    requires IsNumeral(t)
    ensures var s := TokenText(t); s != [] && (s[0] == MINUS || IsDigit(s[0]))
    ensures forall i :: 0 <= i < |TokenText(t)| ==> IsNumberChar(TokenText(t)[i])
  {
    ExponentShape(t.exponent);
  }

  lemma ExponentShape(e: Option<Exponent>)
    requires e.Some? ==> IsExponent(e.value)
    ensures forall i :: 0 <= i < |ExponentText(e)| ==> IsNumberChar(ExponentText(e)[i])
  {
  }

  lemma {:induction false} DigitRunStops(t: Text, rest: Text)
    requires forall i :: 0 <= i < |t| ==> IsDigit(t[i])
    requires rest == [] || !IsDigit(rest[0])
    ensures DigitRun(t + rest) == |t|
  {
    if t == [] {
      assert t + rest == rest;
    } else {
      assert (t + rest)[1..] == t[1..] + rest;
      DigitRunStops(t[1..], rest);
    }
  }

  lemma SignedDigits(mark: byte, sign: Option<byte>, digits: Text)
    requires digits != [] && IsDigit(digits[0]) && (sign.Some? ==> sign.value == PLUS || sign.value == MINUS)
    ensures var t := SignText(sign); var s := [mark] + (t + digits);
      && s[1..] == t + digits && SignLength(s[1..]) == |t|
      && s[1 + |t|..] == digits && s[1..][|t|..] == digits
  {
  }

  /** strtod reads an exponent to its end. */
  lemma ExponentBack(e: Option<Exponent>)
    requires e.Some? ==> IsExponent(e.value)
    ensures ExponentLength(ExponentText(e)) == |ExponentText(e)|
    ensures if e.Some? then ExponentOf(ExponentText(e)[1..]) == ExponentValue(e) else ExponentValue(e) == 0
  {
    hide NatOf, DigitRun, SignLength;
    if e.Some? {
      var s, sign, digits := ExponentText(e), SignText(e.value.sign), e.value.digits;
      SignedDigits(e.value.mark, e.value.sign, digits);
      DigitRunAll(digits);
    }
  }

  lemma Slices(a: Text, w: Text, f: Text, e: Text)
    ensures var s := a + (w + (f + e)); var m := |a| + |w|; var n := m + |f|;
      && |s| == n + |e| && s[|a|..] == w + (f + e) && s[m..] == f + e && s[n..] == e && s[|a|..m] == w
      && (f != [] ==> s[m + 1..n] == f[1..])
      && (e != [] ==> s[n + 1..|s|] == e[1..])
  {
  }

  lemma FractionBack(fraction: Option<Text>, rest: Text)
    requires fraction.Some? ==> forall i :: 0 <= i < |fraction.value| ==> IsDigit(fraction.value[i])
    requires rest == [] || IsExponentMark(rest[0])
    ensures FractionLength(FractionText(fraction) + rest) == |FractionText(fraction)|
    ensures FractionText(fraction) + rest == [] || !IsDigit((FractionText(fraction) + rest)[0])
  {
    if fraction.Some? {
      assert (FractionText(fraction) + rest)[1..] == fraction.value + rest;
      DigitRunStops(fraction.value, rest);
    }
  }

  /** Strtod, when its parts are known. */
  lemma StrtodParts(s: Text, sign: nat, mark: nat, end: nat, exponent: nat)
    requires sign == SignLength(s) && mark == sign + DigitRun(s[sign..]) && (sign < mark || mark + 1 < end)
    requires end == mark + FractionLength(s[mark..]) && exponent == ExponentLength(s[end..])
    ensures var places := if end == mark then 0 else end - mark - 1;
      var digits := s[sign..mark] + (if end == mark then [] else s[mark + 1..end]);
      var scale := if exponent == 0 then 0 else ExponentOf(s[end + 1..end + exponent]);
      Strtod(s) == Scanned(Decimal(sign == 1 && s[0] == MINUS, digits, scale - places), end + exponent)
  {
    hide DigitRun, FractionLength, ExponentLength, ExponentOf, Decimal;
  }

  /** strtod reads every such token to its end, and its value. */
  lemma StrtodOfToken(t: Token)
    requires IsToken(t)
    ensures Strtod(TokenText(t)) == Scanned(TokenValue(t), |TokenText(t)|)
  {
    hide Strtod, TokenText, TokenValue;
    TokenIsNumeral(t);
    StrtodOfNumeral(t);
  }

  /** And every numeral. */
  lemma StrtodOfNumeral(t: Token)
    requires IsNumeral(t)
    ensures Strtod(TokenText(t)) == Scanned(TokenValue(t), |TokenText(t)|)
  {
    hide *;
    var s := TokenText(t);
    var sign := SignText(if t.minus then Some(MINUS) else None);
    var fraction, exponent := FractionText(t.fraction), ExponentText(t.exponent);
    var mark, end := |sign| + |t.whole|, |sign| + |t.whole| + |fraction|;
    TokenSign(t);
    Slices(sign, t.whole, fraction, exponent);
    FractionBack(t.fraction, exponent);
    FractionShape(t.fraction);
    DigitRunStops(t.whole, fraction + exponent);
    ExponentBack(t.exponent);
    StrtodParts(s, |sign|, mark, end, |exponent|);
    TokenValueIs(t);
  }

  lemma TokenSign(t: Token)
    requires IsNumeral(t)
    ensures var sign := SignText(if t.minus then Some(MINUS) else None);
      && TokenText(t) == sign + (t.whole + (FractionText(t.fraction) + ExponentText(t.exponent)))
      && SignLength(TokenText(t)) == |sign|
      && (t.minus <==> |sign| == 1 && TokenText(t)[0] == MINUS)
    ensures forall i :: 0 <= i < |t.whole| ==> IsDigit(t.whole[i])
    ensures t.whole != [] || (t.fraction.Some? && t.fraction.value != [])
    ensures t.fraction.Some? ==> forall i :: 0 <= i < |t.fraction.value| ==> IsDigit(t.fraction.value[i])
    ensures t.exponent.Some? ==> IsExponent(t.exponent.value)
    ensures ExponentText(t.exponent) == [] <==> t.exponent.None?
    ensures t.exponent.Some? ==> IsExponentMark(ExponentText(t.exponent)[0])
  {
    ExponentStart(t.exponent);
  }

  lemma TokenValueIs(t: Token)
    ensures var places := if t.fraction.None? then [] else t.fraction.value;
      TokenValue(t) == Decimal(t.minus, t.whole + places, ExponentValue(t.exponent) - |places|)
  {
  }

  lemma FractionShape(f: Option<Text>)
    ensures FractionText(f) == [] <==> f.None?
    ensures f.Some? ==> FractionText(f)[1..] == f.value && |FractionText(f)| == |f.value| + 1
  {
  }

  lemma ExponentStart(e: Option<Exponent>)
    requires e.Some? ==> IsExponent(e.value)
    ensures ExponentText(e) == [] <==> e.None?
    ensures e.Some? ==> IsExponentMark(ExponentText(e)[0])
  {
  }

  // ---------------------------------------------------------------- integers as tokens

  function IntToken(n: int): Token {
    Token(n < 0, NatText(if n < 0 then -n else n), None, None)
  }

  lemma {:induction false} NatTextIsToken(n: nat)
    ensures NatText(n)[0] == ZERO ==> n == 0
    decreases n
  {
    if n >= 10 {
      NatTextIsToken(n / 10);
      assert NatText(n)[0] == NatText(n / 10)[0];
    }
  }

  lemma IntTokenText(n: int)
    ensures IsToken(IntToken(n)) && TokenText(IntToken(n)) == IntText(n) && TokenValue(IntToken(n)) == n as real
  {
    var m := if n < 0 then -n else n;
    NatTextIsToken(m);
    NatOfText(m);
    assert NatText(m) + [] == NatText(m);
  }

  /** The tokens of plain integers are short. */
  lemma IntTokenFits(n: int)
    requires -INTEGER_BOUND < n < INTEGER_BOUND
    ensures |TokenText(IntToken(n))| <= 16
  {
    assert Tens(5) == 100000;
    assert Tens(10) == 10000000000;
    assert Tens(15) == INTEGER_BOUND;
    NatTextLength(if n < 0 then -n else n, 15);
    IntTokenText(n);
  }

  /** strtod reads back the decimal form of every integer, to its end. */
  lemma StrtodOfIntText(n: int)
    ensures Strtod(IntText(n)) == Scanned(n as real, |IntText(n)|)
  {
    IntTokenText(n);
    StrtodOfToken(IntToken(n));
  }

  // ---------------------------------------------------------------- strtod takes the longest numeral

  /** A run of digits is at least as long as any digits the text starts with. */
  lemma {:induction false} DigitRunLeast(s: Text, n: nat)
    requires n <= |s| && forall i :: 0 <= i < n ==> IsDigit(s[i])
    ensures n <= DigitRun(s)
    decreases n
  {
    if n > 0 {
      DigitRunLeast(s[1..], n - 1);
    }
  }

  lemma ExponentCut(e: Exponent, rest: Text)
    requires IsExponent(e)
    ensures var t := SignText(e.sign); var s := ExponentText(Some(e)) + rest;
      && s != [] && s[0] == e.mark && s[1..] == t + (e.digits + rest) && s[1 + |t|..] == e.digits + rest
      && SignLength(s[1..]) == |t|
  {
    hide SignText, SignLength;
    var t := SignText(e.sign);
    Regroup3([e.mark], t + e.digits, rest);
    Regroup3(t, e.digits, rest);
    assert (e.digits + rest)[0] == e.digits[0];
    SignedDigits(e.mark, e.sign, e.digits + rest);
  }

  /** A run of digits only grows when something follows. */
  lemma DigitsThen(digits: Text, rest: Text)
    requires forall i :: 0 <= i < |digits| ==> IsDigit(digits[i])
    ensures DigitRun(digits + rest) >= |digits|
  {
    hide DigitRun;
    assert forall i :: 0 <= i < |digits| ==> (digits + rest)[i] == digits[i];
    DigitRunLeast(digits + rest, |digits|);
  }

  lemma ExponentLeast(s: Text, e: Option<Exponent>)
    requires (e.Some? ==> IsExponent(e.value)) && ExponentText(e) <= s
    ensures |ExponentText(e)| <= ExponentLength(s)
  {
    hide DigitRun, SignLength;
    if e.Some? {
      var rest := s[|ExponentText(e)|..];
      assert s == ExponentText(e) + rest;
      ExponentCut(e.value, rest);
      DigitsThen(e.value.digits, rest);
    }
  }

  lemma FractionLeast(s: Text, f: Option<Text>)
    requires (f.Some? ==> forall i :: 0 <= i < |f.value| ==> IsDigit(f.value[i])) && FractionText(f) <= s
    ensures |FractionText(f)| <= FractionLength(s)
    ensures |FractionText(f)| < FractionLength(s) ==>
      |FractionText(f)| < |s| && !IsExponentMark(s[|FractionText(f)|])
  {
    hide DigitRun;
    if f.Some? {
      var rest := s[1 + |f.value|..];
      assert s == ([DOT] + f.value) + rest;
      assert s[1..] == f.value + rest;
      assert forall i :: 0 <= i < |f.value| ==> (f.value + rest)[i] == f.value[i];
      DigitRunLeast(s[1..], |f.value|);
    }
  }

  /** The first characters of the parts of a numeral tell them apart. */
  lemma PartStarts(t: Token)
    requires IsNumeral(t)
    ensures var f, e := FractionText(t.fraction), ExponentText(t.exponent);
      && (f != [] ==> f[0] == DOT && !IsDigit(DOT))
      && (e != [] ==> IsExponentMark(e[0]) && !IsDigit(e[0]))
  {
    ExponentStart(t.exponent);
  }

  lemma SignKept(s: Text, t: Token)
    requires IsNumeral(t) && TokenText(t) <= s
    ensures SignLength(s) == |SignText(if t.minus then Some(MINUS) else None)|
  {
    hide ExponentText;
    TokenSign(t);
    TokenShape(t);
    assert s[0] == TokenText(t)[0];
  }

  lemma Cuts(a: Text, w: Text, f: Text, e: Text, rest: Text)
    ensures var s := (a + (w + (f + e))) + rest; var m := |a| + |w|; var n := m + |f|;
      && s[|a|..] == w + (f + (e + rest)) && s[m..] == f + (e + rest) && s[n..] == e + rest
  {
  }

  lemma RunsOver(w: Text, f: Text, e: Text, rest: Text)
    requires (forall i :: 0 <= i < |w| ==> IsDigit(w[i])) && (f != [] ==> !IsDigit(f[0])) && (e != [] ==> !IsDigit(e[0]))
    ensures var n := DigitRun(w + (f + (e + rest))); n == |w| || (n > |w| && f == [] && e == [])
  {
    hide DigitRun, IsDigit;
    var s := w + (f + (e + rest));
    DigitRunLeast(s, |w|);
    assert f != [] ==> s[|w|] == f[0];
    assert f == [] && e != [] ==> s[|w|] == e[0];
  }

  lemma FractionOver(t: Token, rest: Text)
    requires IsNumeral(t)
    ensures var f, e := FractionText(t.fraction), ExponentText(t.exponent); var n := FractionLength(f + (e + rest));
      n == |f| || (n > |f| && e == [])
  {
    hide FractionText, ExponentText, FractionLength;
    var f, e := FractionText(t.fraction), ExponentText(t.exponent);
    var s := f + (e + rest);
    FractionLeast(s, t.fraction);
    PartStarts(t);
    assert e != [] ==> s[|f|] == e[0];
  }

  lemma SomeDigits(t: Token)
    requires IsNumeral(t)
    ensures t.whole != [] || |FractionText(t.fraction)| > 1
  {
  }

  lemma ReachesEnd(t: Token, rest: Text)
    requires IsNumeral(t)
    ensures |TokenText(t)| <= Strtod(TokenText(t) + rest).length
  {
    hide *;
    TokenSign(t);
    PartStarts(t);
    SomeDigits(t);
    var s := TokenText(t) + rest;
    SignKept(s, t);
    var sign := |SignText(if t.minus then Some(MINUS) else None)|;
    var f, e := FractionText(t.fraction), ExponentText(t.exponent);
    Cuts(SignText(if t.minus then Some(MINUS) else None), t.whole, f, e, rest);
    var mark := sign + DigitRun(s[sign..]);
    var end := mark + FractionLength(s[mark..]);
    RunsOver(t.whole, f, e, rest);
    if mark == sign + |t.whole| {
      FractionOver(t, rest);
      if end == mark + |f| {
        ExponentLeast(e + rest, t.exponent);
      }
    }
    StrtodParts(s, sign, mark, end, ExponentLength(s[end..]));
  }

  /** No numeral at the head of the text is longer than what strtod takes. */
  lemma StrtodLongest(s: Text, t: Token)
    requires IsNumeral(t) && TokenText(t) <= s
    ensures |TokenText(t)| <= Strtod(s).length
  {
    hide *;
    var rest := s[|TokenText(t)|..];
    assert s == TokenText(t) + rest;
    ReachesEnd(t, rest);
  }
}

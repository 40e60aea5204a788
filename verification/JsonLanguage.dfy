/**
 The converse of JsonAccepts: what is accepted is a text, and what is built is the tree it denotes. So
 the accepted language is exactly that of the syntax trees of JsonGrammar that fit.
 */
module JsonLanguage {
  import opened Bytes
  import opened Json
  import opened JsonNumber
  import opened JsonString
  import opened JsonParse
  import opened JsonGrammar
  import opened JsonAccepts
  import Utf8

  // ---------------------------------------------------------------- white space

  lemma {:induction false} SkippedWs(s: Text) returns (ws: Text)
    ensures IsWs(ws, false) && s == ws + SkipWs(s)
    decreases |s|
  {
    if |s| > 1 && s[0] <= 32 {
      var more := SkippedWs(s[1..]);
      ws := [s[0]] + more;
      assert s == [s[0]] + s[1..];
    } else {
      ws := [];
    }
  }

  // ---------------------------------------------------------------- strings

  lemma DigitOf(c: byte) returns (d: Digit)
    requires Utf8.HexDigit(c).Some?
    ensures DigitText(d) == c && Utf8.HexDigit(c) == Some(d.value)
  {
    hide Utf8.HexDigit;
    var n := Utf8.HexDigit(c).value;
    Utf8.HexDigitIs(c, n);
    d := Digit(n, c != Utf8.LOWER_HEX[n]);
  }

  /** Four digits behind a backslash and a u. */
  lemma CodeOf(s: Text) returns (e: Code)
    requires |s| == 6 && s[0] == BACKSLASH && s[1] == Utf8.LOWER_U && Utf8.AllHex(s[2..])
    ensures EscapeText(e) == s && CodeUnit(e) == Utf8.Hex4(s[2..])
  {
    hide Utf8.HexDigit, DigitText, Utf8.HexValue;
    Utf8.HexOf4(s[2..]);
    var a := DigitOf(s[2]);
    var b := DigitOf(s[3]);
    var c := DigitOf(s[4]);
    var d := DigitOf(s[5]);
    e := Code(a, b, c, d);
  }

  lemma IsGarbled(four: Text)
    requires |four| == 4 && !Utf8.AllHex(four)
    ensures IsCharacter(Garbled(four), false)
  {
    hide Utf8.HexDigit, IsHexDigit;
    var i :| 0 <= i < 4 && Utf8.HexDigit(four[i]).None?;
    NoDigit(four[i]);
  }

  /** What an escape was read from. */
  lemma EscapeCharacter(u: Text) returns (c: Character)
    requires |u| >= 2 && u[0] == BACKSLASH && u[1] == Utf8.LOWER_U && Utf8.ReadEscape(u).Some?
    ensures var r := Utf8.ReadEscape(u).value;
      && IsCharacter(c, false) && !c.Closing? && CharacterText(c) == u[..r.length]
      && CharacterBytes(c) == Utf8.Encode(r.codepoint)
  {
    hide Utf8.Hex4, EscapeText, CodeUnit, Utf8.Encode, Utf8.AllHex;
    var r := Utf8.ReadEscape(u).value;
    assert u[..6][2..] == u[2..6];
    if Utf8.AllHex(u[2..6]) {
      var e := CodeOf(u[..6]);
      if r.length == 6 {
        c := Unit(e);
      } else {
        ZeroIfGarbled(u[8..12]);
        assert u[6..12][2..] == u[8..12];
        var f := CodeOf(u[6..12]);
        c := Pair(e, f);
        assert u[..12] == u[..6] + u[6..12];
        PairCodePoint(CodeUnit(e), CodeUnit(f));
      }
    } else {
      ZeroIfGarbled(u[2..6]);
      IsGarbled(u[2..6]);
      EncodeZero();
      c := Garbled(u[2..6]);
      assert u[..6] == [92, 117] + u[2..6];
    }
  }

  lemma ZeroIfGarbled(four: Text)
    requires |four| == 4
    ensures !Utf8.AllHex(four) ==> Utf8.Hex4(four) == 0
  {
  }

  lemma EncodeZero()
    ensures Utf8.Encode(0) == [0]
  {
  }

  lemma PairCodePoint(high: nat, low: nat)
    requires 0xD800 <= high < 0xDC00 && 0xDC00 <= low < 0xE000
    ensures Utf8.Combine(high, low) == 0x10000 + (high - 0xD800) * 0x400 + (low - 0xDC00)
  {
  }

  /** What one step of the decoding loop has read, short of the closing quote. */
  lemma PieceCharacter(u: Text) returns (c: Character)
    requires |u| >= 2 && NextPiece(u).Some? && NextPiece(u).value.length < |u|
    ensures var p := NextPiece(u).value;
      && IsCharacter(c, false) && !c.Closing? && CharacterText(c) == u[..p.length] && CharacterBytes(c) == p.output
  {
    hide Utf8.ReadEscape, ReadShort, Utf8.Encode;
    if u[0] != BACKSLASH {
      c := Plain(u[0]);
    } else if u[1] == Utf8.LOWER_U {
      c := EscapeCharacter(u);
    } else {
      c := Short(u[1]);
      ShortRead(u[1]);
    }
  }

  /** A step that reads the closing quote stands on a backslash in front of it. */
  lemma Swallowed(u: Text)
    requires |u| >= 2 && u[|u| - 1] == QUOTE && NextPiece(u).Some? && NextPiece(u).value.length == |u|
    ensures u == [BACKSLASH, QUOTE] && Decode(u) == Some([QUOTE])
  {
    hide Utf8.ReadEscape;
    assert |u| == 2;
    assert NextPiece(u) == Some(Piece([QUOTE], 2));
    assert u[2..] == [] && Decode([]) == Some([]);
    assert [QUOTE] + [] == [QUOTE];
  }

  lemma DecodeStep(u: Text)
    requires |u| >= 2 && Decode(u).Some?
    ensures NextPiece(u).Some?
    ensures var p := NextPiece(u).value;
      && Decode(u[p.length..]).Some?
      && Decode(u).value == p.output + Decode(u[p.length..]).value
  {
    hide NextPiece;
  }

  lemma OnlyQuote(u: Text)
    requires |u| == 1 && u[0] == QUOTE
    ensures Decode(u) == Some([]) && u == Body([]) + [QUOTE]
  {
    assert u == [QUOTE] == Body([]) + [QUOTE];
  }

  /** A literal that is decoded is made of characters. */
  lemma {:induction false} LiteralDecoded(u: Text) returns (chars: seq<Character>)
    requires u != [] && u[|u| - 1] == QUOTE && Decode(u).Some?
    ensures EachCharacter(chars, false) && Body(chars) + [QUOTE] == u && BodyBytes(chars) == Decode(u).value
    decreases |u|
  {
    hide NextPiece, Decode, CharacterText, CharacterBytes, IsCharacter;
    if |u| == 1 {
      chars := [];
      OnlyQuote(u);
    } else {
      DecodeStep(u);
      var n := NextPiece(u).value.length;
      if n == |u| {
        Swallowed(u);
        chars := [Closing];
        ClosingRead();
      } else {
        var c := PieceCharacter(u);
        var more := LiteralDecoded(u[n..]);
        chars := [c] + more;
        OneMore(c, more);
        assert u == u[..n] + u[n..];
      }
    }
  }

  lemma OneMore(c: Character, more: seq<Character>)
    requires IsCharacter(c, false) && !c.Closing? && EachCharacter(more, false)
    ensures EachCharacter([c] + more, false)
    ensures Body([c] + more) == CharacterText(c) + Body(more)
    ensures BodyBytes([c] + more) == CharacterBytes(c) + BodyBytes(more)
  {
    hide CharacterText, CharacterBytes, IsCharacter;
    assert ([c] + more)[1..] == more;
  }

  lemma {:induction false} ScannedUnclosed(s: Text)
    requires ScanEnd(s).Some?
    ensures Unclosed(s[..ScanEnd(s).value])
    decreases |s|
  {
    hide ScanEnd;
    ScanNothing();
    var e := ScanEnd(s).value;
    if s[0] == QUOTE {
      ScanQuote(s);
    } else {
      var n := if s[0] == BACKSLASH then 2 else 1;
      ScanUnfold(s);
      ScannedUnclosed(s[n..]);
      assert s[..e][n..] == s[n..][..e - n];
    }
  }

  lemma StringParsed(s: Text) returns (chars: seq<Character>)
    requires ParseString(s).Ok?
    ensures AreCharacters(chars, false)
    ensures s == StringText(chars) + ParseString(s).rest && ParseString(s).value == UpToNul(BodyBytes(chars))
  {
    hide ScanEnd, Decode, UpToNul, BodyBytes, EachCharacter, Unclosed, Body;
    var body := s[1..];
    var e := ScanEnd(body).value;
    var u := body[..e + 1];
    chars := LiteralDecoded(u);
    ScannedUnclosed(body);
    assert Body(chars) == u[..e] == body[..e];
    assert s == [QUOTE] + (u + body[e + 1..]);
  }

  // ---------------------------------------------------------------- numbers

  lemma ExponentParts(s: Text)
    requires ExponentLength(s) > 0
    ensures var sign := SignLength(s[1..]); var run := DigitRun(s[1 + sign..]);
      IsExponentMark(s[0]) && run > 0 && ExponentLength(s) == 1 + sign + run
  {
    hide DigitRun, SignLength;
  }

  lemma RunDigits(s: Text)
    requires DigitRun(s) > 0
    ensures IsDigits(s[..DigitRun(s)])
  {
    hide DigitRun;
  }

  lemma SignParsed(s: Text) returns (sign: Option<byte>)
    ensures SignText(sign) == s[..SignLength(s)]
    ensures sign.Some? ==> s != [] && sign.value == s[0] && (s[0] == PLUS || s[0] == MINUS)
    ensures sign.None? <==> SignLength(s) == 0
  {
    sign := if SignLength(s) == 0 then None else Some(s[0]);
  }

  /** The value of an exponent, sign and digits apart. */
  lemma ExponentOfParts(sign: Option<byte>, digits: Text)
    requires IsDigits(digits) && (sign.Some? ==> sign.value == PLUS || sign.value == MINUS)
    ensures ExponentOf(SignText(sign) + digits) == if sign == Some(MINUS) then -NatOf(digits) else NatOf(digits)
  {
    hide NatOf;
    assert (SignText(sign) + digits)[|SignText(sign)|..] == digits;
  }

  lemma ExponentParsed(s: Text) returns (e: Option<Exponent>)
    ensures (e.Some? ==> IsExponent(e.value)) && ExponentText(e) == s[..ExponentLength(s)]
    ensures ExponentValue(e) == if ExponentLength(s) == 0 then 0 else ExponentOf(s[1..ExponentLength(s)])
  {
    hide NatOf, DigitRun, SignLength, ExponentLength, ExponentOf, IsDigits, IsExponentMark, SignText;
    var n := ExponentLength(s);
    if n == 0 {
      e := None;
    } else {
      ExponentParts(s);
      var m := 1 + SignLength(s[1..]);
      var sign := SignParsed(s[1..]);
      RunDigits(s[m..]);
      SlicedTwice(s, m, n);
      SlicedTwice(s, 1, m);
      CutAt(s, 0, 1, n);
      CutAt(s, 1, m, n);
      ExponentOfParts(sign, s[m..n]);
      e := Some(Exponent(s[0], sign, s[m..n]));
    }
  }

  lemma FractionParsed(s: Text) returns (f: Option<Text>)
    ensures FractionText(f) == s[..FractionLength(s)] && (f.Some? <==> FractionLength(s) > 0)
    ensures f.Some? ==> f.value == s[1..FractionLength(s)] && forall i :: 0 <= i < |f.value| ==> IsDigit(f.value[i])
  {
    hide DigitRun;
    var n := FractionLength(s);
    if n == 0 {
      f := None;
    } else {
      f := Some(s[1..n]);
      assert s[1..][..n - 1] == s[1..n];
    }
  }

  lemma StrtodTakes(s: Text)
    requires Strtod(s).length > 0
    ensures var sign := SignLength(s); var mark := sign + DigitRun(s[sign..]);
      sign < mark || FractionLength(s[mark..]) > 1
  {
    hide DigitRun, FractionLength, ExponentLength, ExponentOf, Decimal;
  }

  /** What strtod takes is a numeral. */
  lemma NumeralParsed(s: Text) returns (t: Token)
    requires s != [] && (s[0] == MINUS || IsDigit(s[0])) && Strtod(s).length > 0
    ensures IsNumeral(t) && TokenText(t) == s[..Strtod(s).length] && TokenValue(t) == Strtod(s).value
  {
    hide *;
    StrtodTakes(s);
    var sign := SignLength(s);
    var mark := sign + DigitRun(s[sign..]);
    var f := FractionParsed(s[mark..]);
    var end := mark + FractionLength(s[mark..]);
    var e := ExponentParsed(s[end..]);
    var exponent := ExponentLength(s[end..]);
    StrtodParts(s, sign, mark, end, exponent);
    Pieces(s, sign, mark, end, end + exponent);
    t := Token(s[0] == MINUS, s[sign..mark], f, e);
    Assembled(s, t, sign, mark, end, end + exponent);
    TokenValueIs(t);
  }

  lemma Assembled(s: Text, t: Token, sign: nat, mark: nat, end: nat, n: nat)
    requires s != [] && (s[0] == MINUS || IsDigit(s[0])) && sign == SignLength(s)
    requires mark == sign + DigitRun(s[sign..]) && mark <= end <= n <= |s|
    requires sign < mark || mark + 1 < end
    requires t.minus == (s[0] == MINUS) && t.whole == s[sign..mark]
    requires FractionText(t.fraction) == s[mark..][..end - mark] && (t.fraction.Some? <==> mark < end)
    requires t.fraction.Some? ==>
      t.fraction.value == s[mark + 1..end] && forall i :: 0 <= i < |t.fraction.value| ==> IsDigit(t.fraction.value[i])
    requires ExponentText(t.exponent) == s[end..][..n - end] && (t.exponent.Some? ==> IsExponent(t.exponent.value))
    ensures IsNumeral(t) && TokenText(t) == s[..n] && (sign == 1 && s[0] == MINUS <==> t.minus)
  {
    hide DigitRun, FractionText, ExponentText, IsExponent;
    Pieces(s, sign, mark, end, n);
    assert s[sign..mark] == s[sign..][..mark - sign];
    DigitFirst(s);
  }

  lemma DigitFirst(s: Text)
    requires s != []
    ensures IsDigit(s[0]) ==> SignLength(s) == 0 && DigitRun(s) > 0
  {
  }

  lemma Pieces(s: Text, a: nat, b: nat, c: nat, d: nat)
    requires a <= b <= c <= d <= |s|
    ensures s[..d] == s[..a] + (s[a..b] + (s[b..][..c - b] + s[c..][..d - c]))
    ensures b < c ==> s[b..][1..c - b] == s[b + 1..c]
    ensures c < d ==> s[c..][1..d - c] == s[c + 1..d]
  {
    SlicedTwice(s, b, c);
    SlicedTwice(s, c, d);
    CutAt(s, b, c, d);
    CutAt(s, a, b, d);
    CutAt(s, 0, a, d);
  }

  lemma SlicedTwice(s: Text, m: nat, n: nat)
    requires m <= n <= |s|
    ensures s[m..][..n - m] == s[m..n] && (m < n ==> s[m..][1..n - m] == s[m + 1..n])
  {
  }

  lemma CutAt(s: Text, m: nat, k: nat, n: nat)
    requires m <= k <= n <= |s|
    ensures s[m..n] == s[m..k] + s[k..n]
  {
  }

  /** A numeral in front of a text that no other one within the window runs beyond. */
  ghost predicate IsLongest(t: Token, s: Text) {
    forall u :: IsNumeral(u) && TokenText(u) <= s && |TokenText(u)| <= WINDOW ==> |TokenText(u)| <= |TokenText(t)|
  }

  lemma InWindow(u: Token, s: Text)
    requires IsNumeral(u) && TokenText(u) <= s && |TokenText(u)| <= WINDOW
    ensures TokenText(u) <= Window(s)
  {
    hide IsNumeral, TokenText, Window, IsNumberChar;
    TokenShape(u);
    var w, t := Window(s), TokenText(u);
    forall i: nat | i < |t|
      ensures IsNumberChar(s[i])
    {
      assert s[i] == t[i];
    }
    WindowIs(s, WINDOW);
    assert w == s[..|w|] && t == s[..|t|];
  }

  /** An accepted number is the longest numeral of at most 63 characters. */
  lemma NumberParsed(s: Text) returns (t: Token)
    requires s != [] && (s[0] == MINUS || IsDigit(s[0])) && ParseNumber(s).Ok?
    ensures IsNumeral(t) && |TokenText(t)| <= WINDOW && IsLongest(t, s)
    ensures s == TokenText(t) + ParseNumber(s).rest && ParseNumber(s).value == Number(TokenValue(t))
  {
    hide Strtod, Window, IsNumeral, TokenText, TokenValue;
    WindowIs(s, WINDOW);
    var w := Window(s);
    NonEmpty(s, w);
    t := NumeralParsed(w);
    assert w[..|TokenText(t)|] == s[..|TokenText(t)|];
    forall u | IsNumeral(u) && TokenText(u) <= s && |TokenText(u)| <= WINDOW
      ensures |TokenText(u)| <= |TokenText(t)|
    {
      InWindow(u, s);
      StrtodLongest(w, u);
    }
  }

  /** Such a numeral is read whole, whatever follows it. */
  lemma NumberTaken(t: Token, rest: Text)
    requires IsNumeral(t) && |TokenText(t)| <= WINDOW && IsLongest(t, TokenText(t) + rest)
    ensures ParseNumber(TokenText(t) + rest) == Ok(Number(TokenValue(t)), rest)
  {
    hide Strtod, Window, IsNumeral, TokenText, TokenValue;
    var s := TokenText(t) + rest;
    var w := Window(s);
    TokenShape(t);
    InWindow(t, s);
    StrtodLongest(w, t);
    WindowIs(s, WINDOW);
    var u := NumeralParsed(w);
    assert TokenText(u) == s[..|TokenText(u)|] && TokenText(t) == s[..|TokenText(t)|];
    assert |TokenText(u)| == |TokenText(t)|;
    StrtodOfNumeral(t);
    StrtodOfNumeral(u);
    assert s[|TokenText(t)|..] == rest;
  }

  lemma NonEmpty(s: Text, w: Text)
    requires w == Window(s) && Strtod(w).length > 0
    ensures w != []
  {
  }

  // ---------------------------------------------------------------- values

  /** What a value is read from: the text of a syntax tree that fits, and numbers run on as far as they can. */
  ghost predicate Read(s: Text, open: nat, t: Syntax, rest: Text) {
    && Formed(t, false) && Fits(t, open) && s == SyntaxText(t) + rest
    && (t.NumberValue? ==> IsLongest(t.token, s))
  }

  /** An accepted value is the text of a syntax tree that fits, and the tree it denotes is what is built. */
  lemma {:induction false} ValueParsed(s: Text, open: nat) returns (t: Syntax)
    requires ParseValue(s, open).Ok?
    ensures var r := ParseValue(s, open); Read(s, open, t, r.rest) && Denoted(t) == r.value
    decreases |s|, 2
  {
    hide IsLongest, ParseString, ParseNumber, ParseArray, ParseObject, TokenText, TokenValue, IsNumeral, AreCharacters,
      StringText,
      BodyBytes, UpToNul, FormedElements, FormedPairs, ElementsFit, PairsFit, ElementsText, PairsText, DenotedElements,
      DenotedPairs;
    if NULL_TEXT <= s {
      t := NullValue;
    } else if FALSE_TEXT <= s {
      t := FalseValue;
    } else if TRUE_TEXT <= s {
      t := TrueValue;
    } else if s[0] == QUOTE {
      var chars := StringParsed(s);
      t := StringValue(chars);
    } else if s[0] == MINUS || IsDigit(s[0]) {
      var token := NumberParsed(s);
      t := NumberValue(token);
    } else if s[0] == LBRACKET {
      var e := ArrayParsed(s, open);
      t := ArrayValue(e);
    } else {
      var p := ObjectParsed(s, open);
      t := ObjectValue(p);
    }
  }

  lemma {:induction false} ArrayParsed(s: Text, open: nat) returns (e: Elements)
    requires s != [] && s[0] == LBRACKET && ParseArray(s, open).Ok?
    ensures var r := ParseArray(s, open);
      && open < NESTING_LIMIT && FormedElements(e, false) && ElementsFit(e, open + 1)
      && r.value == Array(DenotedElements(e)) && s == ([LBRACKET] + ElementsText(e)) + r.rest
    decreases |s|, 1
  {
    hide SkipWs, ParseItems, SyntaxText;
    var body := s[1..];
    var ws := SkippedWs(body);
    var t := SkipWs(body);
    assert s == [LBRACKET] + body;
    if t != [] && t[0] == RBRACKET {
      e := NoElements(ws);
      assert t == [RBRACKET] + t[1..];
      assert body == (ws + [RBRACKET]) + t[1..];
    } else {
      var f := ItemsParsed(t, open + 1);
      e := f.(before := ws + f.before);
      WsConcat(ws, f.before);
      var rest := ParseItems(t, open + 1).rest;
      Regroup3(ws, ElementsText(f), rest);
      Regroup3(ws, f.before, SyntaxText(f.value) + (f.after + (Separator(f.rest.Element?) + ElementsText(f.rest))));
      Regroup3([LBRACKET], ElementsText(e), rest);
    }
  }

  lemma WsConcat(a: Text, b: Text)
    requires IsWs(a, false) && IsWs(b, false)
    ensures IsWs(a + b, false)
  {
  }

  lemma ReadIs(s: Text, open: nat, t: Syntax, rest: Text)
    requires Read(s, open, t, rest)
    ensures Formed(t, false) && Fits(t, open) && s == SyntaxText(t) + rest
  {
    hide Formed, Fits, SyntaxText;
  }

  /** Exactly such a text is accepted, with the tree it denotes. */
  lemma ValueIs(s: Text, open: nat, j: Json, rest: Text)
    ensures ParseValue(s, open) == Ok(j, rest) <==> exists t :: Read(s, open, t, rest) && Denoted(t) == j
  {
    hide ParseValue, Denoted;
    if ParseValue(s, open) == Ok(j, rest) {
      var t := ValueParsed(s, open);
    }
    forall t | Read(s, open, t, rest)
      ensures ParseValue(s, open) == Ok(Denoted(t), rest)
    {
      ReadBack(s, open, t, rest);
    }
  }

  lemma ReadBack(s: Text, open: nat, t: Syntax, rest: Text)
    requires Read(s, open, t, rest)
    ensures ParseValue(s, open) == Ok(Denoted(t), rest)
  {
    hide ParseValue, SyntaxText, Denoted, IsLongest, Fits, Formed;
    if t.NumberValue? {
      NumberIs(s, open, t, rest);
    } else {
      ValueRead(t, rest, open);
      ReadsMeans(t, rest, open, ParseValue(s, open));
    }
  }

  lemma NumberIs(s: Text, open: nat, t: Syntax, rest: Text)
    requires t.NumberValue? && Read(s, open, t, rest)
    ensures ParseValue(s, open) == Ok(Denoted(t), rest)
  {
    hide ParseNumber, TokenText, TokenValue, IsNumeral, IsLongest, ParseArray, ParseObject, ParseString;
    TokenShape(t.token);
    NumberTaken(t.token, rest);
    assert s[0] == TokenText(t.token)[0];
    NotLiteral(s);
  }

  lemma ElementBuilt(e: Elements, open: nat)
    requires e.Element? && IsWs(e.before, false) && Formed(e.value, false) && IsWs(e.after, false) && Fits(e.value, open)
    requires e.rest == NoElements([]) || (e.rest.Element? && FormedElements(e.rest, false) && ElementsFit(e.rest, open))
    ensures FormedElements(e, false) && ElementsFit(e, open)
    ensures DenotedElements(e)
         == ICons(Denoted(e.value), if e.rest.Element? then DenotedElements(e.rest) else INil)
  {
    hide Formed, Fits, Denoted;
  }

  /** The text of an element, put together again. */
  lemma ElementText(e: Elements, end: Text, more: Text)
    requires e.Element? && end != [] && (e.rest == NoElements([]) || e.rest.Element?)
    requires end[0] == (if e.rest.Element? then COMMA else RBRACKET)
    requires end[1..] == (if e.rest.Element? then ElementsText(e.rest) + more else more)
    ensures e.before + (SyntaxText(e.value) + (e.after + end)) == ElementsText(e) + more
  {
    hide SyntaxText;
    ElementsShape(e, more);
    assert end == [end[0]] + end[1..];
    if e.rest.NoElements? {
      assert [] + ([] + [RBRACKET] + more) == [RBRACKET] + more;
    }
  }

  lemma {:induction false} ItemsParsed(s: Text, open: nat) returns (e: Elements)
    requires ParseItems(s, open).Ok?
    ensures var r := ParseItems(s, open);
      && e.Element? && FormedElements(e, false) && ElementsFit(e, open)
      && DenotedElements(e) == r.value && s == ElementsText(e) + r.rest
    decreases |s|, 3
  {
    hide *;
    Delimiters();
    ItemsStep(s, open);
    var before := SkippedWs(s);
    var at := SkipWs(s);
    var v := ParseValue(at, open);
    var t := ValueParsed(at, open);
    ReadIs(at, open, t, v.rest);
    var after := SkippedWs(v.rest);
    var end := SkipWs(v.rest);
    e := Element(before, t, after, NoElements([]));
    if end[0] == COMMA {
      var f := ItemsParsed(end[1..], open);
      e := e.(rest := f);
    }
    ElementBuilt(e, open);
    ElementText(e, end, ParseItems(s, open).rest);
  }

  lemma {:induction false} ObjectParsed(s: Text, open: nat) returns (p: Pairs)
    requires s != [] && s[0] == LBRACE && ParseObject(s, open).Ok?
    ensures var r := ParseObject(s, open);
      && open < NESTING_LIMIT && FormedPairs(p, false) && PairsFit(p, open + 1)
      && r.value == Object(DenotedPairs(p)) && s == ([LBRACE] + PairsText(p)) + r.rest
    decreases |s|, 1
  {
    hide SkipWs, ParseMembers, SyntaxText, NameText, AreCharacters, BodyBytes;
    var body := s[1..];
    var ws := SkippedWs(body);
    var t := SkipWs(body);
    assert s == [LBRACE] + body;
    if t != [] && t[0] == RBRACE {
      p := NoPairs(ws);
      assert t == [RBRACE] + t[1..];
      assert body == (ws + [RBRACE]) + t[1..];
    } else {
      var f := MembersParsed(t, open + 1);
      p := PairsBehind(ws, f);
      SamePairs(ws, f, open + 1);
      var rest := ParseMembers(t, open + 1).rest;
      Regroup3(ws, PairsText(f), rest);
      Regroup3([LBRACE], PairsText(p), rest);
    }
  }

  /** White space in front of the first key. */
  function PairsBehind(ws: Text, p: Pairs): Pairs
    requires p.NamedValue?
  {
    p.(name := p.name.(before := ws + p.name.before))
  }

  lemma SamePairs(ws: Text, p: Pairs, open: nat)
    requires p.NamedValue? && FormedPairs(p, false) && IsWs(ws, false)
    ensures var q := PairsBehind(ws, p);
      && FormedPairs(q, false) && DenotedPairs(q) == DenotedPairs(p) && (PairsFit(q, open) <==> PairsFit(p, open))
      && PairsText(q) == ws + PairsText(p)
  {
    hide SyntaxText, StringText, AreCharacters, BodyBytes, Formed, Denoted;
    WsConcat(ws, p.name.before);
    var n := p.name;
    var key := StringText(n.key) + (n.colon + ([COLON] + n.behind));
    Regroup3(ws, n.before, key);
    Regroup3(ws, n.before + key, SyntaxText(p.value) + (p.after + (Separator(p.rest.NamedValue?) + PairsText(p.rest))));
  }

  lemma NameParsed(s: Text) returns (n: Name)
    requires ParseName(s).Ok?
    ensures FormedName(n, false) && ParseName(s).value == UpToNul(BodyBytes(n.key))
    ensures s == NameText(n) + ParseName(s).rest
  {
    hide ParseString, SkipWs, StringText, AreCharacters, BodyBytes, UpToNul;
    var k := ParseString(SkipWs(s));
    var before := SkippedWs(s);
    var key := StringParsed(SkipWs(s));
    var colon := SkippedWs(k.rest);
    var t := SkipWs(k.rest);
    var behind := SkippedWs(t[1..]);
    n := Name(before, key, colon, behind);
    var rest := SkipWs(t[1..]);
    NameShape(n, rest);
    assert t == [COLON] + t[1..];
  }

  lemma PairBuilt(p: Pairs, open: nat)
    requires p.NamedValue? && FormedName(p.name, false) && Formed(p.value, false) && IsWs(p.after, false)
    requires Fits(p.value, open)
    requires p.rest == NoPairs([]) || (p.rest.NamedValue? && FormedPairs(p.rest, false) && PairsFit(p.rest, open))
    ensures FormedPairs(p, false) && PairsFit(p, open)
    ensures DenotedPairs(p)
         == MCons(UpToNul(BodyBytes(p.name.key)), Denoted(p.value),
              if p.rest.NamedValue? then DenotedPairs(p.rest) else MNil)
  {
    hide Formed, Fits, Denoted, UpToNul, BodyBytes, EachCharacter;
  }

  lemma PairText(p: Pairs, end: Text, more: Text)
    requires p.NamedValue? && end != [] && (p.rest == NoPairs([]) || p.rest.NamedValue?)
    requires end[0] == (if p.rest.NamedValue? then COMMA else RBRACE)
    requires end[1..] == (if p.rest.NamedValue? then PairsText(p.rest) + more else more)
    ensures NameText(p.name) + (SyntaxText(p.value) + (p.after + end)) == PairsText(p) + more
  {
    hide SyntaxText, NameText;
    PairsShape(p, more);
    assert end == [end[0]] + end[1..];
    if p.rest.NoPairs? {
      assert [] + ([] + [RBRACE] + more) == [RBRACE] + more;
    }
  }

  lemma {:induction false} MembersParsed(s: Text, open: nat) returns (p: Pairs)
    requires ParseMembers(s, open).Ok?
    ensures var r := ParseMembers(s, open);
      && p.NamedValue? && FormedPairs(p, false) && PairsFit(p, open)
      && DenotedPairs(p) == r.value && s == PairsText(p) + r.rest
    decreases |s|, 3
  {
    hide *;
    Delimiters();
    MembersStep(s, open);
    var name := NameParsed(s);
    var at := ParseName(s).rest;
    var v := ParseValue(at, open);
    var t := ValueParsed(at, open);
    ReadIs(at, open, t, v.rest);
    var after := SkippedWs(v.rest);
    var end := SkipWs(v.rest);
    p := NamedValue(name, t, after, NoPairs([]));
    if end[0] == COMMA {
      var f := MembersParsed(end[1..], open);
      p := p.(rest := f);
    }
    PairBuilt(p, open);
    PairText(p, end, ParseMembers(s, open).rest);
  }

  // ---------------------------------------------------------------- whole texts

  /** The text of a tree, with white space around it and perhaps a byte order mark in front. */
  datatype Document = Document(marked: bool, before: Text, value: Syntax, after: Text)

  function MarkText(marked: bool): Text {
    if marked then [0xEF, 0xBB, 0xBF] else []
  }

  function DocumentText(d: Document): Text {
    MarkText(d.marked) + (d.before + (SyntaxText(d.value) + d.after))
  }

  predicate IsDocument(d: Document) {
    IsWs(d.before, false) && Formed(d.value, false) && IsWs(d.after, false)
  }

  /** A document whose numbers have at most 63 characters and which nests at most 1000 levels deep. */
  predicate IsAcceptable(d: Document) {
    IsDocument(d) && ShortNumbers(d.value) && Nesting(Denoted(d.value)) <= 1000
  }

  lemma MarkIsBom(s: Text)
    ensures BOM == MarkText(true) && (MarkText(true) + s)[..3] == BOM && (MarkText(true) + s)[3..] == s
  {
  }

  /** A byte order mark in front makes no difference, unless there is a second one behind it. */
  lemma MarkedAlike(text: Text, requireNul: bool)
    requires !(MarkText(true) <= text)
    ensures Parse(MarkText(true) + text, requireNul) == Parse(text, requireNul)
  {
    hide ParseValue, SkipWs, MarkText;
    var s := text + [NUL];
    assert (MarkText(true) + text) + [NUL] == MarkText(true) + s;
    MarkIsBom(s);
    if BOM <= s {
      MarkShows(text);
    }
    if text == [] {
      NothingParsed();
    }
  }

  lemma MarkShows(text: Text)
    requires BOM <= text + [NUL]
    ensures MarkText(true) <= text
  {
    var s := text + [NUL];
    assert s[0] == BOM[0] && s[1] == BOM[1] && s[2] == BOM[2];
    assert |text| >= 3 && text[..3] == MarkText(true);
  }

  lemma NothingParsed()
    ensures ParseValue(SkipWs([NUL]), 0).Fail? && ParseValue(SkipWs(MarkText(true) + [NUL]), 0).Fail?
  {
    hide ParseArray, ParseObject;
    NotLiteral([NUL]);
    NotLiteral(MarkText(true) + [NUL]);
  }

  /** A document is accepted if and only if it is acceptable, and then gives the tree it denotes. */
  lemma DocumentRead(d: Document)
    requires IsDocument(d)
    ensures var r := Parse(DocumentText(d), true);
      if IsAcceptable(d) then r == Ok(Denoted(d.value), [NUL]) else r.Fail?
  {
    hide Parse, SyntaxText, Nesting, ShortNumbers, Denoted, Fits, Formed, MarkText;
    var text := d.before + (SyntaxText(d.value) + d.after);
    TextRead(d.before, d.value, d.after);
    FitsMeans(d.value, 0);
    if d.marked {
      Unmarked(d);
      MarkedAlike(text, true);
    } else {
      NoMarkText(text);
    }
  }

  lemma NoMarkText(text: Text)
    ensures MarkText(false) + text == text
  {
  }

  lemma Unmarked(d: Document)
    requires IsDocument(d)
    ensures !(MarkText(true) <= d.before + (SyntaxText(d.value) + d.after))
  {
    hide SyntaxText, Formed;
    SyntaxStarts(d.value, d.after);
    StartsAscii(d.before, SyntaxText(d.value) + d.after);
    assert MarkText(true)[0] == 0xEF;
  }

  /** What is accepted is a document. */
  lemma AcceptedDocument(text: Text) returns (d: Document)
    requires CString(text) && Parse(text, true).Ok?
    ensures IsDocument(d) && IsAcceptable(d) && DocumentText(d) == text
    ensures Parse(text, true) == Ok(Denoted(d.value), [NUL])
  {
    hide ParseValue, SkipWs, SyntaxText, Nesting, ShortNumbers, Denoted, Fits, Formed, MarkText, SkipBom;
    var s := SkipBom(text + [NUL]);
    var marked := BomSkipped(text);
    var before := SkippedWs(s);
    var r := ParseValue(SkipWs(s), 0);
    var t := ValueParsed(SkipWs(s), 0);
    ReadIs(SkipWs(s), 0, t, r.rest);
    FitsMeans(t, 0);
    var after := SkippedWs(r.rest);
    var end := SkipWs(r.rest);
    Chained(MarkText(marked), before, SyntaxText(t), after, end);
    EndsThere(text, MarkText(marked) + (before + (SyntaxText(t) + after)), end);
    d := Document(marked, before, t, after);
  }

  /** Without the demand for a terminator, an accepted text starts with a value, and the end is right behind it. */
  lemma AcceptedPrefix(text: Text) returns (marked: bool, before: Text, t: Syntax)
    requires Parse(text, false).Ok?
    ensures var r := Parse(text, false); var s := SyntaxText(t) + r.rest;
      && IsWs(before, false) && text + [NUL] == MarkText(marked) + (before + s)
      && Read(s, 0, t, r.rest) && Denoted(t) == r.value
  {
    hide ParseValue, SkipWs, Read, Denoted, MarkText, SkipBom;
    var s := SkipBom(text + [NUL]);
    marked := BomSkipped(text);
    before := SkippedWs(s);
    t := ValueParsed(SkipWs(s), 0);
    ReadIs(SkipWs(s), 0, t, Parse(text, false).rest);
  }

  lemma BomSkipped(text: Text) returns (marked: bool)
    ensures text + [NUL] == MarkText(marked) + SkipBom(text + [NUL])
  {
    var s := text + [NUL];
    marked := |s| > 4 && BOM <= s;
    if marked {
      assert s[..3] == BOM == MarkText(true);
    }
  }

  lemma Chained(a: Text, b: Text, c: Text, d: Text, e: Text)
    ensures a + (b + (c + (d + e))) == (a + (b + (c + d))) + e
  {
    assert c + (d + e) == (c + d) + e;
    assert b + ((c + d) + e) == (b + (c + d)) + e;
    assert a + ((b + (c + d)) + e) == (a + (b + (c + d))) + e;
  }

  lemma EndsThere(text: Text, front: Text, end: Text)
    requires CString(text) && text + [NUL] == front + end && end != [] && end[0] == NUL
    ensures front == text && end == [NUL]
  {
    assert (text + [NUL])[|front|] == NUL;
    assert |front| == |text|;
    assert (text + [NUL])[..|text|] == text && (front + end)[..|front|] == front;
    assert (text + [NUL])[|text|..] == [NUL] && (front + end)[|front|..] == end;
  }

  /** The accepted language: a text is accepted with a tree if and only if it is a document that denotes the tree. */
  lemma LanguageIs(text: Text, j: Json)
    requires CString(text)
    ensures Parse(text, true) == Ok(j, [NUL])
       <==> exists d :: IsAcceptable(d) && DocumentText(d) == text && Denoted(d.value) == j
  {
    hide Parse, DocumentText, Denoted;
    if Parse(text, true).Ok? {
      var d := AcceptedDocument(text);
    }
    forall d | IsAcceptable(d) && DocumentText(d) == text
      ensures Parse(text, true) == Ok(Denoted(d.value), [NUL])
    {
      DocumentRead(d);
    }
  }
}

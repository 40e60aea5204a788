/**
 Every text of the grammar is accepted, with the tree it denotes, unless it nests too deeply or a
 number does not fit its buffer; then it is rejected.
 */
module JsonAccepts {
  import opened Bytes
  import opened Json
  import opened JsonNumber
  import opened JsonString
  import opened JsonParse
  import opened JsonGrammar
  import Utf8

  // ---------------------------------------------------------------- white space and tokens

  lemma {:induction false} SkipWsThrough(ws: Text, s: Text)
    requires forall i :: 0 <= i < |ws| ==> ws[i] <= 32
    requires s != [] && s[0] > 32
    ensures SkipWs(ws + s) == s
    decreases |ws|
  {
    if ws == [] {
      assert ws + s == s;
    } else {
      assert (ws + s)[1..] == ws[1..] + s;
      SkipWsThrough(ws[1..], s);
    }
  }

  lemma NotLiteral(s: Text)
    requires s != [] && s[0] != 110 && s[0] != 102 && s[0] != 116
    ensures !(NULL_TEXT <= s) && !(FALSE_TEXT <= s) && !(TRUE_TEXT <= s)
  {
    assert NULL_TEXT[0] == 110 && FALSE_TEXT[0] == 102 && TRUE_TEXT[0] == 116;
  }

  lemma LiteralsRead(tail: Text, open: nat)
    ensures ParseValue(NULL_TEXT + tail, open) == Ok(Null, tail)
    ensures ParseValue(FALSE_TEXT + tail, open) == Ok(False, tail)
    ensures ParseValue(TRUE_TEXT + tail, open) == Ok(True, tail)
  {
    assert (NULL_TEXT + tail)[..4] == NULL_TEXT && (NULL_TEXT + tail)[4..] == tail;
    assert (FALSE_TEXT + tail)[..5] == FALSE_TEXT && (FALSE_TEXT + tail)[5..] == tail && (FALSE_TEXT + tail)[0] == 102;
    assert (TRUE_TEXT + tail)[..4] == TRUE_TEXT && (TRUE_TEXT + tail)[4..] == tail && (TRUE_TEXT + tail)[0] == 116;
  }

  /** What may follow a value: a number must not run on into it. */
  predicate Follows(tail: Text) {
    tail != [] && !IsNumberChar(tail[0])
  }

  lemma WsFollows(ws: Text, s: Text)
    requires IsWs(ws, false) && Follows(s)
    ensures Follows(ws + s)
  {
    if ws == [] {
      assert ws + s == s;
    }
  }

  /** How a value starts: never with white space, a bracket that closes, or a byte order mark. */
  predicate Starts(s: Text) {
    s != [] && s[0] > 32 && s[0] != RBRACKET && s[0] < 0x80
  }

  lemma SyntaxStarts(t: Syntax, tail: Text)
    requires Formed(t, false)
    ensures Starts(SyntaxText(t) + tail)
  {
    if t.NumberValue? {
      TokenShape(t.token);
    }
    assert (SyntaxText(t) + tail)[0] == SyntaxText(t)[0];
  }

  // ---------------------------------------------------------------- numbers

  /** A token in front of anything else is read whole, or runs over the window. */
  lemma NumberRead(token: Token, tail: Text, open: nat)
    requires IsNumeral(token) && Follows(tail)
    ensures var r := ParseValue(TokenText(token) + tail, open);
      if |TokenText(token)| <= WINDOW then r == Ok(Number(TokenValue(token)), tail)
      else r.Ok? ==> r.rest != [] && IsNumberChar(r.rest[0])
  {
    hide Strtod, Window, TokenText, TokenValue, IsNumeral, ParseArray, ParseObject, ParseString;
    var t := TokenText(token);
    var s := t + tail;
    TokenShape(token);
    assert s[0] == t[0];
    NotLiteral(s);
    if |t| <= WINDOW {
      WindowWhole(t, tail, WINDOW);
      StrtodOfNumeral(token);
      assert s[|t|..] == tail;
    } else {
      WindowIs(s, WINDOW);
      var n := Strtod(Window(s)).length;
      assert s[n] == t[n];
    }
  }

  // ---------------------------------------------------------------- strings

  /** A text that no quote closes is scanned up to the quote behind it. */
  lemma {:induction false} UnclosedScan(s: Text, tail: Text)
    requires Unclosed(s) && tail != [] && tail[0] == QUOTE
    ensures ScanEnd(s + tail) == Some(|s|)
    decreases |s|
  {
    hide ScanEnd;
    if s == [] {
      assert s + tail == tail;
      ScanQuote(tail);
    } else {
      var n := if s[0] == BACKSLASH then 2 else 1;
      ScanUnfold(s + tail);
      DropPart(s, tail, n);
      UnclosedScan(s[n..], tail);
    }
  }

  lemma DropPart(s: Text, t: Text, n: nat)
    requires n <= |s|
    ensures (s + t)[n..] == s[n..] + t
  {
  }

  lemma {:induction false} UnclosedConcat(s: Text, t: Text)
    requires Unclosed(s) && Unclosed(t)
    ensures Unclosed(s + t)
    decreases |s|
  {
    if s == [] {
      assert s + t == t;
    } else {
      var n := if s[0] == BACKSLASH then 2 else 1;
      DropPart(s, t, n);
      UnclosedConcat(s[n..], t);
    }
  }

  lemma {:induction false} PlainUnclosed(s: Text)
    requires forall i :: 0 <= i < |s| ==> s[i] != QUOTE && s[i] != BACKSLASH
    ensures Unclosed(s)
    decreases |s|
  {
    if s != [] {
      PlainUnclosed(s[1..]);
    }
  }

  lemma EscapeUnclosed(e: Code)
    ensures Unclosed(EscapeText(e))
  {
    hide Unclosed, DigitText;
    DigitPlain(e.a);
    DigitPlain(e.b);
    DigitPlain(e.c);
    DigitPlain(e.d);
    var t := EscapeText(e);
    PlainUnclosed(t[2..]);
    PairUnclosed(t);
  }

  lemma PairUnclosed(s: Text)
    requires |s| >= 2 && s[0] == BACKSLASH && Unclosed(s[2..])
    ensures Unclosed(s)
  {
  }

  lemma DigitPlain(d: Digit)
    ensures DigitText(d) != QUOTE && DigitText(d) != BACKSLASH
  {
  }

  lemma CharacterUnclosed(c: Character)
    requires IsCharacter(c, true)
    ensures Unclosed(CharacterText(c))
  {
    hide EscapeText;
    match c
    case Plain(b) => PlainUnclosed([b]);
    case Short(l) => PairUnclosed([BACKSLASH, l]);
    case Unit(e) => EscapeUnclosed(e);
    case Pair(e, f) =>
      EscapeUnclosed(e);
      EscapeUnclosed(f);
      UnclosedConcat(EscapeText(e), EscapeText(f));
  }

  /** In the grammar proper a quote never closes a literal early. */
  lemma {:induction false} StrictUnclosed(chars: seq<Character>)
    requires EachCharacter(chars, true)
    ensures Unclosed(Body(chars)) && EachCharacter(chars, false)
    decreases |chars|
  {
    hide CharacterText, Unclosed;
    if chars == [] {
      PlainUnclosed([]);
    } else {
      CharacterUnclosed(chars[0]);
      StrictUnclosed(chars[1..]);
      UnclosedConcat(CharacterText(chars[0]), Body(chars[1..]));
    }
  }

  /** Four digits are read as their code unit. */
  lemma EscapeIsUnit(e: Code)
    ensures Utf8.IsUnit(EscapeText(e), CodeUnit(e))
  {
    hide Utf8.HexDigit, Utf8.HexValue;
    var t := EscapeText(e);
    DigitRead(e.a);
    DigitRead(e.b);
    DigitRead(e.c);
    DigitRead(e.d);
    assert t[2..] == [DigitText(e.a), DigitText(e.b), DigitText(e.c), DigitText(e.d)];
    Utf8.HexOf4(t[2..]);
  }

  lemma DigitRead(d: Digit)
    ensures Utf8.HexDigit(DigitText(d)) == Some(d.value)
  {
    Utf8.HexDigitIs(DigitText(d), d.value);
  }

  lemma NoDigit(c: byte)
    ensures Utf8.HexDigit(c).Some? <==> IsHexDigit(c)
  {
    hide Utf8.HexDigit;
    if Utf8.HexDigit(c).Some? {
      Utf8.HexDigitIs(c, Utf8.HexDigit(c).value);
    }
    forall d: nat | d < 16
      ensures c == Utf8.LOWER_HEX[d] || c == Utf8.UPPER_HEX[d] ==> Utf8.HexDigit(c).Some?
    {
      Utf8.HexDigitIs(c, d);
    }
  }

  lemma GarbledRead(four: Text, tail: Text)
    requires IsCharacter(Garbled(four), false) && tail != []
    ensures NextPiece(([BACKSLASH, Utf8.LOWER_U] + four) + tail) == Some(Piece([NUL], 6))
  {
    var u := ([BACKSLASH, Utf8.LOWER_U] + four) + tail;
    assert u[2..6] == four;
    var i :| 0 <= i < 4 && !IsHexDigit(four[i]);
    NoDigit(four[i]);
    assert !Utf8.AllHex(four);
  }

  lemma ShortRead(l: byte)
    ensures ReadShort(l) == if l in SHORT_ESCAPES then Some(SHORT_ESCAPES[l]) else None
  {
  }

  /** One character is decoded in one step. */
  lemma CharacterRead(c: Character, tail: Text)
    requires IsCharacter(c, false) && !c.Closing? && tail != []
    ensures NextPiece(CharacterText(c) + tail) == Some(Piece(CharacterBytes(c), |CharacterText(c)|))
  {
    hide Utf8.Encode, Utf8.ReadEscape, ReadShort, Utf8.IsUnit, CodeUnit;
    var u := CharacterText(c) + tail;
    match c
    case Plain(b) =>
    case Short(l) => ShortRead(l);
    case Unit(e) =>
      EscapeIsUnit(e);
      Utf8.ReadsUnit(EscapeText(e), CodeUnit(e), tail);
    case Pair(e, f) =>
      EscapeIsUnit(e);
      EscapeIsUnit(f);
      Utf8.ReadsPair(EscapeText(e), CodeUnit(e), EscapeText(f), CodeUnit(f), tail);
    case Garbled(four) =>
      GarbledRead(four, tail);
  }

  lemma CharacterNonEmpty(c: Character)
    ensures CharacterText(c) != []
  {
  }

  lemma {:induction false} BodyRead(chars: seq<Character>)
    requires EachCharacter(chars, false)
    ensures Decode(Body(chars) + [QUOTE]) == Some(BodyBytes(chars))
    decreases |chars|
  {
    hide NextPiece, CharacterText, CharacterBytes, IsCharacter;
    if chars != [] {
      var e, rest := CharacterText(chars[0]), Body(chars[1..]) + [QUOTE];
      if chars[0].Closing? {
        assert chars == [Closing];
        ClosingRead();
      } else {
        assert Body(chars) + [QUOTE] == e + rest;
        CharacterRead(chars[0], rest);
        BodyRead(chars[1..]);
        CharacterNonEmpty(chars[0]);
        DecodePiece(e, rest, CharacterBytes(chars[0]));
      }
    }
  }

  lemma ClosingRead()
    ensures EachCharacter([Closing], false) && Body([Closing]) == [BACKSLASH]
    ensures Decode(Body([Closing]) + [QUOTE]) == Some(BodyBytes([Closing]))
  {
    var u := Body([Closing]) + [QUOTE];
    assert u == [BACKSLASH, QUOTE];
    assert NextPiece(u) == Some(Piece([QUOTE], 2)) && u[2..] == [];
  }

  lemma StringRead(chars: seq<Character>, tail: Text)
    requires AreCharacters(chars, false)
    ensures ParseString(StringText(chars) + tail) == Ok(UpToNul(BodyBytes(chars)), tail)
  {
    hide ScanEnd, Decode, Body, BodyBytes, UpToNul;
    var t := StringText(chars) + tail;
    var body := Body(chars) + ([QUOTE] + tail);
    assert t[1..] == body;
    UnclosedScan(Body(chars), [QUOTE] + tail);
    assert body[..|Body(chars)| + 1] == Body(chars) + [QUOTE];
    assert body[|Body(chars)| + 1..] == tail;
    BodyRead(chars);
  }

  lemma StringValueRead(chars: seq<Character>, tail: Text, open: nat)
    requires AreCharacters(chars, false)
    ensures ParseValue(StringText(chars) + tail, open) == Ok(String(UpToNul(BodyBytes(chars))), tail)
  {
    hide ParseString, Body, BodyBytes, UpToNul;
    StringRead(chars, tail);
    assert (StringText(chars) + tail)[0] == QUOTE;
    NotLiteral(StringText(chars) + tail);
  }

  // ---------------------------------------------------------------- containers

  /** What is read of a value in front of `tail`. */
  ghost predicate Reads(t: Syntax, tail: Text, open: nat, r: Parsed<Json>)
    requires Formed(t, false)
  {
    if Fits(t, open) then r == Ok(Denoted(t), tail)
    else r.Ok? ==> t.NumberValue? && r.rest != [] && IsNumberChar(r.rest[0])
  }

  /** A value is read as what it denotes, up to its end, if it fits. */
  lemma {:induction false} ValueRead(t: Syntax, tail: Text, open: nat)
    requires Formed(t, false) && (t.NumberValue? ==> Follows(tail))
    ensures Reads(t, tail, open, ParseValue(SyntaxText(t) + tail, open))
    decreases t, 1
  {
    match t
    case NullValue => LiteralsRead(tail, open);
    case FalseValue => LiteralsRead(tail, open);
    case TrueValue => LiteralsRead(tail, open);
    case NumberValue(token) => NumberRead(token, tail, open);
    case StringValue(chars) => StringValueRead(chars, tail, open);
    case ArrayValue(elements) => ArrayRead(elements, tail, open);
    case ObjectValue(pairs) => ObjectRead(pairs, tail, open);
  }

  lemma BracketOpens(body: Text, open: nat)
    ensures ParseValue([LBRACKET] + body, open) == ParseArray([LBRACKET] + body, open)
    ensures ([LBRACKET] + body)[1..] == body
  {
    NotLiteral([LBRACKET] + body);
  }

  lemma BraceOpens(body: Text, open: nat)
    ensures ParseValue([LBRACE] + body, open) == ParseObject([LBRACE] + body, open)
    ensures ([LBRACE] + body)[1..] == body
  {
    NotLiteral([LBRACE] + body);
  }

  /** Leading white space makes no difference to a list of elements or members. */
  lemma ItemsSkip(s: Text, t: Text, open: nat)
    requires SkipWs(s) == SkipWs(t)
    ensures ParseItems(s, open) == ParseItems(t, open)
  {
  }

  lemma MembersSkip(s: Text, t: Text, open: nat)
    requires SkipWs(s) == SkipWs(t)
    ensures ParseMembers(s, open) == ParseMembers(t, open)
  {
  }

  /** What follows the value of an element, up to the end of the list and beyond. */
  function BehindElement(e: Elements, tail: Text): Text
    requires e.Element?
  {
    e.after + (Separator(e.rest.Element?) + (ElementsText(e.rest) + tail))
  }

  lemma ElementsShape(e: Elements, tail: Text)
    requires e.Element?
    ensures ElementsText(e) + tail == e.before + (SyntaxText(e.value) + BehindElement(e, tail))
  {
    var x, y, z := e.after, Separator(e.rest.Element?), ElementsText(e.rest);
    Regroup4(e.before, SyntaxText(e.value), x, y, z, tail);
  }

  lemma Regroup4(a: Text, b: Text, c: Text, d: Text, e: Text, f: Text)
    ensures (a + (b + (c + (d + e)))) + f == a + (b + (c + (d + (e + f))))
  {
    assert (d + e) + f == d + (e + f);
    assert (c + (d + e)) + f == c + ((d + e) + f);
    assert (b + (c + (d + e))) + f == b + ((c + (d + e)) + f);
    assert (a + (b + (c + (d + e)))) + f == a + ((b + (c + (d + e))) + f);
  }

  lemma WsSkipped(ws: Text, s: Text)
    requires IsWs(ws, false) && s != [] && s[0] > 32
    ensures SkipWs(ws + s) == s && SkipWs(s) == s
  {
    hide SkipWs;
    SkipWsThrough(ws, s);
    SkipWsNone(s);
  }

  /** The character that ends an element. */
  lemma ElementEnd(e: Elements, tail: Text)
    requires e.Element? && FormedElements(e, false)
    ensures var end := Separator(e.rest.Element?) + (ElementsText(e.rest) + tail);
      && end != [] && end[0] == (if e.rest.Element? then COMMA else RBRACKET)
      && end[1..] == (if e.rest.Element? then ElementsText(e.rest) + tail else tail)
      && SkipWs(BehindElement(e, tail)) == end && Follows(BehindElement(e, tail))
  {
    hide SkipWs, SyntaxText;
    var end := Separator(e.rest.Element?) + (ElementsText(e.rest) + tail);
    if e.rest.NoElements? {
      assert end == [RBRACKET] + tail;
    }
    WsSkipped(e.after, end);
    WsFollows(e.after, end);
  }

  lemma ElementsStart(e: Elements, tail: Text)
    requires e.Element? && FormedElements(e, false)
    ensures var s := SyntaxText(e.value) + BehindElement(e, tail);
      SkipWs(ElementsText(e) + tail) == s && SkipWs(s) == s && Starts(s)
  {
    hide SkipWs, BehindElement, SyntaxText, ElementsText;
    ElementsShape(e, tail);
    SyntaxStarts(e.value, BehindElement(e, tail));
    WsSkipped(e.before, SyntaxText(e.value) + BehindElement(e, tail));
  }

  lemma ElementsUnfold(e: Elements, open: nat)
    requires e.Element? && FormedElements(e, false)
    ensures Formed(e.value, false) && FormedElements(e.rest, false)
    ensures DenotedElements(e) == ICons(Denoted(e.value), DenotedElements(e.rest))
    ensures ElementsFit(e, open) <==> Fits(e.value, open) && ElementsFit(e.rest, open)
    ensures e.rest.NoElements? ==> DenotedElements(e.rest) == INil && ElementsFit(e.rest, open)
  {
  }

  lemma ItemsStep(s: Text, open: nat)
    ensures var v := ParseValue(SkipWs(s), open);
      ParseItems(s, open) ==
      if v.Fail? then Fail
      else
        var t := SkipWs(v.rest);
        if t == [] then Fail
        else if t[0] == COMMA then
          var r := ParseItems(t[1..], open);
          if r.Fail? then Fail else Ok(ICons(v.value, r.value), r.rest)
        else if t[0] == RBRACKET then Ok(ICons(v.value, INil), t[1..])
        else Fail
  {
  }

  lemma Delimiters()
    ensures COMMA != RBRACKET && COMMA != RBRACE && QUOTE != RBRACE
  {
  }

  lemma NumberCharEndsNothing(c: byte)
    requires IsNumberChar(c)
    ensures c > 32 && c != COMMA && c != RBRACKET && c != RBRACE
  {
  }

  lemma {:induction false} ElementsRead(e: Elements, tail: Text, open: nat)
    requires e.Element? && FormedElements(e, false)
    ensures var r := ParseItems(ElementsText(e) + tail, open);
      if ElementsFit(e, open) then r == Ok(DenotedElements(e), tail) else r.Fail?
    decreases e, 1
  {
    hide *;
    Delimiters();
    var more := BehindElement(e, tail);
    ElementsUnfold(e, open);
    ElementsStart(e, tail);
    ElementEnd(e, tail);
    ValueRead(e.value, more, open);
    ReadsMeans(e.value, more, open, ParseValue(SyntaxText(e.value) + more, open));
    ItemsStep(ElementsText(e) + tail, open);
    var v := ParseValue(SyntaxText(e.value) + more, open);
    if !Fits(e.value, open) && v.Ok? {
      NumberCharEndsNothing(v.rest[0]);
      SkipWsNone(v.rest);
    }
    if e.rest.Element? {
      ElementsRead(e.rest, tail, open);
    }
  }

  lemma ReadsMeans(t: Syntax, tail: Text, open: nat, r: Parsed<Json>)
    requires Formed(t, false) && Reads(t, tail, open, r)
    ensures Fits(t, open) ==> r == Ok(Denoted(t), tail)
    ensures !Fits(t, open) && r.Ok? ==> r.rest != [] && IsNumberChar(r.rest[0])
  {
    hide Formed, Fits, Denoted;
  }

  lemma ArrayStep(body: Text, open: nat)
    ensures var r := ParseValue([LBRACKET] + body, open);
      var t := SkipWs(body);
      if open >= NESTING_LIMIT then r.Fail?
      else if t != [] && t[0] == RBRACKET then r == Ok(Array(INil), t[1..])
      else
        var items := ParseItems(t, open + 1);
        r == if items.Fail? then Fail else Ok(Array(items.value), items.rest)
  {
    hide ParseItems, SkipWs, ParseValue;
    BracketOpens(body, open);
  }

  lemma ArrayMeans(elements: Elements, tail: Text, open: nat, r: Parsed<Json>)
    requires FormedElements(elements, false)
    requires if open < NESTING_LIMIT && ElementsFit(elements, open + 1)
      then r == Ok(Array(DenotedElements(elements)), tail) else r.Fail?
    ensures Reads(ArrayValue(elements), tail, open, r)
  {
    hide ElementsFit, DenotedElements, FormedElements;
  }

  lemma {:induction false} ArrayRead(elements: Elements, tail: Text, open: nat)
    requires FormedElements(elements, false)
    ensures Reads(ArrayValue(elements), tail, open, ParseValue(SyntaxText(ArrayValue(elements)) + tail, open))
    decreases elements, 2
  {
    hide *;
    var body := ElementsText(elements) + tail;
    ArrayShape(elements, tail);
    ArrayStep(body, open);
    if elements.NoElements? {
      EmptyElements(elements, tail);
    } else {
      ElementsStart(elements, tail);
      StartsMeans(SkipWs(body));
      ItemsSkip(SkipWs(body), body, open + 1);
      ElementsRead(elements, tail, open + 1);
    }
    ArrayMeans(elements, tail, open, ParseValue([LBRACKET] + body, open));
  }

  lemma EmptyElements(e: Elements, tail: Text)
    requires e.NoElements? && FormedElements(e, false)
    ensures var t := SkipWs(ElementsText(e) + tail); t != [] && t[0] == RBRACKET && t[1..] == tail
    ensures DenotedElements(e) == INil && forall open :: ElementsFit(e, open)
  {
    hide SkipWs;
    assert ElementsText(e) + tail == e.ws + ([RBRACKET] + tail);
    WsSkipped(e.ws, [RBRACKET] + tail);
    assert ([RBRACKET] + tail)[1..] == tail;
  }

  lemma StartsMeans(s: Text)
    requires Starts(s)
    ensures s != [] && s[0] != RBRACKET
  {
  }

  lemma ArrayShape(elements: Elements, tail: Text)
    ensures SyntaxText(ArrayValue(elements)) + tail == [LBRACKET] + (ElementsText(elements) + tail)
  {
    hide ElementsText;
  }

  // ---------------------------------------------------------------- members

  function BehindValue(p: Pairs, tail: Text): Text
    requires p.NamedValue?
  {
    p.after + (Separator(p.rest.NamedValue?) + (PairsText(p.rest) + tail))
  }

  lemma PairsShape(p: Pairs, tail: Text)
    requires p.NamedValue?
    ensures PairsText(p) + tail == NameText(p.name) + (SyntaxText(p.value) + BehindValue(p, tail))
  {
    var x, y, z := p.after, Separator(p.rest.NamedValue?), PairsText(p.rest);
    Regroup4(NameText(p.name), SyntaxText(p.value), x, y, z, tail);
  }

  /** The character that ends a member. */
  lemma PairEnd(p: Pairs, tail: Text)
    requires p.NamedValue? && FormedPairs(p, false)
    ensures var end := Separator(p.rest.NamedValue?) + (PairsText(p.rest) + tail);
      && end != [] && end[0] == (if p.rest.NamedValue? then COMMA else RBRACE)
      && end[1..] == (if p.rest.NamedValue? then PairsText(p.rest) + tail else tail)
      && SkipWs(BehindValue(p, tail)) == end && Follows(BehindValue(p, tail))
  {
    hide SkipWs, SyntaxText, NameText;
    var end := Separator(p.rest.NamedValue?) + (PairsText(p.rest) + tail);
    if p.rest.NoPairs? {
      assert end == [RBRACE] + tail;
    }
    WsSkipped(p.after, end);
    WsFollows(p.after, end);
  }

  lemma NameShape(n: Name, value: Text)
    ensures NameText(n) + value == n.before + (StringText(n.key) + (n.colon + ([COLON] + (n.behind + value))))
  {
    hide StringText;
    Regroup4(n.before, StringText(n.key), n.colon, [COLON], n.behind, value);
  }

  lemma NameRead(n: Name, value: Text)
    requires FormedName(n, false) && Starts(value)
    ensures ParseName(NameText(n) + value) == Ok(UpToNul(BodyBytes(n.key)), value)
    ensures var s := SkipWs(NameText(n) + value); s != [] && s[0] == QUOTE && SkipWs(s) == s
  {
    hide SkipWs, ParseString, NameText, StringText, BodyBytes, UpToNul;
    var colon := [COLON] + (n.behind + value);
    var s := StringText(n.key) + (n.colon + colon);
    NameShape(n, value);
    StringStarts(n.key, n.colon + colon);
    WsSkipped(n.before, s);
    StringRead(n.key, n.colon + colon);
    WsSkipped(n.colon, colon);
    assert colon[1..] == n.behind + value;
    WsSkipped(n.behind, value);
  }

  lemma StringStarts(chars: seq<Character>, tail: Text)
    ensures var s := StringText(chars) + tail; s != [] && s[0] == QUOTE
  {
    hide Body;
  }

  lemma PairsUnfold(p: Pairs, open: nat)
    requires p.NamedValue? && FormedPairs(p, false)
    ensures Formed(p.value, false) && FormedPairs(p.rest, false)
    ensures FormedName(p.name, false) && AreCharacters(p.name.key, false)
    ensures DenotedPairs(p) == MCons(UpToNul(BodyBytes(p.name.key)), Denoted(p.value), DenotedPairs(p.rest))
    ensures PairsFit(p, open) <==> Fits(p.value, open) && PairsFit(p.rest, open)
    ensures p.rest.NoPairs? ==> DenotedPairs(p.rest) == MNil && PairsFit(p.rest, open)
  {
  }

  lemma MembersStep(s: Text, open: nat)
    ensures var k := ParseName(s);
      ParseMembers(s, open) ==
      if k.Fail? then Fail
      else
        var v := ParseValue(k.rest, open);
        if v.Fail? then Fail
        else
          var t := SkipWs(v.rest);
          if t == [] then Fail
          else if t[0] == COMMA then
            var r := ParseMembers(t[1..], open);
            if r.Fail? then Fail else Ok(MCons(k.value, v.value, r.value), r.rest)
          else if t[0] == RBRACE then Ok(MCons(k.value, v.value, MNil), t[1..])
          else Fail
  {
    hide ParseName;
  }

  lemma {:induction false} PairsRead(p: Pairs, tail: Text, open: nat)
    requires p.NamedValue? && FormedPairs(p, false)
    ensures var r := ParseMembers(PairsText(p) + tail, open);
      if PairsFit(p, open) then r == Ok(DenotedPairs(p), tail) else r.Fail?
    decreases p, 1
  {
    hide *;
    Delimiters();
    var more := BehindValue(p, tail);
    PairsUnfold(p, open);
    PairsShape(p, tail);
    SyntaxStarts(p.value, more);
    NameRead(p.name, SyntaxText(p.value) + more);
    PairEnd(p, tail);
    ValueRead(p.value, more, open);
    ReadsMeans(p.value, more, open, ParseValue(SyntaxText(p.value) + more, open));
    MembersStep(PairsText(p) + tail, open);
    var v := ParseValue(SyntaxText(p.value) + more, open);
    if !Fits(p.value, open) && v.Ok? {
      NumberCharEndsNothing(v.rest[0]);
      SkipWsNone(v.rest);
    }
    if p.rest.NamedValue? {
      PairsRead(p.rest, tail, open);
    }
  }

  lemma ObjectStep(body: Text, open: nat)
    ensures var r := ParseValue([LBRACE] + body, open);
      var t := SkipWs(body);
      if open >= NESTING_LIMIT then r.Fail?
      else if t != [] && t[0] == RBRACE then r == Ok(Object(MNil), t[1..])
      else
        var members := ParseMembers(t, open + 1);
        r == if members.Fail? then Fail else Ok(Object(members.value), members.rest)
  {
    hide ParseMembers, SkipWs, ParseValue;
    BraceOpens(body, open);
  }

  lemma ObjectMeans(pairs: Pairs, tail: Text, open: nat, r: Parsed<Json>)
    requires FormedPairs(pairs, false)
    requires if open < NESTING_LIMIT && PairsFit(pairs, open + 1)
      then r == Ok(Object(DenotedPairs(pairs)), tail) else r.Fail?
    ensures Reads(ObjectValue(pairs), tail, open, r)
  {
    hide PairsFit, DenotedPairs, FormedPairs;
  }

  lemma {:induction false} ObjectRead(pairs: Pairs, tail: Text, open: nat)
    requires FormedPairs(pairs, false)
    ensures Reads(ObjectValue(pairs), tail, open, ParseValue(SyntaxText(ObjectValue(pairs)) + tail, open))
    decreases pairs, 2
  {
    hide *;
    Delimiters();
    var body := PairsText(pairs) + tail;
    ObjectShape(pairs, tail);
    ObjectStep(body, open);
    if pairs.NoPairs? {
      EmptyPairs(pairs, tail);
    } else {
      PairsUnfold(pairs, open);
      PairsShape(pairs, tail);
      SyntaxStarts(pairs.value, BehindValue(pairs, tail));
      NameRead(pairs.name, SyntaxText(pairs.value) + BehindValue(pairs, tail));
      MembersSkip(SkipWs(body), body, open + 1);
      PairsRead(pairs, tail, open + 1);
    }
    ObjectMeans(pairs, tail, open, ParseValue([LBRACE] + body, open));
  }

  lemma EmptyPairs(p: Pairs, tail: Text)
    requires p.NoPairs? && FormedPairs(p, false)
    ensures var t := SkipWs(PairsText(p) + tail); t != [] && t[0] == RBRACE && t[1..] == tail
    ensures DenotedPairs(p) == MNil && forall open :: PairsFit(p, open)
  {
    hide SkipWs;
    assert PairsText(p) + tail == p.ws + ([RBRACE] + tail);
    WsSkipped(p.ws, [RBRACE] + tail);
    assert ([RBRACE] + tail)[1..] == tail;
  }

  lemma ObjectShape(pairs: Pairs, tail: Text)
    ensures SyntaxText(ObjectValue(pairs)) + tail == [LBRACE] + (PairsText(pairs) + tail)
  {
    hide PairsText;
  }

  // ---------------------------------------------------------------- whole texts

  lemma NotBom(s: Text)
    requires s != [] && s[0] < 0x80
    ensures SkipBom(s) == s
  {
    assert BOM[0] == 0xEF;
  }

  /** A text with white space around it is accepted if and only if it fits; what is built is the tree it denotes. */
  lemma TextRead(before: Text, t: Syntax, after: Text)
    requires IsWs(before, false) && Formed(t, false) && IsWs(after, false)
    ensures var r := Parse(before + (SyntaxText(t) + after), true);
      if Fits(t, 0) then r == Ok(Denoted(t), [NUL]) else r.Fail?
  {
    hide ParseValue, SkipWs, SyntaxText, Denoted, Fits, Formed;
    var tail := after + [NUL];
    var value := SyntaxText(t) + tail;
    assert (before + (SyntaxText(t) + after)) + [NUL] == before + value;
    SyntaxStarts(t, tail);
    StartsAscii(before, value);
    NotBom(before + value);
    WsSkipped(before, value);
    AfterEnd(after);
    ValueRead(t, tail, 0);
    var r := ParseValue(value, 0);
    if r.Ok? && !Fits(t, 0) {
      SkipWsNone(r.rest);
    }
  }

  /**
   A text of RFC 8259, white space around it, is accepted if and only if its numbers have at most 63
   characters and it nests at most 1000 levels deep; what is built is the tree it denotes.
   */
  lemma GrammarDecides(before: Text, t: Syntax, after: Text)
    requires IsWs(before, true) && Formed(t, true) && IsWs(after, true)
    ensures Formed(t, false)
    ensures var r := Parse(before + (SyntaxText(t) + after), true);
      if ShortNumbers(t) && Nesting(Denoted(t)) <= 1000 then r == Ok(Denoted(t), [NUL]) else r.Fail?
  {
    hide Parse, SyntaxText, Nesting, ShortNumbers, Denoted, Fits, Formed;
    StrictIsLenient(t);
    TextRead(before, t, after);
    FitsMeans(t, 0);
  }

  lemma {:induction false} StrictIsLenient(t: Syntax)
    requires Formed(t, true)
    ensures Formed(t, false)
    decreases t
  {
    hide EachCharacter, Unclosed, IsToken, IsNumeral;
    match t
    case NumberValue(token) => TokenIsNumeral(token);
    case StringValue(chars) => StrictUnclosed(chars);
    case ArrayValue(elements) => StrictElements(elements);
    case ObjectValue(pairs) => StrictPairs(pairs);
    case _ =>
  }

  lemma {:induction false} StrictElements(e: Elements)
    requires FormedElements(e, true)
    ensures FormedElements(e, false)
    decreases e
  {
    if e.Element? {
      StrictIsLenient(e.value);
      StrictElements(e.rest);
    }
  }

  lemma {:induction false} StrictPairs(p: Pairs)
    requires FormedPairs(p, true)
    ensures FormedPairs(p, false)
    decreases p
  {
    hide EachCharacter, Unclosed;
    if p.NamedValue? {
      StrictUnclosed(p.name.key);
      StrictIsLenient(p.value);
      StrictPairs(p.rest);
    }
  }

  lemma StartsAscii(before: Text, value: Text)
    requires IsWs(before, false) && Starts(value)
    ensures before + value != [] && (before + value)[0] < 0x80
  {
    if before == [] {
      assert before + value == value;
    }
  }

  lemma {:induction false} AfterEnd(ws: Text)
    requires IsWs(ws, false)
    ensures SkipWs(ws + [NUL]) == [NUL] && Follows(ws + [NUL])
    decreases |ws|
  {
    if ws == [] {
      assert ws + [NUL] == [NUL];
    } else {
      assert (ws + [NUL])[1..] == ws[1..] + [NUL];
      AfterEnd(ws[1..]);
    }
  }
}

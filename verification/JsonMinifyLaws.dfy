/** Minifying keeps the meaning of every accepted text, and turns formatted into unformatted print. */
module JsonMinifyLaws {
  import opened Bytes
  import opened Json
  import opened JsonNumber
  import opened JsonString
  import opened JsonText
  import opened JsonParse
  import opened JsonMinify

  // ---------------------------------------------------------------- stripping piece by piece

  /** Characters that minifying never drops and that start no literal. */
  predicate Solid(c: byte) {
    c > 32 && c != SLASH && c != QUOTE
  }

  predicate AllSolid(t: Text) {
    forall i :: 0 <= i < |t| ==> Solid(t[i])
  }

  lemma StripOne(c: byte, s: Text)
    requires Solid(c)
    ensures Strip([c] + s) == [c] + Strip(s)
    ensures Closed([c] + s) <==> Closed(s)
  {
    hide Head, Strip, Closed;
    HeadIs([c] + s);
    StripUnfold([c] + s);
    assert ([c] + s)[1..] == s && ([c] + s)[..1] == [c];
  }

  lemma {:induction false} StripSolid(t: Text, s: Text)
    requires AllSolid(t)
    ensures Strip(t + s) == t + Strip(s)
    ensures Closed(t + s) <==> Closed(s)
    decreases |t|
  {
    hide Strip, Closed;
    if t == [] {
      assert t + s == s && t + Strip(s) == Strip(s);
    } else {
      assert t + s == [t[0]] + (t[1..] + s);
      StripOne(t[0], t[1..] + s);
      StripSolid(t[1..], s);
      assert t + Strip(s) == [t[0]] + (t[1..] + Strip(s));
    }
  }

  lemma {:induction false} StripBlanks(t: Text, s: Text)
    requires forall i :: 0 <= i < |t| ==> IsBlank(t[i])
    ensures Strip(t + s) == Strip(s)
    ensures Closed(t + s) <==> Closed(s)
    decreases |t|
  {
    hide Head, Strip, Closed;
    if t == [] {
      assert t + s == s;
    } else {
      HeadIs(t + s);
      StripUnfold(t + s);
      assert (t + s)[1..] == t[1..] + s;
      StripBlanks(t[1..], s);
    }
  }

  /** A literal is kept as it is. */
  lemma StripLiteral(s: Text)
    requires s != [] && s[0] == QUOTE && ScanEnd(s[1..]).Some?
    ensures var n := ScanEnd(s[1..]).value + 2;
      Strip(s) == s[..n] + Strip(s[n..]) && (Closed(s) <==> Closed(s[n..]))
  {
    hide Head, Strip, Closed, ScanEnd;
    HeadIs(s);
    StripUnfold(s);
  }

  lemma StripQuoted(k: Text, s: Text)
    ensures Strip(Quote(k) + s) == Quote(k) + Strip(s)
    ensures Closed(Quote(k) + s) <==> Closed(s)
  {
    hide EscapeAll, Strip, Closed;
    var t := Quote(k) + s;
    assert t[1..] == EscapeAll(k) + ([QUOTE] + s);
    ScanEndEscaped(k, [QUOTE] + s);
    StripLiteral(t);
    assert t[..|Quote(k)|] == Quote(k) && t[|Quote(k)|..] == s;
  }

  // ---------------------------------------------------------------- formatted becomes unformatted

  lemma StripMixed(t: Text, blanks: Text, s: Text)
    requires AllSolid(t) && forall i :: 0 <= i < |blanks| ==> IsBlank(blanks[i])
    ensures Strip((t + blanks) + s) == t + Strip(s)
    ensures Closed((t + blanks) + s) <==> Closed(s)
  {
    hide Strip, Closed;
    assert (t + blanks) + s == t + (blanks + s);
    StripSolid(t, blanks + s);
    StripBlanks(blanks, s);
  }

  /** The formatted text of a value, minified, is its unformatted text. */
  lemma {:induction false} StripValue(j: Json, n: NumberFormat, depth: nat, tail: Text)
    requires Printable(j)
    ensures Strip(Render(j, Format(true, n), depth) + tail) == Render(j, Format(false, n), depth) + Strip(tail)
    ensures Closed(Render(j, Format(true, n), depth) + tail) <==> Closed(tail)
    decreases j
  {
    hide Strip, Closed, Render;
    match j
    case Array(items) => StripArray(items, n, depth, tail);
    case Object(members) => StripObject(members, n, depth, tail);
    case String(s) =>
      StringShape(s, Format(true, n), depth);
      StringShape(s, Format(false, n), depth);
      StripQuoted(s, tail);
    case _ =>
      SolidScalar(j, n, depth);
      StripSolid(Render(j, Format(true, n), depth), tail);
  }

  lemma StringShape(s: Text, fmt: Format, depth: nat)
    ensures Render(String(s), fmt, depth) == Quote(s)
  {
    hide Quote;
  }

  lemma SolidScalar(j: Json, n: NumberFormat, depth: nat)
    requires j.Null? || j.False? || j.True? || j.Number?
    ensures Render(j, Format(true, n), depth) == Render(j, Format(false, n), depth)
    ensures AllSolid(Render(j, Format(true, n), depth))
  {
  }

  lemma {:induction false} StripArray(items: Items, n: NumberFormat, depth: nat, tail: Text)
    requires PrintableItems(items)
    ensures Strip(Render(Array(items), Format(true, n), depth) + tail)
         == Render(Array(items), Format(false, n), depth) + Strip(tail)
    ensures Closed(Render(Array(items), Format(true, n), depth) + tail) <==> Closed(tail)
    decreases items, 1
  {
    hide Strip, Closed, RenderItems, PrintableItems;
    var inner := RenderItems(items, Format(true, n), depth + 1);
    assert Render(Array(items), Format(true, n), depth) + tail == [LBRACKET] + (inner + ([RBRACKET] + tail));
    StripSolid([LBRACKET], inner + ([RBRACKET] + tail));
    StripItems(items, n, depth + 1, [RBRACKET] + tail);
    StripSolid([RBRACKET], tail);
  }

  lemma {:induction false} StripItems(items: Items, n: NumberFormat, depth: nat, tail: Text)
    requires PrintableItems(items)
    ensures Strip(RenderItems(items, Format(true, n), depth) + tail)
         == RenderItems(items, Format(false, n), depth) + Strip(tail)
    ensures Closed(RenderItems(items, Format(true, n), depth) + tail) <==> Closed(tail)
    decreases items, 0
  {
    hide Strip, Closed, Render, Printable;
    match items
    case INil =>
      assert [] + tail == tail && [] + Strip(tail) == Strip(tail);
    case ICons(j, rest) =>
      var next := RenderItems(rest, Format(true, n), depth) + tail;
      ItemsShape(items, Format(true, n), depth, tail);
      StripValue(j, n, depth, When(rest.ICons?, Separator(Format(true, n))) + next);
      if rest.ICons? {
        StripMixed([COMMA], [SPACE], next);
      } else {
        assert When(rest.ICons?, Separator(Format(true, n))) + next == next;
      }
      StripItems(rest, n, depth, tail);
      ItemsShape(items, Format(false, n), depth, Strip(tail));
  }

  lemma {:induction false} StripObject(members: Members, n: NumberFormat, depth: nat, tail: Text)
    requires PrintableMembers(members)
    ensures Strip(Render(Object(members), Format(true, n), depth) + tail)
         == Render(Object(members), Format(false, n), depth) + Strip(tail)
    ensures Closed(Render(Object(members), Format(true, n), depth) + tail) <==> Closed(tail)
    decreases members, 1
  {
    hide Strip, Closed, Render, RenderMembers, PrintableMembers;
    var close := When(true, Tabs(depth)) + ([RBRACE] + tail);
    ObjectShape(members, Format(true, n), depth, tail);
    StripMixed([LBRACE], [LF], RenderMembers(members, Format(true, n), depth + 1) + close);
    StripMembers(members, n, depth + 1, close);
    StripBlanks(Tabs(depth), [RBRACE] + tail);
    StripSolid([RBRACE], tail);
    ObjectShape(members, Format(false, n), depth, Strip(tail));
    assert When(false, Tabs(depth)) + ([RBRACE] + Strip(tail)) == [RBRACE] + Strip(tail);
  }

  lemma ObjectShape(members: Members, fmt: Format, depth: nat, tail: Text)
    ensures Render(Object(members), fmt, depth) + tail
         == OpenBrace(fmt) + (RenderMembers(members, fmt, depth + 1) + (When(fmt.pretty, Tabs(depth)) + ([RBRACE] + tail)))
  {
    hide RenderMembers, OpenBrace, Tabs;
  }

  lemma {:induction false} StripMembers(members: Members, n: NumberFormat, depth: nat, tail: Text)
    requires PrintableMembers(members)
    ensures Strip(RenderMembers(members, Format(true, n), depth) + tail)
         == RenderMembers(members, Format(false, n), depth) + Strip(tail)
    ensures Closed(RenderMembers(members, Format(true, n), depth) + tail) <==> Closed(tail)
    decreases members, 0
  {
    hide Strip, Closed, Render, Printable, Quote;
    match members
    case MNil =>
      assert [] + tail == tail && [] + Strip(tail) == Strip(tail);
    case MCons(k, j, rest) =>
      hide RenderMembers, When;
      var comma := When(rest.MCons?, [COMMA]);
      var next := RenderMembers(rest, Format(true, n), depth) + tail;
      var more := (comma + [LF]) + next;
      var value := Render(j, Format(true, n), depth) + more;
      FormattedMembers(members, n, depth, tail);
      StripBlanks(Tabs(depth), Quote(k) + (([COLON] + [TAB]) + value));
      StripQuoted(k, ([COLON] + [TAB]) + value);
      StripMixed([COLON], [TAB], value);
      StripValue(j, n, depth, more);
      SolidComma(rest.MCons?);
      StripMixed(comma, [LF], next);
      StripMembers(rest, n, depth, tail);
      PlainMembers(members, n, depth, Strip(tail));
  }

  lemma SolidComma(more: bool)
    ensures AllSolid(When(more, [COMMA]))
  {
  }

  lemma FormattedMembers(members: Members, n: NumberFormat, depth: nat, tail: Text)
    requires members.MCons?
    ensures RenderMembers(members, Format(true, n), depth) + tail
         == Tabs(depth) + (Quote(members.key) + (([COLON] + [TAB]) + (Render(members.value, Format(true, n), depth)
            + ((When(members.rest.MCons?, [COMMA]) + [LF]) + (RenderMembers(members.rest, Format(true, n), depth) + tail)))))
  {
    hide *;
    MembersShape(members, Format(true, n), depth, tail);
    FormattedTokens(members.rest.MCons?, n, depth);
  }

  lemma PlainMembers(members: Members, n: NumberFormat, depth: nat, tail: Text)
    requires members.MCons?
    ensures RenderMembers(members, Format(false, n), depth) + tail
         == Quote(members.key) + ([COLON] + (Render(members.value, Format(false, n), depth)
            + (When(members.rest.MCons?, [COMMA]) + (RenderMembers(members.rest, Format(false, n), depth) + tail))))
  {
    hide *;
    MembersShape(members, Format(false, n), depth, tail);
    PlainTokens(members.rest.MCons?, n, depth);
    NothingBefore(Quote(members.key) + ([COLON] + (Render(members.value, Format(false, n), depth)
      + (When(members.rest.MCons?, [COMMA]) + (RenderMembers(members.rest, Format(false, n), depth) + tail)))));
  }

  lemma FormattedTokens(more: bool, n: NumberFormat, depth: nat)
    ensures var f := Format(true, n);
      When(true, Tabs(depth)) == Tabs(depth) && Colon(f) == [COLON] + [TAB] && Comma(more, f) == When(more, [COMMA]) + [LF]
  {
    hide Tabs;
  }

  lemma PlainTokens(more: bool, n: NumberFormat, depth: nat)
    ensures var f := Format(false, n);
      When(false, Tabs(depth)) == [] && Colon(f) == [COLON] && Comma(more, f) == When(more, [COMMA])
  {
    hide Tabs;
  }

  lemma NothingBefore(t: Text)
    ensures [] + t == t
  {
  }

  lemma Regroup5(a: Text, b: Text, c: Text, d: Text, e: Text, t: Text)
    ensures a + b + c + d + e + t == a + (b + (c + (d + (e + t))))
  {
    assert a + b + c + d + e + t == a + b + c + d + (e + t);
    assert a + b + c + d + (e + t) == a + b + c + (d + (e + t));
    assert a + b + c + (d + (e + t)) == a + b + (c + (d + (e + t)));
  }

  lemma MembersShape(members: Members, fmt: Format, depth: nat, tail: Text)
    requires members.MCons?
    ensures RenderMembers(members, fmt, depth) + tail
         == When(fmt.pretty, Tabs(depth)) + (Quote(members.key) + (Colon(fmt) + (Render(members.value, fmt, depth)
            + (Comma(members.rest.MCons?, fmt) + (RenderMembers(members.rest, fmt, depth) + tail)))))
  {
    hide Render, Quote, Tabs, When, Colon, Comma;
    Regroup5(When(fmt.pretty, Tabs(depth)), Quote(members.key), Colon(fmt), Render(members.value, fmt, depth),
      Comma(members.rest.MCons?, fmt), RenderMembers(members.rest, fmt, depth) + tail);
    Regroup3(When(fmt.pretty, Tabs(depth)) + Quote(members.key) + Colon(fmt) + Render(members.value, fmt, depth)
      + Comma(members.rest.MCons?, fmt), RenderMembers(members.rest, fmt, depth), tail);
  }

  /** cJSON_Minify on cJSON_Print gives cJSON_PrintUnformatted, byte for byte. */
  lemma MinifyCommutesWithPrint(j: Json, n: NumberFormat)
    requires Printable(j)
    ensures Closed(Render(j, Format(true, n), 0) + [NUL])
    ensures Strip(Render(j, Format(true, n), 0) + [NUL]) == Render(j, Format(false, n), 0) + [NUL]
  {
    StripValue(j, n, 0, [NUL]);
  }

  // ---------------------------------------------------------------- what the parser sees

  lemma TerminatedSuffix(s: Text, n: nat)
    requires Terminated(s) && n < |s|
    ensures Terminated(s[n..])
    ensures s[n] == NUL ==> n == |s| - 1
  {
    assert s[n..][..|s| - n - 1] == s[..|s| - 1][n..];
    if n < |s| - 1 {
      NotNul(s, n);
    }
  }

  /** Characters a value, a name or a delimiter can start with keep their place. */
  lemma StripHead(s: Text)
    requires s != [] && s[0] > 32 && s[0] != SLASH
    ensures Strip(s) != [] && Strip(s)[0] == s[0]
  {
    hide LineEnd, BlockEnd, ScanEnd;
  }

  lemma SkipWsStep(s: Text)
    requires |s| > 1 && s[0] <= 32
    ensures SkipWs(s) == SkipWs(s[1..])
  {
  }

  /** One blank or control character, with what follows stripped already. */
  lemma StripLow(s: Text)
    requires |s| > 1 && s[0] <= 32 && s[0] != NUL && Strip(s[1..]) != []
    ensures SkipWs(Strip(s)) == SkipWs(Strip(s[1..])) && (Closed(s) <==> Closed(s[1..]))
  {
    hide Head, Strip, Closed, SkipWs;
    HeadIs(s);
    StripUnfold(s);
    if !IsBlank(s[0]) {
      var t := s[..1] + Strip(s[1..]);
      SkipWsStep(t);
      assert t[1..] == Strip(s[1..]);
    }
  }

  /** Skipping white space and stripping commute, if no comment comes next. */
  lemma {:induction false} SkipStrip(s: Text)
    requires Terminated(s) && SkipWs(s)[0] != SLASH
    ensures SkipWs(Strip(s)) == Strip(SkipWs(s))
    ensures Terminated(SkipWs(s)) && (Closed(s) <==> Closed(SkipWs(s)))
    decreases |s|
  {
    hide Head, Strip, Closed, SkipWs, CString;
    if |s| > 1 && s[0] <= 32 {
      TerminatedSuffix(s, 1);
      TerminatedSuffix(s, 0);
      SkipWsStep(s);
      SkipStrip(s[1..]);
      StripNonEmpty(s[1..]);
      StripLow(s);
    } else if s[0] <= 32 {
      LoneTerminator(s);
    } else {
      SkipWsNone(s);
      StripHead(s);
      SkipWsNone(Strip(s));
    }
  }

  lemma LoneTerminator(s: Text)
    requires |s| == 1 && Terminated(s)
    ensures Strip(s) == s && SkipWs(s) == s
  {
    hide LineEnd, BlockEnd, ScanEnd;
  }

  lemma {:induction false} StripNonEmpty(s: Text)
    requires s != [] && s[|s| - 1] == NUL
    ensures Strip(s) != []
    decreases |s|
  {
    HeadInside(s);
    match Head(s)
    case Dropped(n) => StripNonEmpty(s[n..]);
    case _ =>
  }

  // ---------------------------------------------------------------- accepted text keeps its meaning

  /** After white space comes a character that can end a value. */
  predicate Delimited(s: Text) {
    s != [] && var c := SkipWs(s)[0]; c == COMMA || c == RBRACKET || c == RBRACE || c == NUL
  }

  /** s and its stripped form parse alike: the same value, and again the same text left, stripped. */
  ghost predicate Alike<T>(s: Text, r: Parsed<T>, stripped: Parsed<T>) {
    && r.Ok? && Terminated(r.rest)
    && stripped == Ok(r.value, Strip(r.rest))
    && (Closed(s) <==> Closed(r.rest))
  }

  /** A token of solid characters followed by the rest. */
  lemma StripToken(s: Text, n: nat)
    requires Terminated(s) && n < |s| && AllSolid(s[..n])
    ensures Strip(s) == s[..n] + Strip(s[n..]) && (Closed(s) <==> Closed(s[n..]))
    ensures Terminated(s[n..])
  {
    hide Strip, Closed, Terminated;
    assert s == s[..n] + s[n..];
    StripSolid(s[..n], s[n..]);
    TerminatedSuffix(s, n);
  }

  /** A number that ends where a value may end has used up its window. */
  lemma NumberEnds(s: Text, n: nat)
    requires n <= |Window(s)| && Delimited(s[n..])
    ensures n == |Window(s)|
  {
    hide SkipWs;
    WindowIs(s, 63);
    if s[n] > 32 {
      SkipWsNone(s[n..]);
    }
    assert !IsNumberChar(s[n]);
  }

  lemma NumberAlike(s: Text)
    requires Terminated(s) && ParseNumber(s).Ok? && Delimited(ParseNumber(s).rest)
    ensures Alike(s, ParseNumber(s), ParseNumber(Strip(s)))
  {
    hide Strip, Closed, SkipWs, Strtod;
    var w := Window(s);
    var n := Strtod(w).length;
    var rest := s[n..];
    NumberEnds(s, n);
    WindowIs(s, 63);
    assert s[..n] == w;
    StripToken(s, n);
    StripDelimited(rest);
    WindowWhole(w, Strip(rest), 63);
    assert (w + Strip(rest))[n..] == Strip(rest);
  }

  lemma SkipWsTwice(s: Text)
    ensures SkipWs(SkipWs(s)) == SkipWs(s)
  {
  }

  lemma StripDelimited(s: Text)
    requires Terminated(s) && Delimited(s)
    ensures Strip(s) == [] || !IsNumberChar(Strip(s)[0])
  {
    hide Strip, Closed, Terminated;
    SkipStrip(s);
    var t := Strip(s);
    if t != [] && IsNumberChar(t[0]) {
      SkipWsNone(t);
      StripOfDelimiter(SkipWs(s));
    }
  }

  /** A delimiter is kept, and what follows it is stripped on its own. */
  lemma StripOfDelimiter(s: Text)
    requires s != [] && (s[0] == COMMA || s[0] == COLON || s[0] == RBRACKET || s[0] == RBRACE || s[0] == NUL)
    ensures Strip(s) != [] && Strip(s)[0] == s[0]
    ensures s[0] != NUL ==> Strip(s)[1..] == Strip(s[1..]) && (Closed(s) <==> Closed(s[1..]))
  {
    if s[0] != NUL {
      StripOne(s[0], s[1..]);
      assert s == [s[0]] + s[1..];
    }
  }

  lemma StringAlike(s: Text)
    requires Terminated(s) && ParseString(s).Ok?
    ensures Alike(s, ParseString(s), ParseString(Strip(s)))
  {
    hide Strip, Closed, Decode, ScanEnd, Terminated, ParseString, UpToNul;
    StringParsed(s);
    var body := s[1..];
    var n := ScanEnd(body).value + 1;
    var rest := body[n..];
    StripLiteral(s);
    LiteralParts(s, n);
    LiteralInside(s);
    ScanEndLocal(body, Strip(rest));
    ParseStringOf(body[..n], Strip(rest));
    ParseStringOf(body[..n], rest);
    Regroup3([QUOTE], body[..n], Strip(rest));
  }

  lemma StringParsed(s: Text)
    requires ParseString(s).Ok?
    ensures s != [] && s[0] == QUOTE && ScanEnd(s[1..]).Some?
  {
    hide ScanEnd, Decode;
  }

  lemma LiteralParts(s: Text, n: nat)
    requires n < |s|
    ensures s[..n + 1] == [s[0]] + s[1..][..n] && s[n + 1..] == s[1..][n..]
    ensures s[1..] == s[1..][..n] + s[1..][n..] && s == [s[0]] + (s[1..][..n] + s[1..][n..])
  {
  }

  lemma LiteralInside(s: Text)
    requires Terminated(s) && s[0] == QUOTE && ScanEnd(s[1..]).Some?
    ensures var n := ScanEnd(s[1..]).value + 2; n < |s| && Terminated(s[n..])
  {
    var n := ScanEnd(s[1..]).value + 2;
    assert s[n - 1] == QUOTE;
    TerminatedSuffix(s, n);
  }

  /** Parsing a literal whose end is known. */
  lemma ParseStringOf(body: Text, rest: Text)
    requires body != [] && ScanEnd(body + rest) == Some(|body| - 1)
    ensures ParseString([QUOTE] + (body + rest))
         == if Decode(body).Some? then Ok(UpToNul(Decode(body).value), rest) else Fail
  {
    hide Decode, ScanEnd, UpToNul;
    assert ([QUOTE] + (body + rest))[1..] == body + rest;
    assert (body + rest)[..|body|] == body && (body + rest)[|body|..] == rest;
  }

  /** Where a literal ends depends on nothing behind it. */
  lemma {:induction false} ScanEndLocal(s: Text, tail: Text)
    requires ScanEnd(s).Some?
    ensures ScanEnd(s[..ScanEnd(s).value + 1] + tail) == ScanEnd(s)
    decreases |s|
  {
    hide ScanEnd;
    ScanNothing();
    var e := ScanEnd(s).value;
    var t := s[..e + 1] + tail;
    if s[0] == QUOTE {
      ScanQuote(s);
      ScanQuote(t);
    } else {
      var n := if s[0] == BACKSLASH then 2 else 1;
      ScanUnfold(s);
      ScanUnfold(t);
      ScanEndLocal(s[n..], tail);
      Behind(s, e + 1, tail, n);
    }
  }

  lemma Behind(s: Text, e: nat, tail: Text, n: nat)
    requires n <= e <= |s|
    ensures (s[..e] + tail)[n..] == s[n..][..e - n] + tail
  {
  }

  lemma LiteralAlike(s: Text, lit: Text, j: Json)
    requires Terminated(s) && lit <= s && AllSolid(lit)
    requires lit != []
    ensures lit <= Strip(s) && Alike(s, Ok(j, s[|lit|..]), Ok(j, Strip(s)[|lit|..]))
  {
    hide Strip, Closed;
    var n := |lit|;
    assert s[n - 1] == lit[n - 1];
    StripToken(s, n);
    assert (s[..n] + Strip(s[n..]))[n..] == Strip(s[n..]);
  }

  /** How accepted values start. */
  lemma ValueHead(s: Text, depth: nat)
    requires ParseValue(s, depth).Ok?
    ensures s != [] && 32 < s[0] < 0x80 && s[0] != SLASH
  {
    assert NULL_TEXT[0] == 110 && FALSE_TEXT[0] == 102 && TRUE_TEXT[0] == 116;
  }

  lemma {:induction false} ValueAlike(s: Text, depth: nat)
    requires Terminated(s) && ParseValue(s, depth).Ok? && Delimited(ParseValue(s, depth).rest)
    ensures Alike(s, ParseValue(s, depth), ParseValue(Strip(s), depth))
    decreases |s|, 0
  {
    hide Strip, Closed, Terminated, SkipWs, ParseString, ParseNumber, ParseItems, ParseMembers;
    ValueHead(s, depth);
    StripHead(s);
    HeadDecides(s, Strip(s));
    if NULL_TEXT <= s {
      LiteralAlike(s, NULL_TEXT, Null);
    } else if FALSE_TEXT <= s {
      LiteralAlike(s, FALSE_TEXT, False);
    } else if TRUE_TEXT <= s {
      LiteralAlike(s, TRUE_TEXT, True);
    } else if s[0] == QUOTE {
      StringAlike(s);
    } else if s[0] == MINUS || IsDigit(s[0]) {
      NumberAlike(s);
    } else if s[0] == LBRACKET {
      ArrayAlike(s, depth);
    } else {
      ObjectAlike(s, depth);
    }
  }

  /** Unless both start the same literal, texts with the same first character are dispatched alike. */
  lemma HeadDecides(s: Text, t: Text)
    requires s != [] && t != [] && s[0] == t[0]
    ensures NULL_TEXT <= s ==> !(FALSE_TEXT <= t) && !(TRUE_TEXT <= t)
    ensures FALSE_TEXT <= s ==> !(NULL_TEXT <= t) && !(TRUE_TEXT <= t)
    ensures TRUE_TEXT <= s ==> !(NULL_TEXT <= t) && !(FALSE_TEXT <= t)
    ensures s[0] != 110 && s[0] != 102 && s[0] != 116 ==> !(NULL_TEXT <= t) && !(FALSE_TEXT <= t) && !(TRUE_TEXT <= t)
  {
    assert NULL_TEXT[0] == 110 && FALSE_TEXT[0] == 102 && TRUE_TEXT[0] == 116;
  }

  lemma {:induction false} ArrayAlike(s: Text, depth: nat)
    requires Terminated(s) && s[0] == LBRACKET && ParseArray(s, depth).Ok?
    ensures Strip(s) != [] && Alike(s, ParseArray(s, depth), ParseArray(Strip(s), depth))
    decreases |s| - 1, 2
  {
    hide Strip, Closed, Terminated, SkipWs, ParseItems;
    OpensBody(s);
    var body := s[1..];
    var t := SkipWs(body);
    if t[0] == RBRACKET {
      SkipStrip(body);
      StripOfDelimiter(t);
      EndsInside(t);
    } else {
      SkipWsTwice(body);
      ItemsHead(t, depth + 1);
      SkipStrip(body);
      StripHead(t);
      ItemsAlike(t, depth + 1);
    }
  }

  /** A bracket or brace is kept and its body is terminated. */
  lemma OpensBody(s: Text)
    requires Terminated(s) && (s[0] == LBRACKET || s[0] == LBRACE)
    ensures Terminated(s[1..]) && Strip(s) != [] && Strip(s)[1..] == Strip(s[1..]) && (Closed(s) <==> Closed(s[1..]))
  {
    TerminatedSuffix(s, 0);
    TerminatedSuffix(s, 1);
    StripOne(s[0], s[1..]);
    assert s == [s[0]] + s[1..];
  }

  /** A delimiter other than the terminator leaves a terminated text behind it. */
  lemma EndsInside(s: Text)
    requires Terminated(s) && s[0] != NUL
    ensures Terminated(s[1..])
  {
    assert |s| > 1;
    TerminatedSuffix(s, 1);
  }

  lemma ItemsHead(s: Text, depth: nat)
    requires ParseItems(s, depth).Ok?
    ensures ParseValue(SkipWs(s), depth).Ok?
    ensures SkipWs(s) != [] && 32 < SkipWs(s)[0] < 0x80 && SkipWs(s)[0] != SLASH
  {
    hide ParseValue, SkipWs;
    ValueHead(SkipWs(s), depth);
  }

  lemma {:induction false} ItemsAlike(s: Text, depth: nat)
    requires Terminated(s) && ParseItems(s, depth).Ok?
    ensures Alike(s, ParseItems(s, depth), ParseItems(Strip(s), depth))
    decreases |s|, 1
  {
    hide Strip, Closed, Terminated, SkipWs, ParseValue;
    ItemsHead(s, depth);
    SkipStrip(s);
    var v := ParseValue(SkipWs(s), depth);
    var t := SkipWs(v.rest);
    ValueAlike(SkipWs(s), depth);
    SkipStrip(v.rest);
    StripOfDelimiter(t);
    EndsInside(t);
    if t[0] == COMMA {
      ItemsAlike(t[1..], depth);
    }
  }

  lemma {:induction false} ObjectAlike(s: Text, depth: nat)
    requires Terminated(s) && s[0] == LBRACE && ParseObject(s, depth).Ok?
    ensures Strip(s) != [] && Alike(s, ParseObject(s, depth), ParseObject(Strip(s), depth))
    decreases |s| - 1, 2
  {
    hide Strip, Closed, Terminated, SkipWs, ParseMembers;
    OpensBody(s);
    var body := s[1..];
    var t := SkipWs(body);
    if t[0] == RBRACE {
      SkipStrip(body);
      StripOfDelimiter(t);
      EndsInside(t);
    } else {
      SkipWsTwice(body);
      MembersHead(t, depth + 1);
      SkipStrip(body);
      StripHead(t);
      MembersAlike(t, depth + 1);
    }
  }

  lemma MembersHead(s: Text, depth: nat)
    requires ParseMembers(s, depth).Ok?
    ensures ParseName(s).Ok? && SkipWs(s) != [] && SkipWs(s)[0] == QUOTE
  {
  }

  lemma NameAlike(s: Text)
    requires Terminated(s) && ParseName(s).Ok?
    requires ParseName(s).rest != [] && ParseName(s).rest[0] > 32 && ParseName(s).rest[0] != SLASH
    ensures Alike(s, ParseName(s), ParseName(Strip(s)))
  {
    hide Strip, Closed, Terminated, SkipWs, ParseString;
    NameHead(s);
    SkipStrip(s);
    var k := ParseString(SkipWs(s));
    var t := SkipWs(k.rest);
    StringAlike(SkipWs(s));
    SkipStrip(k.rest);
    StripOfDelimiter(t);
    EndsInside(t);
    SkipStrip(t[1..]);
  }

  lemma NameHead(s: Text)
    requires ParseName(s).Ok?
    ensures SkipWs(s) != [] && SkipWs(s)[0] == QUOTE
  {
  }

  lemma {:induction false} MembersAlike(s: Text, depth: nat)
    requires Terminated(s) && ParseMembers(s, depth).Ok?
    ensures Alike(s, ParseMembers(s, depth), ParseMembers(Strip(s), depth))
    decreases |s|, 1
  {
    hide Strip, Closed, Terminated, SkipWs, ParseValue, ParseName;
    var k := ParseName(s);
    ValueHead(k.rest, depth);
    NameAlike(s);
    var v := ParseValue(k.rest, depth);
    var t := SkipWs(v.rest);
    ValueAlike(k.rest, depth);
    SkipStrip(v.rest);
    StripOfDelimiter(t);
    EndsInside(t);
    if t[0] == COMMA {
      MembersAlike(t[1..], depth);
    }
  }

  // ---------------------------------------------------------------- the theorem

  lemma {:induction false} StripTerminated(s: Text)
    requires Terminated(s) && Closed(s)
    ensures Terminated(Strip(s))
    decreases |s|
  {
    hide Terminated;
    LastIsNul(s);
    HeadInside(s);
    match Head(s)
    case End => TerminatedSuffix(s, 0);
    case Dropped(n) =>
      TerminatedSuffix(s, n);
      StripTerminated(s[n..]);
    case Kept(n) =>
      TerminatedSuffix(s, n);
      StripTerminated(s[n..]);
      PrefixTerminated(s, n, Strip(s[n..]));
  }

  lemma PrefixTerminated(s: Text, n: nat, t: Text)
    requires Terminated(s) && n < |s| && Terminated(t)
    ensures Terminated(s[..n] + t)
  {
    assert (s[..n] + t)[..n + |t| - 1] == s[..n] + t[..|t| - 1];
    assert s[..n] == s[..|s| - 1][..n];
  }

  /** A byte order mark is kept in front of what is stripped behind it. */
  lemma BomKept(s: Text, b: Text)
    requires Terminated(s) && s == BOM + b && |b| > 1
    requires SkipWs(b)[0] > 32 && SkipWs(b)[0] != SLASH && |SkipWs(b)| > 1
    ensures Terminated(b) && SkipBom(Strip(s)) == Strip(b) && (Closed(s) <==> Closed(b))
  {
    hide Strip, Closed, Terminated, SkipWs;
    TerminatedSuffix(s, 3);
    assert s[3..] == b;
    StripSolid(BOM, b);
    SkipStrip(b);
    TwoLeft(b);
    assert (BOM + Strip(b))[3..] == Strip(b) && (BOM + Strip(b))[..3] == BOM;
  }

  /** Without a mark none appears. */
  lemma NoBomAppears(s: Text)
    requires Terminated(s) && 32 < SkipWs(s)[0] < 0x80 && SkipWs(s)[0] != SLASH
    ensures SkipBom(Strip(s)) == Strip(s)
  {
    hide Strip, Closed, CString, SkipWs;
    SkipStrip(s);
    StripHead(SkipWs(s));
    var t := Strip(s);
    if t != [] && t[0] > 32 {
      SkipWsNone(t);
    }
    assert BOM[0] == 0xEF;
  }

  /** Behind the mark, or at the start without one. */
  lemma BomAlike(s: Text)
    requires Terminated(s) && ParseValue(SkipWs(SkipBom(s)), 0).Ok?
    ensures Terminated(SkipBom(s)) && SkipBom(Strip(s)) == Strip(SkipBom(s))
    ensures Closed(s) <==> Closed(SkipBom(s))
  {
    hide Strip, Closed, Terminated, SkipWs, ParseValue;
    var b := SkipBom(s);
    ValueHead(SkipWs(b), 0);
    if b != s {
      assert s == BOM + b;
      ValueLeft(s, b);
      BomKept(s, b);
    } else {
      NoBomAppears(s);
    }
  }

  /** Besides its terminator the text holds at least the value. */
  lemma ValueLeft(s: Text, b: Text)
    requires Terminated(s) && s == BOM + b && b != [] && SkipWs(b)[0] > 32
    ensures |b| > 1 && |SkipWs(b)| > 1
  {
    TerminatedSuffix(s, 3);
    assert s[3..] == b;
    LastSkipped(b);
  }

  lemma {:induction false} LastSkipped(s: Text)
    requires s != []
    ensures SkipWs(s) != [] && SkipWs(s)[|SkipWs(s)| - 1] == s[|s| - 1]
    decreases |s|
  {
    if |s| > 1 && s[0] <= 32 {
      LastSkipped(s[1..]);
    }
  }

  /** Stripping leaves the value and the terminator. */
  lemma TwoLeft(b: Text)
    requires Terminated(b) && SkipWs(b)[0] > 32 && SkipWs(b)[0] != SLASH && |SkipWs(b)| > 1
    ensures |Strip(b)| > 1
  {
    hide Strip, Terminated;
    var a := SkipWs(b);
    SkipStrip(b);
    StripAtLeastTwo(a);
  }

  lemma StripAtLeastTwo(a: Text)
    requires Terminated(a) && |a| > 1 && a[0] > 32 && a[0] != SLASH
    ensures |Strip(a)| > 1
  {
    hide Terminated;
    LastIsNul(a);
    HeadInside(a);
    match Head(a)
    case Kept(n) => StripNonEmpty(a[n..]);
    case Runaway =>
  }

  lemma LastIsNul(a: Text)
    requires Terminated(a)
    ensures a != [] && a[|a| - 1] == NUL
  {
  }

  /**
   Every text the parser accepts up to its terminator is accepted after minifying as well, with
   the same tree. In particular it leaves no comment or string open.
   */
  lemma MinifyKeepsMeaning(text: Text) returns (small: Text)
    requires CString(text) && Parse(text, true).Ok?
    ensures Closed(text + [NUL])
    ensures CString(small) && Strip(text + [NUL]) == small + [NUL]
    ensures Parse(small, true) == Parse(text, true)
  {
    hide Strip, Closed, SkipWs, ParseValue, SkipBom;
    var s := text + [NUL];
    assert s[..|s| - 1] == text;
    var b := SkipBom(s);
    BomAlike(s);
    var a := SkipWs(b);
    ValueHead(a, 0);
    SkipStrip(b);
    var v := ParseValue(a, 0);
    var t := SkipWs(v.rest);
    ValueAlike(a, 0);
    SkipStrip(v.rest);
    TerminatedSuffix(t, 0);
    assert t == [NUL];
    StripEnd();
    StripTerminated(s);
    small := Strip(s)[..|Strip(s)| - 1];
  }

  lemma StripEnd()
    ensures Strip([NUL]) == [NUL] && Closed([NUL])
  {
  }
}

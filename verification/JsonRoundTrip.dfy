/**
 Printing and parsing undo each other: a printed text is a text of the grammar, so the parser reads
 it as what it denotes.
 */
module JsonRoundTrip {
  import opened Bytes
  import opened Json
  import opened JsonNumber
  import opened JsonString
  import opened JsonText
  import opened JsonParse
  import opened JsonAccepts
  import G = JsonGrammar
  import Utf8

  // ---------------------------------------------------------------- printed strings

  function Printed(c: byte): G.Character {
    if ShortEscape(c).Some? then G.Short(ShortEscape(c).value)
    else if c < 32 then G.Unit(G.Code(Lower(0), Lower(0), Lower(c / 16), Lower(c % 16)))
    else G.Plain(c)
  }

  function Lower(d: G.Nibble): G.Digit {
    G.Digit(d, false)
  }

  function PrintedAll(s: Text): seq<G.Character> {
    if s == [] then [] else [Printed(s[0])] + PrintedAll(s[1..])
  }

  lemma PrintedCharacter(c: byte)
    ensures G.IsCharacter(Printed(c), true) && G.IsCharacter(Printed(c), false) && !Printed(c).Closing?
    ensures G.CharacterText(Printed(c)) == EscapeChar(c) && G.CharacterBytes(Printed(c)) == [c]
  {
    hide G.CodeUnit, HexChar, G.DigitText, Utf8.Encode;
    if ShortEscape(c).None? && c < 32 {
      LowerCode(c);
    } else {
      LetterBack(c);
    }
  }

  /** Four lower-case digits of a control character. */
  lemma LowerCode(c: byte)
    requires c < 32
    ensures var e := G.Code(Lower(0), Lower(0), Lower(c / 16), Lower(c % 16));
      && G.CodeUnit(e) == c && Utf8.Encode(c) == [c]
      && G.EscapeText(e) == [BACKSLASH, Utf8.LOWER_U, ZERO, ZERO, HexChar(c / 16), HexChar(c % 16)]
  {
  }

  /** The letter an escape is printed with is read as the byte. */
  lemma LetterBack(c: byte)
    ensures var short := ShortEscape(c);
      short.Some? ==> short.value in G.SHORT_ESCAPES && G.SHORT_ESCAPES[short.value] == c
  {
  }

  lemma {:induction false} PrintedString(s: Text)
    ensures G.EachCharacter(PrintedAll(s), true) && G.EachCharacter(PrintedAll(s), false)
    ensures G.Body(PrintedAll(s)) == EscapeAll(s) && G.BodyBytes(PrintedAll(s)) == s
    decreases |s|
  {
    hide G.IsCharacter, G.CharacterText, G.CharacterBytes, EscapeChar, Printed;
    if s != [] {
      var chars := PrintedAll(s);
      PrintedCharacter(s[0]);
      PrintedString(s[1..]);
      assert chars[0] == Printed(s[0]) && chars[1..] == PrintedAll(s[1..]);
      assert s == [s[0]] + s[1..];
    }
  }

  lemma PrintedQuote(s: Text)
    ensures G.AreCharacters(PrintedAll(s), true) && G.AreCharacters(PrintedAll(s), false)
    ensures G.StringText(PrintedAll(s)) == Quote(s) && G.BodyBytes(PrintedAll(s)) == s
  {
    hide G.Body, G.BodyBytes, G.EachCharacter, G.Unclosed, PrintedAll, EscapeAll;
    PrintedString(s);
    StrictUnclosed(PrintedAll(s));
  }

  // ---------------------------------------------------------------- printed trees

  /** The syntax of a printed tree. */
  function Written(j: Json, fmt: Format, depth: nat): G.Syntax {
    match j
    case Null => G.NullValue
    case False => G.FalseValue
    case True => G.TrueValue
    case Number(v) => G.NumberValue(fmt.number(v))
    case String(s) => G.StringValue(PrintedAll(s))
    case Array(items) => G.ArrayValue(WrittenItems(items, fmt, depth + 1, []))
    case Object(members) =>
      G.ObjectValue(if members.MNil? then G.NoPairs(CloseWs(fmt, depth)) else WrittenPairs(members, fmt, depth + 1))
  }

  /** In front of every element but the first stands a blank. */
  function WrittenItems(items: Items, fmt: Format, depth: nat, before: Text): G.Elements {
    match items
    case INil => G.NoElements([])
    case ICons(j, rest) =>
      G.Element(before, Written(j, fmt, depth), [], WrittenItems(rest, fmt, depth, When(fmt.pretty, [SPACE])))
  }

  function OpenWs(fmt: Format, depth: nat): Text {
    When(fmt.pretty, [LF]) + When(fmt.pretty, Tabs(depth))
  }

  function CloseWs(fmt: Format, depth: nat): Text {
    When(fmt.pretty, [LF]) + When(fmt.pretty, Tabs(depth))
  }

  function WrittenPairs(members: Members, fmt: Format, depth: nat): G.Pairs
    requires depth > 0
  {
    match members
    case MNil => G.NoPairs([])
    case MCons(k, j, rest) =>
      G.NamedValue(
        G.Name(OpenWs(fmt, depth), PrintedAll(k), [], When(fmt.pretty, [TAB])),
        Written(j, fmt, depth),
        if rest.MNil? then CloseWs(fmt, depth - 1) else [],
        WrittenPairs(rest, fmt, depth))
  }

  /** The tree with every number as strtod reads what sprintf has made of it. */
  function Reread(j: Json, fmt: Format): Json {
    match j
    case Number(v) => Number(TokenValue(fmt.number(v)))
    case Array(items) => Array(RereadItems(items, fmt))
    case Object(members) => Object(RereadMembers(members, fmt))
    case _ => j
  }

  function RereadItems(items: Items, fmt: Format): Items {
    match items
    case INil => INil
    case ICons(j, rest) => ICons(Reread(j, fmt), RereadItems(rest, fmt))
  }

  function RereadMembers(members: Members, fmt: Format): Members {
    match members
    case MNil => MNil
    case MCons(k, j, rest) => MCons(k, Reread(j, fmt), RereadMembers(rest, fmt))
  }

  /** What is printed is a text of RFC 8259 with short numbers, and denotes the reread tree. */
  ghost predicate Denotes(t: G.Syntax, j: Json, fmt: Format) {
    G.Formed(t, true) && G.Formed(t, false) && G.ShortNumbers(t) && G.Denoted(t) == Reread(j, fmt)
  }

  lemma {:induction false} WrittenDenotes(j: Json, fmt: Format, depth: nat)
    requires Printable(j)
    ensures Denotes(Written(j, fmt, depth), j, fmt)
    decreases j, 1
  {
    hide WrittenItems, WrittenPairs, RereadItems, RereadMembers, G.FormedElements, G.FormedPairs, G.ShortElements,
      G.ShortPairs, G.DenotedElements, G.DenotedPairs, G.BodyBytes, PrintedAll, IsToken, TokenText, TokenValue, CloseWs;
    match j
    case Number(v) => NumberTokens(v, fmt);
    case String(s) => PrintedQuote(s);
    case Array(items) => ItemsDenote(items, fmt, depth + 1, []);
    case Object(members) =>
      if members.MCons? {
        PairsDenote(members, fmt, depth + 1);
      } else {
        NoPairsDenote(fmt, depth);
      }
    case _ =>
  }

  lemma NumberTokens(v: real, fmt: Format)
    ensures IsToken(fmt.number(v)) && IsNumeral(fmt.number(v)) && |TokenText(fmt.number(v))| <= G.WINDOW
  {
    TokenIsNumeral(fmt.number(v));
  }

  lemma NoPairsDenote(fmt: Format, depth: nat)
    ensures var p := G.NoPairs(CloseWs(fmt, depth));
      G.FormedPairs(p, true) && G.FormedPairs(p, false) && G.ShortPairs(p) && G.DenotedPairs(p) == RereadMembers(MNil, fmt)
  {
    WsIsWs(fmt, depth);
  }

  predicate AnyWs(ws: Text) {
    G.IsWs(ws, true) && G.IsWs(ws, false)
  }

  lemma WsIsWs(fmt: Format, depth: nat)
    ensures AnyWs(OpenWs(fmt, depth)) && AnyWs(CloseWs(fmt, depth))
    ensures AnyWs(When(fmt.pretty, [SPACE])) && AnyWs(When(fmt.pretty, [TAB])) && AnyWs([])
  {
  }

  lemma {:induction false} ItemsDenote(items: Items, fmt: Format, depth: nat, before: Text)
    requires PrintableItems(items) && AnyWs(before)
    ensures var e := WrittenItems(items, fmt, depth, before);
      && G.FormedElements(e, true) && G.FormedElements(e, false) && G.ShortElements(e)
      && G.DenotedElements(e) == RereadItems(items, fmt)
      && (e.NoElements? ==> e.ws == [])
    decreases items, 0
  {
    hide Written, G.Formed, G.ShortNumbers, G.Denoted, Reread, Printable;
    if items.ICons? {
      WsIsWs(fmt, depth);
      WrittenDenotes(items.head, fmt, depth);
      ItemsDenote(items.tail, fmt, depth, When(fmt.pretty, [SPACE]));
    }
  }

  lemma {:induction false} PairsDenote(members: Members, fmt: Format, depth: nat)
    requires PrintableMembers(members) && depth > 0
    ensures var p := WrittenPairs(members, fmt, depth);
      && G.FormedPairs(p, true) && G.FormedPairs(p, false) && G.ShortPairs(p)
      && G.DenotedPairs(p) == RereadMembers(members, fmt)
      && (p.NoPairs? ==> p.ws == [])
    decreases members, 0
  {
    hide Written, G.Formed, G.ShortNumbers, G.Denoted, Reread, Printable, G.BodyBytes, PrintedAll, OpenWs, CloseWs,
      G.EachCharacter, G.Unclosed;
    if members.MCons? {
      WsIsWs(fmt, depth);
      WsIsWs(fmt, depth - 1);
      PrintedQuote(members.key);
      WrittenDenotes(members.value, fmt, depth);
      PairsDenote(members.rest, fmt, depth);
    }
  }

  // ---------------------------------------------------------------- the text of the syntax

  /** The text of the syntax of a printed tree is what is printed. */
  lemma {:induction false} WrittenText(j: Json, fmt: Format, depth: nat)
    ensures G.SyntaxText(Written(j, fmt, depth)) == Render(j, fmt, depth)
    decreases j, 1
  {
    hide RenderItems, RenderMembers, G.ElementsText, G.PairsText, WrittenItems, WrittenPairs, G.StringText, Quote;
    match j
    case String(s) => PrintedQuote(s);
    case Array(items) =>
      ItemsText(items, fmt, depth + 1, []);
      Regroup3([LBRACKET], RenderItems(items, fmt, depth + 1), [RBRACKET]);
    case Object(members) => ObjectText(members, fmt, depth);
    case _ =>
  }

  lemma {:induction false} ItemsText(items: Items, fmt: Format, depth: nat, before: Text)
    ensures G.ElementsText(WrittenItems(items, fmt, depth, before))
         == (if items.INil? then [] else before) + (RenderItems(items, fmt, depth) + [RBRACKET])
    decreases items, 0
  {
    hide Written, Render, G.SyntaxText;
    if items.ICons? {
      var space := When(fmt.pretty, [SPACE]);
      WrittenText(items.head, fmt, depth);
      ItemsText(items.tail, fmt, depth, space);
      ItemsShape(items, fmt, depth, [RBRACKET]);
      var rest := RenderItems(items.tail, fmt, depth) + [RBRACKET];
      if items.tail.ICons? {
        assert [COMMA] + (space + rest) == Separator(fmt) + rest;
      } else {
        assert [] + ([] + rest) == rest;
      }
    }
  }

  lemma {:induction false} ObjectText(members: Members, fmt: Format, depth: nat)
    ensures G.SyntaxText(Written(Object(members), fmt, depth)) == Render(Object(members), fmt, depth)
    decreases members, 2
  {
    hide *;
    ObjectUnfold(members, fmt, depth);
    var lf, tabs := When(fmt.pretty, [LF]), When(fmt.pretty, Tabs(depth));
    if members.MNil? {
      BracesOnly(lf, tabs);
    } else {
      PairsText(members, fmt, depth + 1);
      BracesAround(lf, RenderMembers(members, fmt, depth + 1), CloseBrace(fmt, depth));
    }
  }

  lemma ObjectUnfold(members: Members, fmt: Format, depth: nat)
    ensures var lf, tabs := When(fmt.pretty, [LF]), When(fmt.pretty, Tabs(depth));
      && CloseBrace(fmt, depth) == tabs + [RBRACE]
      && Render(Object(members), fmt, depth)
         == ([LBRACE] + lf) + RenderMembers(members, fmt, depth + 1) + CloseBrace(fmt, depth)
      && G.SyntaxText(Written(Object(members), fmt, depth))
         == [LBRACE]
            + (if members.MNil? then (lf + tabs) + [RBRACE] else G.PairsText(WrittenPairs(members, fmt, depth + 1)))
      && (members.MNil? ==> RenderMembers(members, fmt, depth + 1) == [])
  {
    hide When, Tabs, WrittenPairs;
  }

  lemma BracesOnly(lf: Text, tabs: Text)
    ensures [LBRACE] + ((lf + tabs) + [RBRACE]) == ([LBRACE] + lf) + [] + (tabs + [RBRACE])
  {
    Regroup3(lf, tabs, [RBRACE]);
    Regroup3([LBRACE], lf, tabs + [RBRACE]);
    assert ([LBRACE] + lf) + [] == [LBRACE] + lf;
  }

  lemma BracesAround(lf: Text, body: Text, close: Text)
    ensures [LBRACE] + (lf + (body + close)) == ([LBRACE] + lf) + body + close
  {
    Regroup3([LBRACE], lf, body + close);
    Regroup3([LBRACE] + lf, body, close);
  }

  lemma {:induction false} PairsText(members: Members, fmt: Format, depth: nat)
    requires members.MCons? && depth > 0
    ensures G.PairsText(WrittenPairs(members, fmt, depth))
         == When(fmt.pretty, [LF]) + (RenderMembers(members, fmt, depth) + CloseBrace(fmt, depth - 1))
    decreases members, 0
  {
    hide Written, Render, G.SyntaxText, When, PrintedAll, G.StringText, Quote;
    var k, j, rest := members.key, members.value, members.rest;
    var lf, tabs, tab, close := When(fmt.pretty, [LF]), When(fmt.pretty, Tabs(depth)), When(fmt.pretty, [TAB]), When(
      fmt.pretty, Tabs(depth - 1));
    WrittenText(j, fmt, depth);
    PrintedQuote(k);
    var q, v := Quote(k), Render(j, fmt, depth);
    if rest.MCons? {
      PairsText(rest, fmt, depth);
      var more := RenderMembers(rest, fmt, depth) + CloseBrace(fmt, depth - 1);
      NoComma(rest, fmt);
      Reorder(lf, tabs, q, tab, v, [COMMA], RenderMembers(rest, fmt, depth), CloseBrace(fmt, depth - 1));
    } else {
      NoComma(rest, fmt);
      ReorderLast(lf, tabs, q, tab, v, close);
    }
  }

  lemma NoComma(rest: Members, fmt: Format)
    ensures Comma(rest.MCons?, fmt) == (if rest.MCons? then [COMMA] else []) + When(fmt.pretty, [LF])
    ensures rest.MNil? ==> forall depth :: RenderMembers(rest, fmt, depth) == []
  {
  }

  lemma Reorder(lf: Text, tabs: Text, q: Text, tab: Text, v: Text, comma: Text, more: Text, close: Text)
    ensures ((lf + tabs) + (q + ([] + ([COLON] + tab)))) + (v + ([] + (comma + (lf + (more + close)))))
         == lf + ((tabs + q + ([COLON] + tab) + v + (comma + lf) + more) + close)
  {
  }

  lemma ReorderLast(lf: Text, tabs: Text, q: Text, tab: Text, v: Text, close: Text)
    ensures ((lf + tabs) + (q + ([] + ([COLON] + tab)))) + (v + ((lf + close) + ([] + ([] + [RBRACE]))))
         == lf + ((tabs + q + ([COLON] + tab) + v + ([] + lf) + []) + (close + [RBRACE]))
  {
  }

  // ---------------------------------------------------------------- the theorem

  /** Parsing a printed value gives the value back, its numbers reread, and stops right behind it. */
  lemma ValueBack(j: Json, fmt: Format, depth: nat, tail: Text, open: nat)
    requires Printable(j) && Follows(tail)
    requires open + Nesting(j) <= NESTING_LIMIT
    ensures ParseValue(Render(j, fmt, depth) + tail, open) == Ok(Reread(j, fmt), tail)
  {
    hide *;
    WrittenFits(j, fmt, depth, open);
    ValueRead(Written(j, fmt, depth), tail, open);
    ReadsMeans(Written(j, fmt, depth), tail, open, ParseValue(Render(j, fmt, depth) + tail, open));
  }

  lemma TooDeep(j: Json, fmt: Format, depth: nat, tail: Text, open: nat)
    requires Printable(j) && Follows(tail)
    requires Nesting(j) > 0 && open <= NESTING_LIMIT < open + Nesting(j)
    ensures ParseValue(Render(j, fmt, depth) + tail, open).Fail?
  {
    hide ParseValue, Render, Written, G.Fits, Reread, Nesting, Printable;
    WrittenFits(j, fmt, depth, open);
    ValueRead(Written(j, fmt, depth), tail, open);
    assert !Written(j, fmt, depth).NumberValue? by { DeepIsNoNumber(j, fmt, depth); }
  }

  lemma DeepIsNoNumber(j: Json, fmt: Format, depth: nat)
    requires Nesting(j) > 0
    ensures !Written(j, fmt, depth).NumberValue?
  {
  }

  lemma {:induction false} RereadNesting(j: Json, fmt: Format)
    ensures Nesting(Reread(j, fmt)) == Nesting(j)
    decreases j
  {
    match j
    case Array(items) => RereadItemsNesting(items, fmt);
    case Object(members) => RereadMembersNesting(members, fmt);
    case _ =>
  }

  lemma {:induction false} RereadItemsNesting(items: Items, fmt: Format)
    ensures ItemsNesting(RereadItems(items, fmt)) == ItemsNesting(items)
    decreases items
  {
    if items.ICons? {
      RereadNesting(items.head, fmt);
      RereadItemsNesting(items.tail, fmt);
    }
  }

  lemma {:induction false} RereadMembersNesting(members: Members, fmt: Format)
    ensures MembersNesting(RereadMembers(members, fmt)) == MembersNesting(members)
    decreases members
  {
    if members.MCons? {
      RereadNesting(members.value, fmt);
      RereadMembersNesting(members.rest, fmt);
    }
  }

  lemma WrittenFits(j: Json, fmt: Format, depth: nat, open: nat)
    requires Printable(j) && open <= NESTING_LIMIT
    ensures var t := Written(j, fmt, depth);
      && G.Formed(t, true) && G.Formed(t, false) && G.Denoted(t) == Reread(j, fmt)
      && G.SyntaxText(t) == Render(j, fmt, depth)
      && (G.Fits(t, open) <==> open + Nesting(j) <= NESTING_LIMIT)
  {
    hide Written, Render, Reread, Printable, Nesting, G.Formed, G.Denoted, G.SyntaxText, G.Fits, G.ShortNumbers;
    WrittenDenotes(j, fmt, depth);
    WrittenText(j, fmt, depth);
    RereadNesting(j, fmt);
    G.FitsMeans(Written(j, fmt, depth), open);
  }

  /**
   Either print of a tree is accepted if and only if the tree nests no deeper than the limit, and
   then gives the tree back, every number as strtod reads what sprintf has made of it.
   */
  lemma RoundTrip(j: Json, fmt: Format, requireNul: bool)
    requires Printable(j)
    ensures Parse(Render(j, fmt, 0), requireNul)
         == if Nesting(j) <= NESTING_LIMIT then Ok(Reread(j, fmt), [NUL]) else Fail
  {
    hide Render, ParseValue, Nesting, Written, G.SyntaxText, G.Formed, Printable, Reread;
    var text := Render(j, fmt, 0);
    WrittenFits(j, fmt, 0, 0);
    SyntaxStarts(Written(j, fmt, 0), [NUL]);
    NotBom(text + [NUL]);
    SkipWsNone(text + [NUL]);
    if Nesting(j) <= NESTING_LIMIT {
      ValueBack(j, fmt, 0, [NUL], 0);
    } else {
      TooDeep(j, fmt, 0, [NUL], 0);
    }
  }

  // ---------------------------------------------------------------- numbers that survive

  /** strtod reads every number of the tree back from what sprintf makes of it. */
  predicate Faithful(j: Json, fmt: Format) {
    match j
    case Number(v) => TokenValue(fmt.number(v)) == v
    case Array(items) => FaithfulItems(items, fmt)
    case Object(members) => FaithfulMembers(members, fmt)
    case _ => true
  }

  predicate FaithfulItems(items: Items, fmt: Format) {
    match items
    case INil => true
    case ICons(j, rest) => Faithful(j, fmt) && FaithfulItems(rest, fmt)
  }

  predicate FaithfulMembers(members: Members, fmt: Format) {
    match members
    case MNil => true
    case MCons(_, j, rest) => Faithful(j, fmt) && FaithfulMembers(rest, fmt)
  }

  lemma {:induction false} FaithfulReread(j: Json, fmt: Format)
    ensures Reread(j, fmt) == j <==> Faithful(j, fmt)
    decreases j
  {
    match j
    case Array(items) => FaithfulRereadItems(items, fmt);
    case Object(members) => FaithfulRereadMembers(members, fmt);
    case _ =>
  }

  lemma {:induction false} FaithfulRereadItems(items: Items, fmt: Format)
    ensures RereadItems(items, fmt) == items <==> FaithfulItems(items, fmt)
    decreases items
  {
    if items.ICons? {
      FaithfulReread(items.head, fmt);
      FaithfulRereadItems(items.tail, fmt);
    }
  }

  lemma {:induction false} FaithfulRereadMembers(members: Members, fmt: Format)
    ensures RereadMembers(members, fmt) == members <==> FaithfulMembers(members, fmt)
    decreases members
  {
    if members.MCons? {
      FaithfulReread(members.value, fmt);
      FaithfulRereadMembers(members.rest, fmt);
    }
  }

  /** A print gives exactly the tree back if and only if it does not nest too deeply and its numbers survive. */
  lemma RoundTripExactly(j: Json, fmt: Format, requireNul: bool)
    requires Printable(j)
    ensures Parse(Render(j, fmt, 0), requireNul) == Ok(j, [NUL]) <==> Nesting(j) <= NESTING_LIMIT && Faithful(j, fmt)
  {
    hide *;
    RoundTrip(j, fmt, requireNul);
    FaithfulReread(j, fmt);
  }

  /** Every number in the tree is an integer below 10^15. */
  predicate PlainNumbers(j: Json) {
    match j
    case Number(v) => IsPlainInteger(v)
    case Array(items) => PlainItems(items)
    case Object(members) => PlainMembers(members)
    case _ => true
  }

  predicate PlainItems(items: Items) {
    match items
    case INil => true
    case ICons(j, rest) => PlainNumbers(j) && PlainItems(rest)
  }

  predicate PlainMembers(members: Members) {
    match members
    case MNil => true
    case MCons(_, j, rest) => PlainNumbers(j) && PlainMembers(rest)
  }

  /** Plain integers survive, whatever else sprintf does. */
  lemma {:induction false} PlainIsFaithful(j: Json, fmt: Format)
    requires PlainNumbers(j)
    ensures Faithful(j, fmt)
    decreases j
  {
    match j
    case Number(v) => IntTokenText(v.Floor);
    case Array(items) => PlainItemsFaithful(items, fmt);
    case Object(members) => PlainMembersFaithful(members, fmt);
    case _ =>
  }

  lemma {:induction false} PlainItemsFaithful(items: Items, fmt: Format)
    requires PlainItems(items)
    ensures FaithfulItems(items, fmt)
    decreases items
  {
    if items.ICons? {
      PlainIsFaithful(items.head, fmt);
      PlainItemsFaithful(items.tail, fmt);
    }
  }

  lemma {:induction false} PlainMembersFaithful(members: Members, fmt: Format)
    requires PlainMembers(members)
    ensures FaithfulMembers(members, fmt)
    decreases members
  {
    if members.MCons? {
      PlainIsFaithful(members.value, fmt);
      PlainMembersFaithful(members.rest, fmt);
    }
  }

  // ---------------------------------------------------------------- the other way round

  /** What the parser builds is printable. */
  lemma {:induction false} ParsedPrintable(s: Text, depth: nat)
    requires ParseValue(s, depth).Ok?
    ensures Printable(ParseValue(s, depth).value)
    decreases |s|, 0
  {
    hide ParseString, Strtod, Window, SkipWs;
    var j := ParseValue(s, depth).value;
    if j.Array? {
      var t := SkipWs(s[1..]);
      if !(t != [] && t[0] == RBRACKET) {
        ParsedItemsPrintable(t, depth + 1);
      }
    } else if j.Object? {
      var t := SkipWs(s[1..]);
      if !(t != [] && t[0] == RBRACE) {
        ParsedMembersPrintable(t, depth + 1);
      }
    }
  }

  lemma {:induction false} ParsedItemsPrintable(s: Text, depth: nat)
    requires ParseItems(s, depth).Ok?
    ensures PrintableItems(ParseItems(s, depth).value)
    decreases |s|, 1
  {
    hide ParseValue, SkipWs, Printable;
    ParsedPrintable(SkipWs(s), depth);
    var t := SkipWs(ParseValue(SkipWs(s), depth).rest);
    if t[0] == COMMA {
      ParsedItemsPrintable(t[1..], depth);
    }
  }

  lemma {:induction false} ParsedMembersPrintable(s: Text, depth: nat)
    requires ParseMembers(s, depth).Ok?
    ensures PrintableMembers(ParseMembers(s, depth).value)
    decreases |s|, 1
  {
    hide ParseValue, ParseName, SkipWs, Printable, CString;
    var k := ParseName(s);
    ParsedPrintable(k.rest, depth);
    var t := SkipWs(ParseValue(k.rest, depth).rest);
    if t[0] == COMMA {
      ParsedMembersPrintable(t[1..], depth);
    }
  }

  /**
   Printing what was parsed loses nothing but what sprintf loses: for every accepted text, either
   print is accepted and parses to the same tree with its numbers reread.
   */
  lemma Reprint(text: Text, requireNul: bool, fmt: Format)
    requires Parse(text, requireNul).Ok?
    ensures var j := Parse(text, requireNul).value;
      && Parse(Render(j, fmt, 0), true) == Ok(Reread(j, fmt), [NUL])
      && (PlainNumbers(j) ==> Reread(j, fmt) == j)
  {
    hide Render, ParseValue, SkipWs, SkipBom, Nesting, Printable, PlainNumbers, Reread, Faithful;
    var s := SkipWs(SkipBom(text + [NUL]));
    var j := ParseValue(s, 0).value;
    ParsedPrintable(s, 0);
    ParsedNesting(s, 0);
    RoundTrip(j, fmt, true);
    FaithfulReread(j, fmt);
    if PlainNumbers(j) {
      PlainIsFaithful(j, fmt);
    }
  }
}

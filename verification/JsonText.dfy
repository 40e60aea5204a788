/** The text print_value produces for a tree, formatted or not, at a given depth. */
module JsonText {
  import opened Json
  import opened JsonNumber
  import opened JsonString

  /** What fits number_buffer. */
  const NUMBER_LIMIT := 25

  /** What sprintf can make of numbers: tokens that fit the buffer, plain integers in plain decimal form. */
  ghost predicate IsNumberFormat(f: real -> Token) {
    forall v ::
      IsToken(f(v)) && |TokenText(f(v))| <= NUMBER_LIMIT && (IsPlainInteger(v) ==> f(v) == IntToken(v.Floor))
  }

  function ShortToken(v: real): Token {
    IntToken(if IsPlainInteger(v) then v.Floor else 0)
  }

  lemma ShortTokens()
    ensures IsNumberFormat(ShortToken)
  {
    forall v: real
      ensures IsToken(ShortToken(v)) && |TokenText(ShortToken(v))| <= NUMBER_LIMIT
    {
      var n := if IsPlainInteger(v) then v.Floor else 0;
      IntTokenText(n);
      IntTokenFits(n);
    }
  }

  /** The sprintf of the C library, as print_number uses it. */
  type NumberFormat = f: real -> Token | IsNumberFormat(f) witness (ShortTokens(); ShortToken)

  /** Formatted or not, and how numbers are written. */
  datatype Format = Format(pretty: bool, number: NumberFormat)

  /** C strings throughout. */
  predicate Printable(j: Json) {
    match j
    case String(s) => CString(s)
    case Array(items) => PrintableItems(items)
    case Object(members) => PrintableMembers(members)
    case _ => true
  }

  predicate PrintableItems(items: Items) {
    match items
    case INil => true
    case ICons(j, rest) => Printable(j) && PrintableItems(rest)
  }

  predicate PrintableMembers(members: Members) {
    match members
    case MNil => true
    case MCons(k, j, rest) => CString(k) && Printable(j) && PrintableMembers(rest)
  }

  function Tabs(n: nat): (t: Text)
    ensures |t| == n && forall i :: 0 <= i < n ==> t[i] == TAB
  {
    seq(n, _ => TAB)
  }

  function When(b: bool, t: Text): Text {
    if b then t else []
  }

  function Separator(fmt: Format): Text {
    [COMMA] + When(fmt.pretty, [SPACE])
  }

  function NumberText(v: real, fmt: Format): (t: Text)
    ensures 0 < |t| <= NUMBER_LIMIT && (t[0] == MINUS || IsDigit(t[0]))
    ensures forall i :: 0 <= i < |t| ==> IsNumberChar(t[i])
  {
    TokenIsNumeral(fmt.number(v));
    TokenShape(fmt.number(v));
    TokenText(fmt.number(v))
  }

  function Render(j: Json, fmt: Format, depth: nat): (t: Text)
    ensures |t| > 0
  {
    match j
    case Null => NULL_TEXT
    case False => FALSE_TEXT
    case True => TRUE_TEXT
    case Number(v) => NumberText(v, fmt)
    case String(s) => Quote(s)
    case Array(items) => [LBRACKET] + RenderItems(items, fmt, depth + 1) + [RBRACKET]
    case Object(members) =>
      OpenBrace(fmt) + RenderMembers(members, fmt, depth + 1) + CloseBrace(fmt, depth)
  }

  function OpenBrace(fmt: Format): Text {
    [LBRACE] + When(fmt.pretty, [LF])
  }

  function CloseBrace(fmt: Format, depth: nat): Text {
    When(fmt.pretty, Tabs(depth)) + [RBRACE]
  }

  function RenderItems(items: Items, fmt: Format, depth: nat): Text {
    match items
    case INil => []
    case ICons(j, rest) =>
      Render(j, fmt, depth) + When(rest.ICons?, Separator(fmt)) + RenderItems(rest, fmt, depth)
  }

  function Colon(fmt: Format): Text {
    [COLON] + When(fmt.pretty, [TAB])
  }

  /** What follows the value of a member. */
  function Comma(more: bool, fmt: Format): Text {
    When(more, [COMMA]) + When(fmt.pretty, [LF])
  }

  function RenderMembers(members: Members, fmt: Format, depth: nat): Text {
    match members
    case MNil => []
    case MCons(k, j, rest) =>
      When(fmt.pretty, Tabs(depth)) + Quote(k) + Colon(fmt) + Render(j, fmt, depth) + Comma(rest.MCons?, fmt)
      + RenderMembers(rest, fmt, depth)
  }

  /** A printed element list, cut behind its first element. */
  lemma ItemsShape(items: Items, fmt: Format, depth: nat, tail: Text)
    requires items.ICons?
    ensures var more := RenderItems(items.tail, fmt, depth) + tail;
      RenderItems(items, fmt, depth) + tail
      == Render(items.head, fmt, depth) + (When(items.tail.ICons?, Separator(fmt)) + more)
  {
    hide Render, Separator;
  }

  // ---------------------------------------------------------------- no zero bytes

  lemma CStringConcat(s: Text, t: Text)
    requires CString(s) && CString(t)
    ensures CString(s + t)
  {
  }

  lemma {:induction false} EscapeAllCString(s: Text)
    requires CString(s)
    ensures CString(EscapeAll(s))
  {
    if s != [] {
      EscapeAllCString(s[1..]);
      assert CString(EscapeChar(s[0]));
      CStringConcat(EscapeChar(s[0]), EscapeAll(s[1..]));
    }
  }

  lemma QuoteCString(s: Text)
    requires CString(s)
    ensures CString(Quote(s))
  {
    EscapeAllCString(s);
  }

  /** Printed text never contains the terminator, which is what update_offset relies on. */
  lemma {:induction false} RenderCString(j: Json, fmt: Format, depth: nat)
    requires Printable(j)
    ensures CString(Render(j, fmt, depth))
    decreases j
  {
    hide RenderItems, RenderMembers, Quote, OpenBrace, CloseBrace;
    match j
    case String(s) => QuoteCString(s);
    case Array(items) =>
      RenderItemsCString(items, fmt, depth + 1);
      Wrapped([LBRACKET], RenderItems(items, fmt, depth + 1), [RBRACKET]);
    case Object(members) =>
      RenderMembersCString(members, fmt, depth + 1);
      BracesCString(fmt, depth);
      Wrapped(OpenBrace(fmt), RenderMembers(members, fmt, depth + 1), CloseBrace(fmt, depth));
    case _ =>
  }

  lemma Wrapped(s: Text, t: Text, u: Text)
    requires CString(s) && CString(t) && CString(u)
    ensures CString(s + t + u)
  {
  }

  lemma BracesCString(fmt: Format, depth: nat)
    ensures CString(OpenBrace(fmt)) && CString(CloseBrace(fmt, depth))
  {
  }

  lemma {:induction false} RenderItemsCString(items: Items, fmt: Format, depth: nat)
    requires PrintableItems(items)
    ensures CString(RenderItems(items, fmt, depth))
    decreases items
  {
    match items
    case INil =>
    case ICons(j, rest) =>
      RenderCString(j, fmt, depth);
      RenderItemsCString(rest, fmt, depth);
  }

  lemma {:induction false} RenderMembersCString(members: Members, fmt: Format, depth: nat)
    requires PrintableMembers(members)
    ensures CString(RenderMembers(members, fmt, depth))
    decreases members
  {
    match members
    case MNil =>
    case MCons(k, j, rest) =>
      QuoteCString(k);
      RenderCString(j, fmt, depth);
      RenderMembersCString(rest, fmt, depth);
      var head := When(fmt.pretty, Tabs(depth)) + Quote(k) + Colon(fmt) + Render(j, fmt, depth) + Comma(rest.MCons?, fmt);
      CStringConcat(When(fmt.pretty, Tabs(depth)), Quote(k));
      CStringConcat(When(fmt.pretty, Tabs(depth)) + Quote(k), Colon(fmt));
      CStringConcat(When(fmt.pretty, Tabs(depth)) + Quote(k) + Colon(fmt), Render(j, fmt, depth));
      CStringConcat(head, RenderMembers(rest, fmt, depth));
  }
}

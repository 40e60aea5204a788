/**
 Texts as syntax trees, with the tree they denote: free white space, every escape, every number.
 Strictly formed they are the grammar of RFC 8259; without `strict`, the texts cJSON takes for it.
 */
module JsonGrammar {
  import opened Bytes
  import opened Json
  import opened JsonNumber
  import JsonString
  import Utf8

  /** White space of section 2; the parser takes everything up to the blank for it. */
  predicate IsWs(ws: Text, strict: bool) {
    forall i :: 0 <= i < |ws| ==>
      if strict then ws[i] == SPACE || ws[i] == TAB || ws[i] == LF || ws[i] == CR else ws[i] <= 32
  }

  // ---------------------------------------------------------------- strings, section 7

  type Nibble = n: nat | n < 16

  /** A hexadecimal digit, in either case. */
  datatype Digit = Digit(value: Nibble, upper: bool)

  function DigitText(d: Digit): byte {
    if d.upper then Utf8.UPPER_HEX[d.value] else Utf8.LOWER_HEX[d.value]
  }

  /** The four digits of an escape. */
  datatype Code = Code(a: Digit, b: Digit, c: Digit, d: Digit)

  /** The code unit they stand for. */
  function CodeUnit(e: Code): nat {
    e.a.value * 0x1000 + e.b.value * 0x100 + e.c.value * 0x10 + e.d.value
  }

  function EscapeText(e: Code): Text {
    [92, 117, DigitText(e.a), DigitText(e.b), DigitText(e.c), DigitText(e.d)]
  }

  predicate IsHexDigit(c: byte) {
    c in Utf8.LOWER_HEX || c in Utf8.UPPER_HEX
  }

  /** The two-character escapes: the letter behind the backslash, and the byte it stands for. */
  const SHORT_ESCAPES: map<byte, byte> :=
    map[34 := 34, 92 := 92, 47 := 47, 98 := 8, 102 := 12, 110 := 10, 114 := 13, 116 := 9]

  /** The last two are no characters of RFC 8259: they are what the parser makes of malformed text. */
  datatype Character =
    | Plain(c: byte)
    | Short(letter: byte)
    | Unit(code: Code)
    | Pair(high: Code, low: Code)
    /** An escape with four bytes that are not all digits stands for a zero byte. */
    | Garbled(four: Text)
    /** A backslash left over in front of the closing quote stands for a quote. */
    | Closing

  /** Surrogates come in pairs; a lone one denotes no character. */
  predicate IsCharacter(c: Character, strict: bool) {
    match c
    case Plain(b) => b != 92 && (strict ==> b >= 32 && b != 34)
    case Short(l) => l in SHORT_ESCAPES
    case Unit(e) => !(0xD800 <= CodeUnit(e) < 0xE000)
    case Pair(e, f) => 0xD800 <= CodeUnit(e) < 0xDC00 && 0xDC00 <= CodeUnit(f) < 0xE000
    case Garbled(four) => !strict && |four| == 4 && exists i :: 0 <= i < 4 && !IsHexDigit(four[i])
    case Closing => !strict
  }

  function CharacterText(c: Character): Text {
    match c
    case Plain(b) => [b]
    case Short(l) => [92, l]
    case Unit(e) => EscapeText(e)
    case Pair(e, f) => EscapeText(e) + EscapeText(f)
    case Garbled(four) => [92, 117] + four
    case Closing => [92]
  }

  /** The bytes a character stands for: UTF-8 for what is escaped as UTF-16. */
  function CharacterBytes(c: Character): Text
    requires IsCharacter(c, false)
  {
    match c
    case Plain(b) => [b]
    case Short(l) => [SHORT_ESCAPES[l]]
    case Unit(e) => Utf8.Encode(CodeUnit(e))
    case Pair(e, f) => Utf8.Encode(0x10000 + (CodeUnit(e) - 0xD800) * 0x400 + (CodeUnit(f) - 0xDC00))
    case Garbled(_) => [0]
    case Closing => [34]
  }

  /** No quote ends the text early: each one stands behind a backslash, which takes the next byte with it. */
  predicate Unclosed(s: Text) {
    s == [] || (if s[0] == 92 then |s| >= 2 && Unclosed(s[2..]) else s[0] != 34 && Unclosed(s[1..]))
  }

  predicate EachCharacter(chars: seq<Character>, strict: bool) {
    forall i :: 0 <= i < |chars| ==> IsCharacter(chars[i], strict) && (chars[i].Closing? ==> i == |chars| - 1)
  }

  /** The characters of a literal, with no quote among their texts that would close it before its end. */
  predicate AreCharacters(chars: seq<Character>, strict: bool) {
    EachCharacter(chars, strict) && (strict || Unclosed(Body(chars)))
  }

  function Body(chars: seq<Character>): Text {
    if chars == [] then [] else CharacterText(chars[0]) + Body(chars[1..])
  }

  function BodyBytes(chars: seq<Character>): Text
    requires EachCharacter(chars, false)
  {
    if chars == [] then [] else CharacterBytes(chars[0]) + BodyBytes(chars[1..])
  }

  function StringText(chars: seq<Character>): Text {
    [QUOTE] + (Body(chars) + [QUOTE])
  }

  // ---------------------------------------------------------------- values, sections 3 to 6

  datatype Syntax =
    | NullValue
    | FalseValue
    | TrueValue
    | NumberValue(token: Token)
    | StringValue(chars: seq<Character>)
    | ArrayValue(elements: Elements)
    | ObjectValue(pairs: Pairs)

  /** An element with the white space around it and what follows; nothing follows the last one. */
  datatype Elements = NoElements(ws: Text) | Element(before: Text, value: Syntax, after: Text, rest: Elements)

  /** A key with the white space in front of it, in front of its colon and behind it. */
  datatype Name = Name(before: Text, key: seq<Character>, colon: Text, behind: Text)

  datatype Pairs = NoPairs(ws: Text) | NamedValue(name: Name, value: Syntax, after: Text, rest: Pairs)

  /** Strictly, the grammar of RFC 8259; otherwise, what the parser takes for it. */
  predicate Formed(t: Syntax, strict: bool) {
    match t
    case NumberValue(token) => if strict then IsToken(token) else IsNumeral(token)
    case StringValue(chars) => AreCharacters(chars, strict)
    case ArrayValue(elements) => FormedElements(elements, strict)
    case ObjectValue(pairs) => FormedPairs(pairs, strict)
    case _ => true
  }

  predicate FormedElements(e: Elements, strict: bool) {
    match e
    case NoElements(ws) => IsWs(ws, strict)
    case Element(before, value, after, rest) =>
      && IsWs(before, strict) && Formed(value, strict) && IsWs(after, strict)
      && FormedElements(rest, strict) && (rest.NoElements? ==> rest.ws == [])
  }

  predicate FormedName(n: Name, strict: bool) {
    IsWs(n.before, strict) && AreCharacters(n.key, strict) && IsWs(n.colon, strict) && IsWs(n.behind, strict)
  }

  predicate FormedPairs(p: Pairs, strict: bool) {
    match p
    case NoPairs(ws) => IsWs(ws, strict)
    case NamedValue(name, value, after, rest) =>
      && FormedName(name, strict) && Formed(value, strict) && IsWs(after, strict)
      && FormedPairs(rest, strict) && (rest.NoPairs? ==> rest.ws == [])
  }

  function SyntaxText(t: Syntax): Text {
    match t
    case NullValue => NULL_TEXT
    case FalseValue => FALSE_TEXT
    case TrueValue => TRUE_TEXT
    case NumberValue(token) => TokenText(token)
    case StringValue(chars) => StringText(chars)
    case ArrayValue(elements) => [LBRACKET] + ElementsText(elements)
    case ObjectValue(pairs) => [LBRACE] + PairsText(pairs)
  }

  function Separator(more: bool): Text {
    if more then [COMMA] else []
  }

  /** The elements with the closing bracket. */
  function ElementsText(e: Elements): Text {
    match e
    case NoElements(ws) => ws + [RBRACKET]
    case Element(before, value, after, rest) =>
      before + (SyntaxText(value) + (after + (Separator(rest.Element?) + ElementsText(rest))))
  }

  function NameText(n: Name): Text {
    n.before + (StringText(n.key) + (n.colon + ([COLON] + n.behind)))
  }

  /** The members with the closing brace. */
  function PairsText(p: Pairs): Text {
    match p
    case NoPairs(ws) => ws + [RBRACE]
    case NamedValue(name, value, after, rest) =>
      NameText(name) + (SyntaxText(value) + (after + (Separator(rest.NamedValue?) + PairsText(rest))))
  }

  /** The tree a text denotes; as strings are C strings, they end in front of an escaped zero. */
  function Denoted(t: Syntax): Json
    requires Formed(t, false)
  {
    match t
    case NullValue => Null
    case FalseValue => False
    case TrueValue => True
    case NumberValue(token) => Number(TokenValue(token))
    case StringValue(chars) => String(UpToNul(BodyBytes(chars)))
    case ArrayValue(elements) => Array(DenotedElements(elements))
    case ObjectValue(pairs) => Object(DenotedPairs(pairs))
  }

  function DenotedElements(e: Elements): Items
    requires FormedElements(e, false)
  {
    match e
    case NoElements(_) => INil
    case Element(_, value, _, rest) => ICons(Denoted(value), DenotedElements(rest))
  }

  function DenotedPairs(p: Pairs): Members
    requires FormedPairs(p, false)
  {
    match p
    case NoPairs(_) => MNil
    case NamedValue(name, value, _, rest) => MCons(UpToNul(BodyBytes(name.key)), Denoted(value), DenotedPairs(rest))
  }

  // ---------------------------------------------------------------- the limits of the parser

  const WINDOW := 63

  /** Numbers fit the buffer of parse_number, and at most NESTING_LIMIT containers are open at once. */
  predicate Fits(t: Syntax, open: nat) {
    match t
    case NumberValue(token) => |TokenText(token)| <= WINDOW
    case ArrayValue(elements) => open < NESTING_LIMIT && ElementsFit(elements, open + 1)
    case ObjectValue(pairs) => open < NESTING_LIMIT && PairsFit(pairs, open + 1)
    case _ => true
  }

  predicate ElementsFit(e: Elements, open: nat) {
    match e
    case NoElements(_) => true
    case Element(_, value, _, rest) => Fits(value, open) && ElementsFit(rest, open)
  }

  predicate PairsFit(p: Pairs, open: nat) {
    match p
    case NoPairs(_) => true
    case NamedValue(_, value, _, rest) => Fits(value, open) && PairsFit(rest, open)
  }

  /** Every number is short enough. */
  predicate ShortNumbers(t: Syntax) {
    match t
    case NumberValue(token) => |TokenText(token)| <= WINDOW
    case ArrayValue(elements) => ShortElements(elements)
    case ObjectValue(pairs) => ShortPairs(pairs)
    case _ => true
  }

  predicate ShortElements(e: Elements) {
    match e
    case NoElements(_) => true
    case Element(_, value, _, rest) => ShortNumbers(value) && ShortElements(rest)
  }

  predicate ShortPairs(p: Pairs) {
    match p
    case NoPairs(_) => true
    case NamedValue(_, value, _, rest) => ShortNumbers(value) && ShortPairs(rest)
  }

  /** What fits: short numbers, and nesting within what is left of the limit. */
  lemma {:induction false} FitsMeans(t: Syntax, open: nat)
    requires Formed(t, false) && open <= NESTING_LIMIT
    ensures Fits(t, open) <==> ShortNumbers(t) && open + Nesting(Denoted(t)) <= NESTING_LIMIT
    decreases t
  {
    match t
    case ArrayValue(elements) =>
      if open < NESTING_LIMIT {
        ElementsFitMeans(elements, open + 1);
      }
    case ObjectValue(pairs) =>
      if open < NESTING_LIMIT {
        PairsFitMeans(pairs, open + 1);
      }
    case _ =>
  }

  lemma {:induction false} ElementsFitMeans(e: Elements, open: nat)
    requires FormedElements(e, false) && open <= NESTING_LIMIT
    ensures ElementsFit(e, open) <==> ShortElements(e) && open + ItemsNesting(DenotedElements(e)) <= NESTING_LIMIT
    decreases e
  {
    if e.Element? {
      FitsMeans(e.value, open);
      ElementsFitMeans(e.rest, open);
    }
  }

  lemma {:induction false} PairsFitMeans(p: Pairs, open: nat)
    requires FormedPairs(p, false) && open <= NESTING_LIMIT
    ensures PairsFit(p, open) <==> ShortPairs(p) && open + MembersNesting(DenotedPairs(p)) <= NESTING_LIMIT
    decreases p
  {
    if p.NamedValue? {
      FitsMeans(p.value, open);
      PairsFitMeans(p.rest, open);
    }
  }
}

/** JSON trees as jsonRead/cJSON.c builds them, free of memory layout. */
module Json {
  import opened Bytes

  /** Strings and keys are C strings: their value ends before the first zero byte. */
  type Text = seq<byte>

  /** The siblings of a container are chains, as the `next` pointers make them. */
  datatype Json =
    | Null
    | False
    | True
    | Number(value: real)
    | String(chars: Text)
    | Array(items: Items)
    | Object(members: Members)

  datatype Items = INil | ICons(head: Json, tail: Items)

  datatype Members = MNil | MCons(key: Text, value: Json, rest: Members)

  const NESTING_LIMIT: nat := 1000

  function Max(a: nat, b: nat): nat {
    if a < b then b else a
  }

  /** How many containers are open at the deepest point. */
  function Nesting(j: Json): nat {
    match j
    case Array(items) => 1 + ItemsNesting(items)
    case Object(members) => 1 + MembersNesting(members)
    case _ => 0
  }

  function ItemsNesting(items: Items): nat {
    match items
    case INil => 0
    case ICons(j, rest) => Max(Nesting(j), ItemsNesting(rest))
  }

  function MembersNesting(members: Members): nat {
    match members
    case MNil => 0
    case MCons(_, j, rest) => Max(Nesting(j), MembersNesting(rest))
  }

  predicate CString(s: Text) {
    forall i :: 0 <= i < |s| ==> s[i] != 0
  }

  /** What reading a zero-terminated buffer yields. */
  function UpToNul(s: Text): (t: Text)
    ensures CString(t) && t <= s
    ensures |t| < |s| ==> s[|t|] == 0
    ensures CString(s) ==> t == s
  {
    if s == [] || s[0] == 0 then [] else [s[0]] + UpToNul(s[1..])
  }

  /** A text with its terminator and no other zero byte. */
  predicate Terminated(s: Text) {
    s != [] && s[|s| - 1] == NUL && CString(s[..|s| - 1])
  }

  lemma Regroup3(a: Text, b: Text, c: Text)
    ensures (a + b) + c == a + (b + c)
  {
  }

  // ---------------------------------------------------------------- characters

  const NUL: byte := 0
  const TAB: byte := 9
  const LF: byte := 10
  const CR: byte := 13
  const SPACE: byte := 32
  const QUOTE: byte := 34
  const STAR: byte := 42
  const PLUS: byte := 43
  const COMMA: byte := 44
  const MINUS: byte := 45
  const DOT: byte := 46
  const SLASH: byte := 47
  const ZERO: byte := 48
  const COLON: byte := 58
  const LBRACKET: byte := 91
  const BACKSLASH: byte := 92
  const RBRACKET: byte := 93
  const LBRACE: byte := 123
  const RBRACE: byte := 125

  const NULL_TEXT: Text := [110, 117, 108, 108]
  const TRUE_TEXT: Text := [116, 114, 117, 101]
  const FALSE_TEXT: Text := [102, 97, 108, 115, 101]
}

/**
 What the parser of jsonRead/cJSON.c accepts and builds, as functions on the text that is left.
 The text carries its terminating zero byte, as the parse buffer does.
 */
module JsonParse {
  import opened Bytes
  import opened Json
  import opened JsonNumber
  import JsonString

  /** A parsed thing and the text behind it. */
  datatype Parsed<T> = Fail | Ok(value: T, rest: Text)

  /** buffer_skip_whitespace: every byte up to the space counts, but the last byte is never skipped. */
  function SkipWs(s: Text): (t: Text)
    ensures |t| <= |s|
    ensures s != [] ==> t != [] && (|t| == 1 || t[0] > 32)
  {
    if |s| > 1 && s[0] <= 32 then SkipWs(s[1..]) else s
  }

  lemma SkipWsNone(s: Text)
    requires s != [] && s[0] > 32
    ensures SkipWs(s) == s
  {
  }

  function ParseNumber(s: Text): (r: Parsed<Json>)
    ensures r.Ok? ==> |r.rest| < |s| && r.value.Number?
  {
    var n := Strtod(Window(s));
    if n.length == 0 then Fail else Ok(Number(n.value), s[n.length..])
  }

  function ParseString(s: Text): (r: Parsed<Text>)
    ensures r.Ok? ==> |r.rest| < |s| && CString(r.value)
  {
    if s == [] || s[0] != QUOTE then Fail
    else
      var end := JsonString.ScanEnd(s[1..]);
      if end.None? then Fail
      else
        var t := JsonString.Decode(s[1..][..end.value + 1]);
        if t.None? then Fail else Ok(UpToNul(t.value), s[1..][end.value + 1..])
  }

  /** depth is the number of containers open so far. */
  function ParseValue(s: Text, depth: nat): (r: Parsed<Json>)
    ensures r.Ok? ==> |r.rest| < |s|
    decreases |s|, 0
  {
    if NULL_TEXT <= s then Ok(Null, s[4..])
    else if FALSE_TEXT <= s then Ok(False, s[5..])
    else if TRUE_TEXT <= s then Ok(True, s[4..])
    else if s == [] then Fail
    else if s[0] == QUOTE then
      var r := ParseString(s);
      if r.Fail? then Fail else Ok(String(r.value), r.rest)
    else if s[0] == MINUS || IsDigit(s[0]) then ParseNumber(s)
    else if s[0] == LBRACKET then ParseArray(s, depth)
    else if s[0] == LBRACE then ParseObject(s, depth)
    else Fail
  }

  function ParseArray(s: Text, depth: nat): (r: Parsed<Json>)
    requires s != []
    ensures r.Ok? ==> |r.rest| < |s| && r.value.Array?
    decreases |s| - 1, 2
  {
    if depth >= NESTING_LIMIT then Fail
    else
      var t := SkipWs(s[1..]);
      if t != [] && t[0] == RBRACKET then Ok(Array(INil), t[1..])
      else
        var r := ParseItems(t, depth + 1);
        if r.Fail? then Fail else Ok(Array(r.value), r.rest)
  }

  /** The elements from here to the closing bracket, which is consumed. */
  function ParseItems(s: Text, depth: nat): (r: Parsed<Items>)
    ensures r.Ok? ==> |r.rest| < |s| && r.value.ICons?
    decreases |s|, 1
  {
    var v := ParseValue(SkipWs(s), depth);
    if v.Fail? then Fail
    else
      var t := SkipWs(v.rest);
      if t == [] then Fail
      else if t[0] == COMMA then
        var r := ParseItems(t[1..], depth);
        if r.Fail? then Fail else Ok(ICons(v.value, r.value), r.rest)
      else if t[0] == RBRACKET then Ok(ICons(v.value, INil), t[1..])
      else Fail
  }

  function ParseObject(s: Text, depth: nat): (r: Parsed<Json>)
    requires s != []
    ensures r.Ok? ==> |r.rest| < |s| && r.value.Object?
    decreases |s| - 1, 2
  {
    if depth >= NESTING_LIMIT then Fail
    else
      var t := SkipWs(s[1..]);
      if t != [] && t[0] == RBRACE then Ok(Object(MNil), t[1..])
      else
        var r := ParseMembers(t, depth + 1);
        if r.Fail? then Fail else Ok(Object(r.value), r.rest)
  }

  /** A name with its colon; the text behind it starts the value. */
  function ParseName(s: Text): (r: Parsed<Text>)
    ensures r.Ok? ==> |r.rest| < |s| && CString(r.value)
  {
    var k := ParseString(SkipWs(s));
    if k.Fail? then Fail
    else
      var t := SkipWs(k.rest);
      if t == [] || t[0] != COLON then Fail else Ok(k.value, SkipWs(t[1..]))
  }

  function ParseMembers(s: Text, depth: nat): (r: Parsed<Members>)
    ensures r.Ok? ==> |r.rest| < |s| && r.value.MCons?
    decreases |s|, 1
  {
    var k := ParseName(s);
    if k.Fail? then Fail
    else
      var v := ParseValue(k.rest, depth);
      if v.Fail? then Fail
      else
        var t := SkipWs(v.rest);
        if t == [] then Fail
        else if t[0] == COMMA then
          var r := ParseMembers(t[1..], depth);
          if r.Fail? then Fail else Ok(MCons(k.value, v.value, r.value), r.rest)
        else if t[0] == RBRACE then Ok(MCons(k.value, v.value, MNil), t[1..])
        else Fail
  }

  const BOM: Text := [0xEF, 0xBB, 0xBF]

  function SkipBom(s: Text): Text {
    if |s| > 4 && BOM <= s then s[3..] else s
  }

  /** cJSON_ParseWithOpts on a C string; the rest is where return_parse_end points. */
  function Parse(text: Text, requireNul: bool): Parsed<Json> {
    var r := ParseValue(SkipWs(SkipBom(text + [NUL])), 0);
    if r.Fail? || !requireNul then r
    else
      var t := SkipWs(r.rest);
      if t == [] || t[0] != NUL then Fail else Ok(r.value, t)
  }

  // ---------------------------------------------------------------- what is accepted

  lemma ContainerParsed(s: Text, depth: nat)
    requires ParseValue(s, depth).Ok?
    ensures var r := ParseValue(s, depth);
      && (r.value.Array? ==> s != [] && r == ParseArray(s, depth))
      && (r.value.Object? ==> s != [] && r == ParseObject(s, depth))
  {
    hide ParseString, ParseNumber, ParseArray, ParseObject;
  }

  /** An accepted value never nests deeper than the limit, whatever is already open. */
  lemma {:induction false} ParsedNesting(s: Text, depth: nat)
    requires ParseValue(s, depth).Ok?
    ensures Nesting(ParseValue(s, depth).value) > 0 ==> depth + Nesting(ParseValue(s, depth).value) <= NESTING_LIMIT
    decreases |s|, 0
  {
    hide ParseValue, ParseItems, ParseMembers, SkipWs;
    var j := ParseValue(s, depth).value;
    ContainerParsed(s, depth);
    if j.Array? {
      var t := SkipWs(s[1..]);
      if !(t != [] && t[0] == RBRACKET) {
        ParsedItemsNesting(t, depth + 1);
      }
    } else if j.Object? {
      var t := SkipWs(s[1..]);
      if !(t != [] && t[0] == RBRACE) {
        ParsedMembersNesting(t, depth + 1);
      }
    }
  }

  lemma {:induction false} ParsedItemsNesting(s: Text, depth: nat)
    requires ParseItems(s, depth).Ok? && depth <= NESTING_LIMIT
    ensures depth + ItemsNesting(ParseItems(s, depth).value) <= NESTING_LIMIT
    decreases |s|, 1
  {
    hide ParseValue, SkipWs;
    ParsedNesting(SkipWs(s), depth);
    var t := SkipWs(ParseValue(SkipWs(s), depth).rest);
    if t[0] == COMMA {
      ParsedItemsNesting(t[1..], depth);
    }
  }

  lemma {:induction false} ParsedMembersNesting(s: Text, depth: nat)
    requires ParseMembers(s, depth).Ok? && depth <= NESTING_LIMIT
    ensures depth + MembersNesting(ParseMembers(s, depth).value) <= NESTING_LIMIT
    decreases |s|, 1
  {
    hide ParseValue, ParseName, SkipWs;
    var k := ParseName(s);
    ParsedNesting(k.rest, depth);
    var t := SkipWs(ParseValue(k.rest, depth).rest);
    if t[0] == COMMA {
      ParsedMembersNesting(t[1..], depth);
    }
  }
}

/** String literals: how print_string_ptr escapes them and how parse_string reads them. */
module JsonString {
  import opened Bytes
  import opened Json
  import Utf8

  // ---------------------------------------------------------------- printing

  /** Lower-case hexadecimal, as %x prints it. */
  function HexChar(d: nat): byte
    requires d < 16
  {
    if d < 10 then ZERO + d else 97 + d - 10
  }

  /** The letter of a two-character escape, for the characters that have one in print_string_ptr. */
  function ShortEscape(c: byte): Option<byte> {
    if c == QUOTE || c == BACKSLASH then Some(c)
    else if c == 8 then Some(98)
    else if c == 12 then Some(102)
    else if c == LF then Some(110)
    else if c == CR then Some(114)
    else if c == TAB then Some(116)
    else None
  }

  function EscapeChar(c: byte): (t: Text)
    ensures |t| >= 1
  {
    var short := ShortEscape(c);
    if short.Some? then [BACKSLASH, short.value]
    else if c < 32 then [BACKSLASH, Utf8.LOWER_U, ZERO, ZERO, HexChar(c / 16), HexChar(c % 16)]
    else [c]
  }

  function EscapeAll(s: Text): Text {
    if s == [] then [] else EscapeChar(s[0]) + EscapeAll(s[1..])
  }

  function Quote(s: Text): (t: Text)
    ensures |t| >= 2 && t[0] == QUOTE
  {
    [QUOTE] + EscapeAll(s) + [QUOTE]
  }

  // ---------------------------------------------------------------- parsing: the scanning pass

  /** Where the literal whose body starts here ends; a backslash skips the next character. */
  function ScanEnd(s: Text): (r: Option<nat>)
    ensures r.Some? ==> r.value < |s| && s[r.value] == QUOTE
  {
    if s == [] then None
    else if s[0] == QUOTE then Some(0)
    else if s[0] == BACKSLASH then
      if |s| < 2 then None
      else
        var r := ScanEnd(s[2..]);
        if r.None? then None else Some(r.value + 2)
    else
      var r := ScanEnd(s[1..]);
      if r.None? then None else Some(r.value + 1)
  }

  /** How many backslashes the scanning pass skips: `skipped_bytes`. */
  function Skipped(s: Text): nat
    requires ScanEnd(s).Some?
  {
    if s[0] == QUOTE then 0
    else if s[0] == BACKSLASH then 1 + Skipped(s[2..])
    else Skipped(s[1..])
  }

  // ---------------------------------------------------------------- parsing: the decoding pass

  /** The character a two-character escape stands for, in parse_string. */
  function ReadShort(c: byte): Option<byte> {
    if c == 98 then Some(8)
    else if c == 102 then Some(12)
    else if c == 110 then Some(LF)
    else if c == 114 then Some(CR)
    else if c == 116 then Some(TAB)
    else if c == QUOTE || c == BACKSLASH || c == SLASH then Some(c)
    else None
  }

  /** One step of the decoding loop: what is written and how far the input moves. */
  datatype Piece = Piece(output: Text, length: nat)

  /** u runs up to and including the closing quote, which the step may read but not start at. */
  function NextPiece(u: Text): (r: Option<Piece>)
    requires |u| >= 2
    ensures r.Some? ==> 1 <= r.value.length <= |u|
  {
    if u[0] != BACKSLASH then Some(Piece([u[0]], 1))
    else if u[1] == Utf8.LOWER_U then
      var e := Utf8.ReadEscape(u);
      if e.None? then None else Some(Piece(Utf8.Encode(e.value.codepoint), e.value.length))
    else
      var c := ReadShort(u[1]);
      if c.None? then None else Some(Piece([c.value], 2))
  }

  /** The decoding loop; it stops at the closing quote or one character behind it. */
  function Decode(u: Text): Option<Text> {
    if |u| <= 1 then Some([])
    else
      var p := NextPiece(u);
      if p.None? then None else Prepend(p.value.output, Decode(u[p.value.length..]))
  }

  function Prepend(t: Text, more: Option<Text>): Option<Text> {
    if more.None? then None else Some(t + more.value)
  }

  lemma PrependTwice(s: Text, t: Text, more: Option<Text>)
    ensures Prepend(s, Prepend(t, more)) == Prepend(s + t, more)
    ensures Prepend([], more) == more
  {
    if more.Some? {
      assert s + (t + more.value) == (s + t) + more.value && [] + more.value == more.value;
    }
  }

  // ---------------------------------------------------------------- reading back what was printed

  lemma {:induction false} ScanEndEscaped(s: Text, tail: Text)
    requires tail != [] && tail[0] == QUOTE
    ensures ScanEnd(EscapeAll(s) + tail) == Some(|EscapeAll(s)|)
    decreases |s|
  {
    hide EscapeChar, ScanEnd;
    if s == [] {
      assert EscapeAll(s) + tail == tail;
      ScanQuote(tail);
    } else {
      assert EscapeAll(s) + tail == EscapeChar(s[0]) + (EscapeAll(s[1..]) + tail);
      ScanEndEscaped(s[1..], tail);
      ScanEscapedChar(s[0], EscapeAll(s[1..]) + tail);
    }
  }

  lemma ScanQuote(s: Text)
    requires s != [] && s[0] == QUOTE
    ensures ScanEnd(s) == Some(0)
  {
  }

  /** Plain characters are scanned one by one. */
  lemma {:induction false} ScanDigits(digits: Text, rest: Text)
    requires ScanEnd(rest).Some?
    requires forall i :: 0 <= i < |digits| ==> digits[i] != QUOTE && digits[i] != BACKSLASH
    ensures ScanEnd(digits + rest) == Some(ScanEnd(rest).value + |digits|)
    decreases |digits|
  {
    hide *;
    if digits == [] {
      assert digits + rest == rest;
    } else {
      ScanDigits(digits[1..], rest);
      DropHead(digits, rest);
      ScanPlain(digits + rest);
    }
  }

  lemma DropHead(s: Text, t: Text)
    requires s != []
    ensures (s + t)[0] == s[0] && (s + t)[1..] == s[1..] + t
  {
  }

  lemma ScanNothing()
    ensures ScanEnd([]).None?
  {
  }

  lemma ScanUnfold(s: Text)
    requires s != [] && s[0] != QUOTE
    ensures var n := if s[0] == BACKSLASH then 2 else 1; var r := ScanEnd(s);
      if n > |s| then r.None?
      else
        var next := ScanEnd(s[n..]);
        (r.Some? <==> next.Some?) && (r.Some? ==> r.value == next.value + n)
  {
  }

  lemma ScanPlain(s: Text)
    requires s != [] && s[0] != QUOTE && s[0] != BACKSLASH && ScanEnd(s[1..]).Some?
    ensures ScanEnd(s) == Some(ScanEnd(s[1..]).value + 1)
  {
  }

  lemma ScanSkips(s: Text)
    requires |s| >= 2 && s[0] == BACKSLASH && ScanEnd(s[2..]).Some?
    ensures ScanEnd(s) == Some(ScanEnd(s[2..]).value + 2)
  {
  }

  /** A backslash is scanned together with the next character. */
  lemma ScanShort(b: byte, rest: Text)
    requires ScanEnd(rest).Some?
    ensures ScanEnd([BACKSLASH, b] + rest) == Some(ScanEnd(rest).value + 2)
  {
    hide *;
    DropTwo(BACKSLASH, b, rest);
    ScanSkips([BACKSLASH, b] + rest);
  }

  lemma DropTwo(a: byte, b: byte, rest: Text)
    ensures ([a, b] + rest)[0] == a && ([a, b] + rest)[2..] == rest
  {
  }

  lemma ScanUnit(hex: Text, rest: Text)
    requires ScanEnd(rest).Some?
    requires forall i :: 0 <= i < |hex| ==> hex[i] != QUOTE && hex[i] != BACKSLASH
    ensures ScanEnd(([BACKSLASH, Utf8.LOWER_U] + hex) + rest) == Some(ScanEnd(rest).value + 2 + |hex|)
  {
    hide *;
    ScanDigits(hex, rest);
    ScanShort(Utf8.LOWER_U, hex + rest);
    Regroup3([BACKSLASH, Utf8.LOWER_U], hex, rest);
  }

  function UnitDigits(c: byte): Text
    requires c < 32
  {
    [ZERO, ZERO, HexChar(c / 16), HexChar(c % 16)]
  }

  /** The bytes with an escape of two characters in print, and its letter. */
  const PRINTED_SHORT: map<byte, byte> := map[8 := 98, 9 := 116, 10 := 110, 12 := 102, 13 := 114, 34 := 34, 92 := 92]

  /** How each byte is printed: these seven with a letter, other control characters with four digits, all else as it is. */
  lemma EscapeIs(c: byte)
    ensures EscapeChar(c)
         == if c in PRINTED_SHORT then [92, PRINTED_SHORT[c]]
            else if c < 32 then [92, 117, 48, 48, Utf8.LOWER_HEX[c / 16], Utf8.LOWER_HEX[c % 16]]
            else [c]
  {
  }

  /** A string is printed byte by byte, from the first to the last, between quotes. */
  lemma {:induction false} QuoteIs(s: Text, t: Text, c: byte)
    ensures Quote([]) == [34, 34]
    ensures Quote(s + [c] + t) == [34] + EscapeAll(s) + EscapeChar(c) + EscapeAll(t) + [34]
  {
    hide EscapeChar, EscapeAll;
    EscapeConcat(s + [c], t);
    EscapeConcat(s, [c]);
    EscapeOne(c);
    Regroup3([34], EscapeAll(s) + EscapeChar(c), EscapeAll(t));
    Regroup3([34], EscapeAll(s), EscapeChar(c));
  }

  lemma EscapeOne(c: byte)
    ensures EscapeAll([c]) == EscapeChar(c) && EscapeAll([]) == []
  {
    hide EscapeChar;
    assert [c][1..] == [];
    assert EscapeChar(c) + [] == EscapeChar(c);
  }

  lemma {:induction false} EscapeConcat(s: Text, t: Text)
    ensures EscapeAll(s + t) == EscapeAll(s) + EscapeAll(t)
    decreases |s|
  {
    hide EscapeChar;
    if s == [] {
      assert s + t == t;
    } else {
      assert (s + t)[1..] == s[1..] + t;
      EscapeConcat(s[1..], t);
    }
  }

  /** The three forms of a printed character. */
  lemma EscapeForms(c: byte)
    ensures var short := ShortEscape(c);
      && (short.Some? ==> EscapeChar(c) == [BACKSLASH, short.value])
      && (short.None? && c < 32 ==> EscapeChar(c) == [BACKSLASH, Utf8.LOWER_U] + UnitDigits(c))
      && (short.None? && c >= 32 ==> EscapeChar(c) == [c] && c != QUOTE && c != BACKSLASH)
  {
  }

  lemma DigitsPlain(c: byte)
    requires c < 32
    ensures forall i :: 0 <= i < |UnitDigits(c)| ==> UnitDigits(c)[i] != QUOTE && UnitDigits(c)[i] != BACKSLASH
  {
  }

  /** One printed character is scanned as a whole. */
  lemma ScanEscapedChar(c: byte, rest: Text)
    requires ScanEnd(rest).Some?
    ensures ScanEnd(EscapeChar(c) + rest) == Some(ScanEnd(rest).value + |EscapeChar(c)|)
  {
    hide *;
    EscapeForms(c);
    if ShortEscape(c).Some? {
      ScanShort(ShortEscape(c).value, rest);
    } else if c < 32 {
      DigitsPlain(c);
      ScanUnit(UnitDigits(c), rest);
    } else {
      ScanDigits([c], rest);
    }
  }

  /** One printed character is read back as one piece. */
  lemma NextPieceEscaped(c: byte, tail: Text)
    requires c != NUL && tail != []
    ensures NextPiece(EscapeChar(c) + tail) == Some(Piece([c], |EscapeChar(c)|))
  {
    var e := EscapeChar(c);
    var u := e + tail;
    if |e| == 6 {
      assert u[2..6] == e[2..];
      Utf8.HexOf4(e[2..]);
      assert Utf8.HexDigit(HexChar(c / 16)) == Some(c / 16) && Utf8.HexDigit(HexChar(c % 16)) == Some(c % 16);
      assert Utf8.HexValue(e[2..]) == c;
      Utf8.ReadsUnit(e, c, tail);
    } else {
      assert u[0] == e[0] && (|e| == 2 ==> u[1] == e[1]);
    }
  }

  lemma {:induction false} DecodeEscaped(s: Text)
    requires CString(s)
    ensures Decode(EscapeAll(s) + [QUOTE]) == Some(s)
    decreases |s|
  {
    hide NextPiece, EscapeChar;
    if s != [] {
      var e, rest := EscapeChar(s[0]), EscapeAll(s[1..]) + [QUOTE];
      assert EscapeAll(s) + [QUOTE] == e + rest;
      NextPieceEscaped(s[0], rest);
      DecodeEscaped(s[1..]);
      DecodePiece(e, rest, [s[0]]);
      assert s == [s[0]] + s[1..];
    }
  }

  lemma DecodePiece(e: Text, rest: Text, output: Text)
    requires |e + rest| >= 2 && NextPiece(e + rest) == Some(Piece(output, |e|))
    ensures Decode(e + rest) == Prepend(output, Decode(rest))
  {
    hide NextPiece;
    assert (e + rest)[|e|..] == rest;
  }

  // ---------------------------------------------------------------- the size estimate

  /** Characters of the body, escapes counted once: what the estimate of parse_string allows for. */
  function Units(s: Text): nat {
    if s == [] || s[0] == QUOTE then 0
    else if s[0] == BACKSLASH && |s| >= 2 then 1 + Units(s[2..])
    else 1 + Units(s[1..])
  }

  lemma {:induction false} UnitsAreEstimate(s: Text)
    requires ScanEnd(s).Some?
    ensures Units(s) == ScanEnd(s).value - Skipped(s)
  {
    if s[0] == QUOTE {
    } else if s[0] == BACKSLASH {
      UnitsAreEstimate(s[2..]);
    } else {
      UnitsAreEstimate(s[1..]);
    }
  }

  /**
   The decoding pass can fall out of step with the scanning pass: a malformed \u escape may end
   between a backslash and the character the scanner skipped with it. u is what is left to decode,
   with the closing quote; unless in step, the scanner stands one character further on.
   */
  predicate Tracks(u: Text, inStep: bool) {
    if inStep then ScanEnd(u) == Some(|u| - 1)
    else u == [] || (|u| >= 2 && ScanEnd(u[1..]) == Some(|u| - 2))
  }

  /** How much output the rest of the literal is good for. */
  function Room(u: Text, inStep: bool): nat {
    if inStep then Units(u) else if u == [] then 0 else Units(u[1..]) + 1
  }

  /** n characters ahead the scanner has counted at least half as many units. */
  lemma {:induction false} Walk(v: Text, n: nat) returns (inStep: bool)
    requires Tracks(v, true) && n < |v|
    ensures Tracks(v[n..], inStep)
    ensures 2 * Units(v) >= 2 * Room(v[n..], inStep) + n - 1
    decreases n
  {
    hide ScanEnd, Units, Tracks, Room;
    WalkStep(v);
    if n == 0 {
      inStep := true;
      assert v[0..] == v;
    } else if v[0] == BACKSLASH {
      if n == 1 {
        inStep := false;
      } else {
        inStep := Walk(v[2..], n - 2);
        DropDrop(v, 2, n - 2);
      }
    } else {
      inStep := Walk(v[1..], n - 1);
      DropDrop(v, 1, n - 1);
    }
  }

  lemma DropDrop(s: Text, m: nat, n: nat)
    requires m + n <= |s|
    ensures s[m..][n..] == s[m + n..]
  {
  }

  /** One step of the scanner, in the middle of which it is out of step. */
  lemma WalkStep(v: Text)
    requires Tracks(v, true)
    ensures Room(v, true) == Units(v) && |v| >= 1
    ensures |v| >= 2 && v[0] != BACKSLASH ==> Tracks(v[1..], true) && Units(v) == 1 + Units(v[1..])
    ensures |v| >= 2 && v[0] == BACKSLASH ==>
      && |v| >= 3 && Tracks(v[2..], true) && Units(v) == 1 + Units(v[2..])
      && Tracks(v[1..], false) && Room(v[1..], false) == 1 + Units(v[2..])
  {
    if |v| >= 2 {
      assert v[1..][1..] == v[2..];
    }
  }

  /** A \u escape never writes more than the scanner has counted over it. */
  lemma EscapeFits(u: Text, inStep: bool) returns (next: bool)
    requires |u| >= 2 && Tracks(u, inStep) && u[0] == BACKSLASH && u[1] == Utf8.LOWER_U
    requires NextPiece(u).Some?
    ensures var p := NextPiece(u).value;
      Tracks(u[p.length..], next) && |p.output| + Room(u[p.length..], next) <= Room(u, inStep)
  {
    var p := NextPiece(u).value;
    assert |p.output| <= (if p.length == 6 then 3 else 4);
    if !inStep {
      assert u[1..][1..] == u[2..];
    }
    next := Walk(u[2..], p.length - 2);
    assert u[2..][p.length - 2..] == u[p.length..];
  }

  lemma PieceFits(u: Text, inStep: bool) returns (next: bool)
    requires |u| >= 2 && Tracks(u, inStep) && NextPiece(u).Some?
    ensures var p := NextPiece(u).value;
      Tracks(u[p.length..], next) && |p.output| + Room(u[p.length..], next) <= Room(u, inStep)
  {
    hide Utf8.ReadEscape, Utf8.Encode;
    if u[0] != BACKSLASH {
      next := true;
    } else if u[1] == Utf8.LOWER_U {
      next := EscapeFits(u, inStep);
    } else if inStep {
      next := true;
    } else if |u| == 2 {
      next := false;
    } else {
      next := u[1] != BACKSLASH;
      assert u[1..][1..] == u[2..] && u[1..][2..] == u[2..][1..];
    }
  }

  /** The bytes parse_string allocates for the literal with body s. */
  function Allocation(s: Text): nat
    requires ScanEnd(s).Some?
    ensures Skipped(s) <= ScanEnd(s).value
  {
    UnitsAreEstimate(s);
    ScanEnd(s).value + 1 - Skipped(s) + 1
  }

  lemma {:induction false} DecodedFitsRoom(u: Text, inStep: bool)
    requires Tracks(u, inStep) && Decode(u).Some?
    ensures |Decode(u).value| <= Room(u, inStep)
  {
    if |u| >= 2 {
      var p := NextPiece(u).value;
      var next := PieceFits(u, inStep);
      DecodedFitsRoom(u[p.length..], next);
    }
  }

  lemma DropOfTake(s: Text, from: nat, to: nat)
    requires from <= to <= |s|
    ensures s[..to][from..] == s[from..][..to - from]
  {
  }

  lemma {:induction false} ScanEndOfPrefix(s: Text)
    requires ScanEnd(s).Some?
    ensures ScanEnd(s[..ScanEnd(s).value + 1]) == ScanEnd(s)
    ensures Units(s[..ScanEnd(s).value + 1]) == Units(s)
  {
    var e := ScanEnd(s).value;
    if s[0] == QUOTE {
    } else if s[0] == BACKSLASH {
      DropOfTake(s, 2, e + 1);
      ScanEndOfPrefix(s[2..]);
    } else {
      DropOfTake(s, 1, e + 1);
      ScanEndOfPrefix(s[1..]);
    }
  }

  /** Whatever the bytes of a literal, its decoded form and a zero byte fit the allocation. */
  lemma DecodedFits(s: Text)
    requires ScanEnd(s).Some? && Decode(s[..ScanEnd(s).value + 1]).Some?
    ensures |Decode(s[..ScanEnd(s).value + 1]).value| + 1 < Allocation(s)
  {
    ScanEndOfPrefix(s);
    UnitsAreEstimate(s);
    DecodedFitsRoom(s[..ScanEnd(s).value + 1], true);
  }
}

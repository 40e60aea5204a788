/**
 The code points written by \u escapes (section 2.2 of RFC 2781) and their UTF-8 form
 (section 3 of RFC 3629), as utf16_literal_to_utf8 computes them.
 */
module Utf8 {
  import opened Bytes
  import opened Json

  const LOWER_U: byte := 117

  predicate IsHighSurrogate(code: nat) {
    0xD800 <= code <= 0xDBFF
  }

  predicate IsLowSurrogate(code: nat) {
    0xDC00 <= code <= 0xDFFF
  }

  /** A Unicode scalar value. */
  predicate IsScalar(cp: nat) {
    cp <= 0x10FFFF && !IsHighSurrogate(cp) && !IsLowSurrogate(cp)
  }

  // ---------------------------------------------------------------- encoding

  /** The bytes written for a code point: six bits at a time from the low end, then the marked first byte. */
  function Encode(cp: nat): (t: Text)
    requires cp <= 0x10FFFF
    ensures 1 <= |t| <= 4
    ensures |t| == EncodedLength(cp)
  {
    if cp < 0x80 then [cp]
    else if cp < 0x800 then [0xC0 + cp / 64, 0x80 + cp % 64]
    else if cp < 0x10000 then [0xE0 + cp / 64 / 64, 0x80 + cp / 64 % 64, 0x80 + cp % 64]
    else [0xF0 + cp / 64 / 64 / 64, 0x80 + cp / 64 / 64 % 64, 0x80 + cp / 64 % 64, 0x80 + cp % 64]
  }

  function EncodedLength(cp: nat): (n: nat)
    ensures 1 <= n <= 4
  {
    if cp < 0x80 then 1 else if cp < 0x800 then 2 else if cp < 0x10000 then 3 else 4
  }

  // ---------------------------------------------------------------- an independent decoder

  predicate IsContinuation(b: byte) {
    0x80 <= b < 0xC0
  }

  /** The payload of a byte behind its mark. */
  function Payload(b: byte, mark: byte): int {
    (b as int) - (mark as int)
  }

  datatype Decoded = Decoded(codepoint: nat, length: nat)

  /** The first character of a text, if it is well formed: no overlong form, no surrogate, nothing beyond U+10FFFF. */
  function Decode(t: Text): (r: Option<Decoded>)
    ensures r.Some? ==> IsScalar(r.value.codepoint) && r.value.length <= |t|
  {
    if t == [] then None
    else if t[0] < 0x80 then Some(Decoded(t[0], 1))
    else if 0xC2 <= t[0] < 0xE0 then
      if |t| < 2 || !IsContinuation(t[1]) then None
      else Some(Decoded(Payload(t[0], 0xC0) * 64 + Payload(t[1], 0x80), 2))
    else if 0xE0 <= t[0] < 0xF0 then
      if |t| < 3 || !IsContinuation(t[1]) || !IsContinuation(t[2]) then None
      else
        var cp := (Payload(t[0], 0xE0) * 64 + Payload(t[1], 0x80)) * 64 + Payload(t[2], 0x80);
        if cp < 0x800 || !IsScalar(cp) then None else Some(Decoded(cp, 3))
    else if 0xF0 <= t[0] < 0xF5 then
      if |t| < 4 || !IsContinuation(t[1]) || !IsContinuation(t[2]) || !IsContinuation(t[3]) then None
      else
        var cp := ((Payload(t[0], 0xF0) * 64 + Payload(t[1], 0x80)) * 64 + Payload(t[2], 0x80)) * 64 + Payload(t[3],
          0x80);
        if cp < 0x10000 || !IsScalar(cp) then None else Some(Decoded(cp, 4))
    else None
  }

  /** Every scalar value is written in its well-formed, shortest form. */
  lemma EncodeDecodes(cp: nat, tail: Text)
    requires IsScalar(cp)
    ensures Decode(Encode(cp) + tail) == Some(Decoded(cp, EncodedLength(cp)))
  {
    var e := Encode(cp);
    var t := e + tail;
    assert t[0] == e[0];
    assert |e| > 1 ==> t[1] == e[1];
    assert |e| > 2 ==> t[2] == e[2];
    assert |e| > 3 ==> t[3] == e[3];
  }

  /** Only that form decodes to it. */
  lemma DecodeEncodes(t: Text)
    requires Decode(t).Some?
    ensures var r := Decode(t).value; t[..r.length] == Encode(r.codepoint)
  {
    hide Encode;
    var r := Decode(t).value;
    if r.length == 1 {
      OneByte(t);
    } else if r.length == 2 {
      TwoBytes(t);
    } else if r.length == 3 {
      ThreeBytes(t);
    } else {
      FourBytes(t);
    }
  }

  lemma OneByte(t: Text)
    requires Decode(t).Some? && Decode(t).value.length == 1
    ensures t[..1] == Encode(Decode(t).value.codepoint)
  {
    assert t[..1] == [t[0]];
  }

  lemma TwoBytes(t: Text)
    requires Decode(t).Some? && Decode(t).value.length == 2
    ensures t[..2] == Encode(Decode(t).value.codepoint)
  {
    Refold(Payload(t[0], 0xC0), Payload(t[1], 0x80));
    assert t[..2] == [t[0], t[1]];
  }

  lemma ThreeBytes(t: Text)
    requires Decode(t).Some? && Decode(t).value.length == 3
    ensures t[..3] == Encode(Decode(t).value.codepoint)
  {
    var high := Payload(t[0], 0xE0) * 64 + Payload(t[1], 0x80);
    Refold(high, Payload(t[2], 0x80));
    Refold(Payload(t[0], 0xE0), Payload(t[1], 0x80));
    assert t[..3] == [t[0], t[1], t[2]];
  }

  lemma FourBytes(t: Text)
    requires Decode(t).Some? && Decode(t).value.length == 4
    ensures t[..4] == Encode(Decode(t).value.codepoint)
  {
    var middle := Payload(t[0], 0xF0) * 64 + Payload(t[1], 0x80);
    var high := middle * 64 + Payload(t[2], 0x80);
    Refold(high, Payload(t[3], 0x80));
    Refold(middle, Payload(t[2], 0x80));
    Refold(Payload(t[0], 0xF0), Payload(t[1], 0x80));
    assert t[..4] == [t[0], t[1], t[2], t[3]];
  }

  lemma Refold(high: int, low: int)
    requires 0 <= low < 64
    ensures (high * 64 + low) / 64 == high && (high * 64 + low) % 64 == low
  {
  }

  // ---------------------------------------------------------------- \u escapes

  /** The value of a hexadecimal digit. */
  function HexDigit(c: byte): (d: Option<nat>)
    ensures d.Some? ==> d.value < 16
  {
    if 48 <= c <= 57 then Some(c - 48)
    else if 65 <= c <= 70 then Some(10 + c - 65)
    else if 97 <= c <= 102 then Some(10 + c - 97)
    else None
  }

  /** "0123456789abcdef" and "0123456789ABCDEF". */
  const LOWER_HEX: Text := [48, 49, 50, 51, 52, 53, 54, 55, 56, 57, 97, 98, 99, 100, 101, 102]
  const UPPER_HEX: Text := [48, 49, 50, 51, 52, 53, 54, 55, 56, 57, 65, 66, 67, 68, 69, 70]

  /** A digit has value d exactly when it is character d of "0123456789abcdef" or of "0123456789ABCDEF". */
  lemma HexDigitIs(c: byte, d: nat)
    requires d < 16
    ensures HexDigit(c) == Some(d) <==> c == LOWER_HEX[d] || c == UPPER_HEX[d]
  {
  }

  predicate AllHex(s: Text) {
    forall i :: 0 <= i < |s| ==> HexDigit(s[i]).Some?
  }

  function HexValue(s: Text): nat
    requires AllHex(s)
  {
    if s == [] then 0 else HexValue(s[..|s| - 1]) * 16 + HexDigit(s[|s| - 1]).value
  }

  /** parse_hex4: any invalid digit makes the whole value zero. */
  function Hex4(s: Text): (h: nat)
    requires |s| == 4
    ensures h < 0x10000
    ensures !AllHex(s) ==> h == 0
  {
    if AllHex(s) then
      HexBound(s);
      HexValue(s)
    else 0
  }

  lemma {:induction false} HexBound(s: Text)
    requires AllHex(s) && |s| == 4
    ensures HexValue(s) < 0x10000
  {
    HexOf4(s);
  }

  lemma HexOf4(s: Text)
    requires AllHex(s) && |s| == 4
    ensures HexValue(s) == HexDigit(s[0]).value * 4096 + HexDigit(s[1]).value * 256
                           + HexDigit(s[2]).value * 16 + HexDigit(s[3]).value
  {
    assert s[..3][..2] == s[..2] && s[..2][..1] == s[..1] && s[..1][..0] == [];
    assert HexValue(s[..1]) == HexDigit(s[0]).value;
    assert HexValue(s[..2]) == HexValue(s[..1]) * 16 + HexDigit(s[1]).value;
    assert HexValue(s[..3]) == HexValue(s[..2]) * 16 + HexDigit(s[2]).value;
  }

  /** A code point and the number of characters its escape takes. */
  datatype Escape = Escape(codepoint: nat, length: nat)

  function Combine(high: nat, low: nat): nat {
    0x10000 + high % 1024 * 1024 + low % 1024
  }

  /**
   The escape at the head of s, which is followed by one character that is not part of it: at
   least 6 (or 12) characters have to precede that one.
   */
  function ReadEscape(s: Text): (r: Option<Escape>)
    ensures r.Some? ==> IsScalar(r.value.codepoint)
    ensures r.Some? ==> r.value.length < |s| && (r.value.length == 6 || r.value.length == 12)
  {
    if |s| <= 6 then None
    else
      var first := Hex4(s[2..6]);
      if IsLowSurrogate(first) then None
      else if IsHighSurrogate(first) then
        if |s| <= 12 || s[6] != BACKSLASH || s[7] != LOWER_U then None
        else
          var second := Hex4(s[8..12]);
          if !IsLowSurrogate(second) then None else Some(Escape(Combine(first, second), 12))
      else Some(Escape(first, 6))
  }

  /** The escape of one UTF-16 code unit. */
  predicate IsUnit(s: Text, code: nat) {
    |s| == 6 && s[0] == BACKSLASH && s[1] == LOWER_U && AllHex(s[2..]) && HexValue(s[2..]) == code
  }

  lemma ReadsUnit(u: Text, code: nat, tail: Text)
    requires IsUnit(u, code) && |tail| > 0
    requires !IsHighSurrogate(code)
    ensures ReadEscape(u + tail) == if IsLowSurrogate(code) then None else Some(Escape(code, 6))
  {
    assert (u + tail)[2..6] == u[2..];
  }

  /** A surrogate pair gives the code point of section 2.2 of RFC 2781. */
  lemma ReadsPair(u: Text, high: nat, v: Text, low: nat, tail: Text)
    requires IsUnit(u, high) && IsUnit(v, low) && |tail| > 0
    requires IsHighSurrogate(high) && IsLowSurrogate(low)
    ensures ReadEscape(u + v + tail) == Some(Escape(0x10000 + (high - 0xD800) * 0x400 + (low - 0xDC00), 12))
  {
    var s := u + v + tail;
    assert s[2..6] == u[2..] && s[8..12] == v[2..];
    assert s[6] == v[0] && s[7] == v[1];
  }

  /** A high surrogate that no escaped low surrogate follows is rejected. */
  lemma RejectsLoneHigh(u: Text, high: nat, tail: Text)
    requires IsUnit(u, high) && IsHighSurrogate(high)
    requires forall low :: IsLowSurrogate(low) ==> |tail| < 6 || !IsUnit(tail[..6], low)
    ensures ReadEscape(u + tail) == None
  {
    var s := u + tail;
    assert |s| > 6 ==> s[2..6] == u[2..];
    if |s| > 12 && s[6] == BACKSLASH && s[7] == LOWER_U && AllHex(s[8..12]) {
      var v := tail[..6];
      assert v[2..] == s[8..12] && v[0] == s[6] && v[1] == s[7];
      assert IsUnit(v, HexValue(s[8..12]));
    }
  }

  /** Every scalar value written as an escape comes out as its UTF-8 form. */
  lemma EscapeToUtf8(s: Text)
    requires ReadEscape(s).Some?
    ensures var cp := ReadEscape(s).value.codepoint;
      Decode(Encode(cp)) == Some(Decoded(cp, |Encode(cp)|))
  {
    var cp := ReadEscape(s).value.codepoint;
    EncodeDecodes(cp, []);
    assert Encode(cp) + [] == Encode(cp);
  }
}

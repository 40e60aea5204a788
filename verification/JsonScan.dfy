/**
 The scanning half of the parser in jsonRead/cJSON.c: white space, numbers and strings, as loops
 over the parse buffer that write into allocated memory.
 */
module JsonScan {
  import opened Bytes
  import opened Json
  import opened JsonNumber
  import opened JsonParse
  import JsonString
  import Utf8

  /** buffer_skip_whitespace: the offset moves to the next visible character, but never off the terminator. */
  method SkipWhitespace(content: Text, start: nat) returns (offset: nat)
    requires start < |content|
    ensures start <= offset < |content| && content[offset..] == SkipWs(content[start..])
  {
    offset := start;
    while offset < |content| && content[offset] <= 32
      invariant start <= offset <= |content|
      invariant SkipWs(content[start..]) == if offset < |content| then SkipWs(content[offset..])
        else content[|content| - 1..]
      decreases |content| - offset
    {
      assert content[offset..][1..] == content[offset + 1..];
      offset := offset + 1;
    }
    if offset == |content| {
      offset := offset - 1;
    }
  }

  /** The copying loop of parse_number. */
  method CopyNumber(content: Text, offset: nat) returns (numberCString: Text)
    requires offset < |content|
    ensures numberCString == Window(content[offset..])
  {
    hide Window;
    numberCString := [];
    var i := 0;
    while i < 63 && offset + i < |content| && IsNumberChar(content[offset + i])
      invariant i == |numberCString| <= 63 && offset + i <= |content|
      invariant numberCString + Window(content[offset + i..], 63 - i) == Window(content[offset..])
      decreases 63 - i
    {
      WindowStep(content, offset + i, 63 - i);
      numberCString := numberCString + [content[offset + i]];
      i := i + 1;
    }
    WindowStep(content, offset + i, 63 - i);
  }

  lemma WindowStep(content: Text, at: nat, room: nat)
    requires at <= |content|
    ensures room > 0 && at < |content| && IsNumberChar(content[at]) ==>
      Window(content[at..], room) == [content[at]] + Window(content[at + 1..], room - 1)
    ensures !(room > 0 && at < |content| && IsNumberChar(content[at])) ==> Window(content[at..], room) == []
  {
    if at < |content| {
      assert content[at..][1..] == content[at + 1..];
    }
  }

  /** The scanning pass steps over one character, or over two behind a backslash. */
  lemma ScanStep(content: Text, at: nat)
    requires at < |content| && content[at] != QUOTE
    ensures var n := if content[at] == BACKSLASH then 2 else 1; var r := JsonString.ScanEnd(content[at..]);
      if at + n > |content| then r.None?
      else
        var next := JsonString.ScanEnd(content[at + n..]);
        && (r.Some? <==> next.Some?)
        && (r.Some? ==> r.value == next.value + n)
        && (r.Some? ==> JsonString.Skipped(content[at..]) == n - 1 + JsonString.Skipped(content[at + n..]))
  {
    var s := content[at..];
    assert s[1..] == content[at + 1..];
    if at + 2 <= |content| {
      assert s[2..] == content[at + 2..];
    }
  }

  lemma ScanStop(content: Text, at: nat)
    requires at <= |content| && (at < |content| ==> content[at] == QUOTE)
    ensures var r := JsonString.ScanEnd(content[at..]);
      && (r.Some? <==> at < |content|)
      && (r.Some? ==> r.value == 0 && JsonString.Skipped(content[at..]) == 0)
  {
  }

  /** The scanning pass of parse_string: where the literal ends and how many backslashes are skipped. */
  method ScanLiteral(content: Text, start: nat) returns (end: nat, skipped: nat, ok: bool)
    requires start <= |content|
    ensures ok <==> JsonString.ScanEnd(content[start..]).Some?
    ensures ok ==>
      && end == start + JsonString.ScanEnd(content[start..]).value
      && skipped == JsonString.Skipped(content[start..])
  {
    hide JsonString.ScanEnd, JsonString.Skipped;
    end, skipped := start, 0;
    while end < |content| && content[end] != QUOTE
      invariant start <= end <= |content|
      invariant JsonString.ScanEnd(content[start..]).Some? <==> JsonString.ScanEnd(content[end..]).Some?
      invariant JsonString.ScanEnd(content[end..]).Some? ==>
        && start + JsonString.ScanEnd(content[start..]).value == end + JsonString.ScanEnd(content[end..]).value
        && JsonString.Skipped(content[start..]) == skipped + JsonString.Skipped(content[end..])
      decreases |content| - end
    {
      if content[end] == BACKSLASH {
        if end + 1 >= |content| {
          ScanStep(content, end);
          return end, skipped, false;
        }
        ScanStep(content, end);
        skipped := skipped + 1;
        end := end + 1;
      } else {
        ScanStep(content, end);
      }
      end := end + 1;
    }
    ScanStop(content, end);
    ok := end < |content|;
  }

  // ---------------------------------------------------------------- \u escapes

  /** parse_hex4. */
  method ParseHex4(input: Text, at: nat) returns (h: nat)
    requires at + 4 <= |input|
    ensures h == Utf8.Hex4(input[at..at + 4])
  {
    ghost var digits := input[at..at + 4];
    h := 0;
    var i := 0;
    while i < 4
      invariant 0 <= i <= 4
      invariant forall k :: 0 <= k < i ==> Utf8.HexDigit(digits[k]).Some?
      invariant h == Utf8.HexValue(digits[..i]) * (if i < 4 then 16 else 1)
      decreases 4 - i
    {
      var d := Utf8.HexDigit(input[at + i]);
      if d.None? {
        assert !Utf8.AllHex(digits);
        return 0;
      }
      assert digits[..i + 1][..i] == digits[..i];
      h := h + d.value;
      i := i + 1;
      if i < 4 {
        h := h * 16;
      }
    }
    assert digits[..4] == digits;
  }

  /** The lead mark of a sequence of the given length. */
  function LeadMark(length: nat): byte {
    if length == 2 then 0xC0 else if length == 3 then 0xE0 else 0xF0
  }

  /**
   The last part of utf16_literal_to_utf8: six bits at a time, from the last byte to the first.
   On the low byte of a code point, `| 0x80` and `& 0xBF` together are 0x80 + codepoint % 64.
   */
  method WriteUtf8(cp: nat, output: array<byte>, at: nat) returns (length: nat)
    requires cp <= 0x10FFFF && at + Utf8.EncodedLength(cp) <= output.Length
    modifies output
    ensures length == Utf8.EncodedLength(cp)
    ensures output[at..at + length] == Utf8.Encode(cp)
    ensures forall i :: 0 <= i < output.Length && !(at <= i < at + length) ==> output[i] == old(output[i])
  {
    length := Utf8.EncodedLength(cp);
    var codepoint, position := cp, length - 1;
    ghost var t := Utf8.Encode(cp);
    while position > 0
      invariant 0 <= position < length
      invariant codepoint == (var k := length - 1 - position; if k == 0 then cp else if k == 1 then cp / 64
        else if k == 2 then cp / 64 / 64 else cp / 64 / 64 / 64)
      invariant forall i :: position < i < length ==> output[at + i] == t[i]
      invariant forall i :: 0 <= i < output.Length && !(at <= i < at + length) ==> output[i] == old(output[i])
      decreases position
    {
      output[at + position] := 0x80 + codepoint % 64;
      codepoint := codepoint / 64;
      position := position - 1;
    }
    output[at] := if length > 1 then LeadMark(length) + codepoint else codepoint;
    assert forall i :: 0 <= i < length ==> output[at + i] == t[i];
    assert output[at..at + length] == t;
  }

  /**
   utf16_literal_to_utf8 on the escape at `at`, in front of the closing quote at `end`: the number
   of characters read, zero when the escape is rejected, and of bytes written.
   */
  method Utf16LiteralToUtf8(input: Text, at: nat, end: nat, output: array<byte>, to: nat)
    returns (sequenceLength: nat, written: nat)
    requires at < end < |input|
    requires var e := Utf8.ReadEscape(input[at..end + 1]);
      e.Some? ==> to + Utf8.EncodedLength(e.value.codepoint) <= output.Length
    modifies output
    ensures var e := Utf8.ReadEscape(input[at..end + 1]);
      if e.None? then sequenceLength == 0 && written == 0
      else sequenceLength == e.value.length && written == Utf8.EncodedLength(e.value.codepoint)
           && output[to..to + written] == Utf8.Encode(e.value.codepoint)
    ensures forall i :: 0 <= i < output.Length && !(to <= i < to + written) ==> output[i] == old(output[i])
  {
    hide Utf8.Hex4, Utf8.Encode;
    ghost var s := input[at..end + 1];
    if end - at < 6 {
      return 0, 0;
    }
    var first := ParseHex4(input, at + 2);
    SubSlice(input, at, end + 1, 2, 6);
    if 0xDC00 <= first <= 0xDFFF {
      return 0, 0;
    }
    var codepoint;
    if 0xD800 <= first <= 0xDBFF {
      if end - (at + 6) < 6 {
        return 0, 0;
      }
      if input[at + 6] != BACKSLASH || input[at + 7] != Utf8.LOWER_U {
        return 0, 0;
      }
      var second := ParseHex4(input, at + 8);
      SubSlice(input, at, end + 1, 8, 12);
      if second < 0xDC00 || second > 0xDFFF {
        return 0, 0;
      }
      sequenceLength := 12;
      codepoint := Utf8.Combine(first, second);
    } else {
      sequenceLength := 6;
      codepoint := first;
    }
    written := WriteUtf8(codepoint, output, to);
  }

  lemma SubSlice(input: Text, from: nat, to: nat, i: nat, j: nat)
    requires from <= to <= |input| && i <= j <= to - from
    ensures input[from..to][i..j] == input[from + i..from + j]
  {
    assert forall k :: 0 <= k < j - i ==> input[from..to][i..j][k] == input[from + i..from + j][k];
  }

  /** One turn of the decoding loop: characters read, zero on failure, and bytes written. */
  method DecodePiece(input: Text, at: nat, end: nat, output: array<byte>, to: nat) returns (read: nat, written: nat)
    requires at < end < |input|
    requires var p := JsonString.NextPiece(input[at..end + 1]); p.Some? ==> to + |p.value.output| <= output.Length
    modifies output
    ensures var p := JsonString.NextPiece(input[at..end + 1]);
      if p.None? then read == 0
      else read == p.value.length && written == |p.value.output| && output[to..to + written] == p.value.output
    ensures forall i :: 0 <= i < to && i < output.Length ==> output[i] == old(output[i])
  {
    hide Utf8.ReadEscape, Utf8.Encode;
    if input[at] != BACKSLASH {
      output[to] := input[at];
      return 1, 1;
    }
    var c := input[at + 1];
    if c == Utf8.LOWER_U {
      read, written := Utf16LiteralToUtf8(input, at, end, output, to);
      return;
    }
    var plain := JsonString.ReadShort(c);
    if plain.None? {
      return 0, 0;
    }
    output[to] := plain.value;
    return 2, 1;
  }

  /**
   The decoding loop of parse_string, from the first character of the body to the closing quote.
   The output has the room the scanning pass has estimated, whatever the body.
   */
  method DecodeLiteral(input: Text, start: nat, end: nat, output: array<byte>) returns (ok: bool, length: nat)
    requires start <= end < |input| && JsonString.ScanEnd(input[start..]) == Some(end - start)
    requires output.Length == JsonString.Allocation(input[start..])
    modifies output
    ensures var t := JsonString.Decode(input[start..end + 1]);
      && (ok <==> t.Some?)
      && (ok ==> length == |t.value| < output.Length && output[..length] == t.value)
  {
    hide JsonString.NextPiece, JsonString.ScanEnd, JsonString.Decode, JsonString.Tracks, JsonString.Room;
    var at: nat, to: nat := start, 0;
    ghost var whole := input[start..end + 1];
    ghost var inStep := true;
    StartsInStep(input, start, end);
    JsonString.PrependTwice([], [], JsonString.Decode(whole));
    assert output[..0] == [];
    while at < end
      invariant start <= at <= end + 1 && to <= output.Length
      invariant JsonString.Tracks(input[at..end + 1], inStep)
      invariant to + JsonString.Room(input[at..end + 1], inStep) + 2 <= output.Length
      invariant JsonString.Decode(whole) == JsonString.Prepend(output[..to], JsonString.Decode(input[at..end + 1]))
      decreases end + 1 - at
    {
      ghost var u := input[at..end + 1];
      ghost var done := output[..to];
      ghost var next;
      var read, written := 0, 0;
      DecodeStep(u);
      if JsonString.NextPiece(u).Some? {
        next := JsonString.PieceFits(u, inStep);
      }
      read, written := DecodePiece(input, at, end, output, to);
      if read == 0 {
        return false, to;
      }
      assert u[read..] == input[at + read..end + 1];
      ghost var piece := JsonString.NextPiece(u).value.output;
      assert output[..to + written] == done + piece;
      JsonString.PrependTwice(done, piece, JsonString.Decode(u[read..]));
      at, to, inStep := at + read, to + written, next;
    }
    DecodeEnd(input[at..end + 1]);
    ok, length := true, to;
    assert output[..to] + [] == output[..to];
  }

  lemma DecodeStep(u: Text)
    requires |u| >= 2
    ensures var p := JsonString.NextPiece(u);
      JsonString.Decode(u) == if p.None? then None else JsonString.Prepend(p.value.output,
        JsonString.Decode(u[p.value.length..]))
  {
  }

  lemma DecodeEnd(u: Text)
    requires |u| <= 1
    ensures JsonString.Decode(u) == Some([])
  {
  }

  lemma StartsInStep(input: Text, start: nat, end: nat)
    requires start <= end < |input| && JsonString.ScanEnd(input[start..]) == Some(end - start)
    ensures JsonString.Tracks(input[start..end + 1], true)
    ensures JsonString.Room(input[start..end + 1], true) + 2 == JsonString.Allocation(input[start..])
  {
    JsonString.ScanEndOfPrefix(input[start..]);
    JsonString.UnitsAreEstimate(input[start..]);
    assert input[start..][..end - start + 1] == input[start..end + 1];
  }
}

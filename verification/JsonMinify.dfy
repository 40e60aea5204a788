/**
 cJSON_Minify: what it leaves of a text, and the loop that rewrites the text in place.
 */
module JsonMinify {
  import opened Bytes
  import opened Json
  import opened JsonString
  import opened JsonParse

  predicate IsBlank(c: byte) {
    c == SPACE || c == TAB || c == CR || c == LF
  }

  /** Where a line comment ends: in front of the line feed or the terminator. */
  function LineEnd(s: Text): (n: nat)
    ensures n <= |s|
    ensures n < |s| ==> s[n] == LF || s[n] == NUL
  {
    if s == [] || s[0] == NUL || s[0] == LF then 0 else 1 + LineEnd(s[1..])
  }

  /** Where the first star-slash or the terminator is. */
  function BlockEnd(s: Text): (n: nat)
    ensures n <= |s|
    ensures n < |s| ==> s[n] == NUL || (s[n] == STAR && n + 1 < |s| && s[n + 1] == SLASH)
  {
    if s == [] || s[0] == NUL || (s[0] == STAR && |s| > 1 && s[1] == SLASH) then 0 else 1 + BlockEnd(s[1..])
  }

  /** The kinds of things the loop steps over. */
  datatype Chunk = End | Dropped(length: nat) | Kept(length: nat) | Runaway

  /** What stands at the head of s; Runaway is a comment or string without an end. */
  function Head(s: Text): (c: Chunk)
    ensures c.Dropped? || c.Kept? ==> 1 <= c.length <= |s|
  {
    if s == [] || s[0] == NUL then End
    else if IsBlank(s[0]) then Dropped(1)
    else if s[0] == SLASH && |s| > 1 && s[1] == SLASH then Dropped(2 + LineEnd(s[2..]))
    else if s[0] == SLASH && |s| > 1 && s[1] == STAR then
      var n := BlockEnd(s[1..]);
      if 1 + n < |s| && s[1 + n] == STAR then Dropped(1 + n + 2) else Runaway
    else if s[0] == QUOTE then
      var e := ScanEnd(s[1..]);
      if e.Some? then Kept(1 + e.value + 1) else Runaway
    else Kept(1)
  }

  /** No comment or string is left open. */
  predicate Closed(s: Text) {
    match Head(s)
    case End => true
    case Dropped(n) => Closed(s[n..])
    case Kept(n) => Closed(s[n..])
    case Runaway => false
  }

  /** What is left of a zero-terminated text, terminator included. */
  function Strip(s: Text): Text {
    match Head(s)
    case End => s
    case Dropped(n) => Strip(s[n..])
    case Kept(n) => s[..n] + Strip(s[n..])
    case Runaway => s
  }

  // ---------------------------------------------------------------- the loop, in place

  lemma StripUnfold(s: Text)
    ensures var c := Head(s);
      && (c.Dropped? ==> Strip(s) == Strip(s[c.length..]) && (Closed(s) <==> Closed(s[c.length..])))
      && (c.Kept? ==> Strip(s) == s[..c.length] + Strip(s[c.length..]) && (Closed(s) <==> Closed(s[c.length..])))
  {
    hide Head;
  }

  lemma SliceTwice(s: Text, r: nat, n: nat)
    requires r + n <= |s|
    ensures s[r..][n..] == s[r + n..] && s[r..][..n] == s[r..r + n]
  {
  }

  lemma StepOver(s: Text, r: nat)
    requires r < |s|
    ensures var c := Head(s[r..]);
      && (c.Dropped? ==> Strip(s[r..]) == Strip(s[r + c.length..]) && (Closed(s[r..]) <==> Closed(s[r + c.length..])))
      && (c.Kept? ==> Strip(s[r..]) == s[r..r + c.length] + Strip(s[r + c.length..])
                      && (Closed(s[r..]) <==> Closed(s[r + c.length..])))
  {
    hide *;
    var c := Head(s[r..]);
    StripUnfold(s[r..]);
    if c.Dropped? || c.Kept? {
      SliceTwice(s, r, c.length);
    }
  }

  lemma HeadIs(s: Text)
    requires s != [] && s[0] != NUL
    ensures IsBlank(s[0]) ==> Head(s) == Dropped(1)
    ensures !IsBlank(s[0]) && s[0] != SLASH && s[0] != QUOTE ==> Head(s) == Kept(1)
    ensures s[0] == QUOTE && ScanEnd(s[1..]).Some? ==> Head(s) == Kept(ScanEnd(s[1..]).value + 2)
  {
    hide LineEnd, BlockEnd, ScanEnd;
  }

  /** The rest of the array still holds the source from position `from` on. */
  ghost predicate Unread(json: array<byte>, src: Text, from: nat)
    reads json
  {
    && from < |src| <= json.Length && Terminated(src)
    && forall i :: from <= i < |src| ==> json[i] == src[i]
  }

  /** The inner loop over a line comment. */
  method SkipLine(json: array<byte>, from: nat, ghost src: Text) returns (to: nat)
    requires Unread(json, src, from)
    ensures from <= to < |src| && to == from + LineEnd(src[from..])
  {
    hide LineEnd, CString;
    to := from;
    while json[to] != NUL && json[to] != LF
      invariant from <= to < |src|
      invariant from + LineEnd(src[from..]) == to + LineEnd(src[to..])
      decreases |src| - to
    {
      LineEndStep(src, to);
      to := to + 1;
    }
    LineEndStop(src, to);
  }

  lemma LineEndStep(src: Text, at: nat)
    requires at < |src| && src[at] != NUL && src[at] != LF
    ensures LineEnd(src[at..]) == 1 + LineEnd(src[at + 1..])
  {
    assert src[at..][1..] == src[at + 1..];
  }

  lemma LineEndStop(src: Text, at: nat)
    requires at < |src| && (src[at] == NUL || src[at] == LF)
    ensures LineEnd(src[at..]) == 0
  {
  }

  lemma BlockEndStep(src: Text, at: nat)
    requires at + 1 < |src| && src[at] != NUL && !(src[at] == STAR && src[at + 1] == SLASH)
    ensures BlockEnd(src[at..]) == 1 + BlockEnd(src[at + 1..])
  {
    assert src[at..][1..] == src[at + 1..];
  }

  lemma BlockEndStop(src: Text, at: nat)
    requires at < |src| && (src[at] == NUL || (at + 1 < |src| && src[at] == STAR && src[at + 1] == SLASH))
    ensures BlockEnd(src[at..]) == 0
  {
  }

  /** The inner loop over a block comment, up to its star or the terminator. */
  method SkipBlock(json: array<byte>, from: nat, ghost src: Text) returns (to: nat)
    requires Unread(json, src, from)
    ensures from <= to < |src| && to == from + BlockEnd(src[from..])
  {
    hide BlockEnd, CString;
    to := from;
    while json[to] != NUL && !(json[to] == STAR && json[to + 1] == SLASH)
      invariant from <= to < |src|
      invariant from + BlockEnd(src[from..]) == to + BlockEnd(src[to..])
      decreases |src| - to
    {
      BlockEndStep(src, to);
      to := to + 1;
    }
    BlockEndStop(src, to);
  }

  /** Where the literal whose body starts at f ends, or the length of the text. */
  ghost function LiteralEnd(src: Text, f: nat): (e: nat)
    requires f <= |src|
    ensures f <= e <= |src|
  {
    var e := ScanEnd(src[f..]);
    if e.Some? then f + e.value else |src|
  }

  lemma LiteralEndAt(src: Text, f: nat)
    requires f < |src| && LiteralEnd(src, f) < |src|
    ensures var e := LiteralEnd(src, f);
      && src[e] == QUOTE
      && (if src[f] == QUOTE then e == f
          else if src[f] == BACKSLASH then f + 2 <= e && LiteralEnd(src, f + 2) == e
          else f + 1 <= e && LiteralEnd(src, f + 1) == e)
  {
    assert src[f..][1..] == src[f + 1..];
    if f + 2 <= |src| {
      assert src[f..][2..] == src[f + 2..];
    }
  }

  /** Append the byte under the read cursor to a prefix followed by the source from `start` on. */
  method CopyByte(json: array<byte>, from: nat, into: nat, ghost prefix: Text, ghost src: Text, ghost start: nat)
    requires start <= from && into <= from && Unread(json, src, from)
    requires json[..into] == prefix + src[start..from]
    modifies json
    ensures json[..into + 1] == prefix + src[start..from + 1]
    ensures forall i :: into < i < json.Length ==> json[i] == old(json[i])
  {
    hide CString;
    ghost var done := json[..into];
    json[into] := json[from];
    assert json[..into + 1] == done + [src[from]];
    assert src[start..from + 1] == src[start..from] + [src[from]];
  }

  /** One turn of the loop over a literal: a backslash takes the next byte with it. */
  method CopyCharacter(json: array<byte>, from: nat, into: nat, ghost prefix: Text, ghost src: Text, ghost start: nat)
    returns (f: nat, t: nat)
    requires start <= from && into <= from && Unread(json, src, from)
    requires src[from] == BACKSLASH ==> from + 1 < |src|
    requires json[..into] == prefix + src[start..from]
    modifies json
    ensures f == from + (if src[from] == BACKSLASH then 2 else 1) && t == into + (f - from)
    ensures json[..t] == prefix + src[start..f]
    ensures forall i :: t <= i < json.Length ==> json[i] == old(json[i])
  {
    hide CString;
    f, t := from, into;
    if json[f] == BACKSLASH {
      CopyByte(json, f, t, prefix, src, start);
      f, t := f + 1, t + 1;
    }
    CopyByte(json, f, t, prefix, src, start);
    f, t := f + 1, t + 1;
  }

  /** The inner loop over a string literal, closing quote included. */
  method CopyString(json: array<byte>, from: nat, into: nat, ghost src: Text) returns (f: nat, t: nat)
    requires Unread(json, src, from) && into <= from && LiteralEnd(src, from + 1) < |src| - 1
    modifies json
    ensures f == LiteralEnd(src, from + 1) + 1 && t == into + (f - from)
    ensures json[..t] == old(json[..into]) + src[from..f]
    ensures forall i :: t <= i < json.Length ==> json[i] == old(json[i])
  {
    hide LiteralEnd, Terminated;
    ghost var prefix, end := json[..into], LiteralEnd(src, from + 1);
    assert prefix == prefix + src[from..from];
    CopyByte(json, from, into, prefix, src, from);
    f, t := from + 1, into + 1;
    while json[f] != NUL && json[f] != QUOTE
      invariant from < f <= end && t == into + (f - from)
      invariant LiteralEnd(src, f) == end
      invariant json[..t] == prefix + src[from..f]
      invariant forall i :: t <= i < json.Length ==> json[i] == old(json[i])
      decreases |src| - f
    {
      LiteralEndAt(src, f);
      f, t := CopyCharacter(json, f, t, prefix, src, from);
    }
    LiteralEndAt(src, f);
    NotNul(src, f);
    CopyByte(json, f, t, prefix, src, from);
    f, t := f + 1, t + 1;
  }

  lemma NotNul(src: Text, i: nat)
    requires Terminated(src) && i < |src| - 1
    ensures src[i] != NUL
  {
    assert src[..|src| - 1][i] != NUL;
  }

  lemma {:induction false} LineEndStops(s: Text)
    requires s != [] && s[|s| - 1] == NUL
    ensures LineEnd(s) < |s|
  {
    if s[0] != NUL && s[0] != LF {
      LineEndStops(s[1..]);
    }
  }

  /** One turn of the outer loop. */
  method Step(json: array<byte>, from: nat, into: nat, ghost src: Text) returns (f: nat, t: nat)
    requires Unread(json, src, from) && into <= from && json[from] != NUL && Closed(src[from..])
    modifies json
    ensures var head := Head(src[from..]);
      && (head.Dropped? || head.Kept?) && f == from + head.length && f < |src|
      && t == (if head.Kept? then into + head.length else into)
    ensures json[..t] == old(json[..into]) + src[from..from + (t - into)]
    ensures forall i :: t <= i < json.Length ==> json[i] == old(json[i])
  {
    hide ScanEnd, LineEnd, BlockEnd, LiteralEnd, Strip, CString;
    HeadInside(src[from..]);
    f, t := from, into;
    if json[f] == SPACE || json[f] == TAB || json[f] == CR || json[f] == LF {
      f := f + 1;
    } else if json[f] == SLASH && json[f + 1] == SLASH {
      LineEndAt(src, from);
      f := SkipLine(json, f, src);
    } else if json[f] == SLASH && json[f + 1] == STAR {
      BlockEndAt(src, from);
      f := SkipBlock(json, f, src);
      f := f + 2;
    } else if json[f] == QUOTE {
      StringHead(src, from);
      f, t := CopyString(json, f, t, src);
    } else {
      assert json[..t] == json[..t] + src[from..f];
      CopyByte(json, f, t, json[..t], src, from);
      f, t := f + 1, t + 1;
    }
  }

  /** A step never passes the terminator. */
  lemma HeadInside(s: Text)
    requires s != [] && s[|s| - 1] == NUL
    ensures Head(s).Dropped? || Head(s).Kept? ==> Head(s).length < |s|
  {
    if |s| > 2 {
      LineEndStops(s[2..]);
    }
  }

  lemma StringHead(src: Text, from: nat)
    requires from < |src| && src[from] == QUOTE && Head(src[from..]).Kept?
    ensures from + Head(src[from..]).length == LiteralEnd(src, from + 1) + 1
  {
    assert src[from..][1..] == src[from + 1..];
  }

  lemma LineEndAt(src: Text, from: nat)
    requires from + 1 < |src| && src[from] == src[from + 1] == SLASH
    ensures LineEnd(src[from..]) == 2 + LineEnd(src[from..][2..])
  {
    assert src[from..][1..][1..] == src[from..][2..];
  }

  lemma BlockEndAt(src: Text, from: nat)
    requires from < |src| && src[from] == SLASH
    ensures BlockEnd(src[from..]) == 1 + BlockEnd(src[from..][1..])
  {
  }

  /**
   cJSON_Minify. src is the text up to its first zero byte; with a comment or string left open the
   source runs past it. The write cursor never overtakes the read cursor.
   */
  method Minify(json: array<byte>, ghost src: Text)
    requires Terminated(src) && src <= json[..] && Closed(src)
    modifies json
    ensures |Strip(src)| <= |src|
    ensures json[..] == Strip(src) + old(json[..])[|Strip(src)|..]
  {
    hide Head, Strip, Closed, CString;
    ghost var all := json[..];
    var from, into := 0, 0;
    Joined(json[..0], src[0..0], Strip(src));
    assert src[0..] == src;
    while json[from] != NUL
      invariant 0 <= into <= from && Unread(json, src, from) && Closed(src[from..])
      invariant forall i :: into <= i < json.Length ==> json[i] == all[i]
      invariant json[..into] + Strip(src[from..]) == Strip(src)
      decreases |src| - from
    {
      ghost var written := json[..into];
      var f, t := Step(json, from, into, src);
      TurnText(src, from, f, t - into, written);
      from, into := f, t;
    }
    LastByte(src, from);
    ghost var written := json[..into];
    json[into] := NUL;
    Closing(json, written, all);
  }

  lemma Joined(a: Text, b: Text, c: Text)
    ensures (a + b) + c == a + (b + c)
    ensures a == [] ==> a + c == c
    ensures b == [] ==> b + c == c
  {
  }

  /** What a turn has written and what is still to be stripped. */
  lemma TurnText(src: Text, from: nat, f: nat, kept: nat, written: Text)
    requires from < |src| && Closed(src[from..])
    requires var head := Head(src[from..]);
      && (head.Dropped? || head.Kept?) && f == from + head.length <= |src|
      && kept == if head.Kept? then head.length else 0
    ensures (written + src[from..from + kept]) + Strip(src[f..]) == written + Strip(src[from..])
    ensures Closed(src[f..])
  {
    hide *;
    StepOver(src, from);
    Joined(written, src[from..from + kept], Strip(src[f..]));
  }

  /** The array after the terminator has been written. */
  lemma Closing(json: array<byte>, written: Text, all: Text)
    requires |written| < json.Length == |all| && json[..|written|] == written && json[|written|] == NUL
    requires forall i :: |written| < i < |all| ==> json[i] == all[i]
    ensures json[..] == (written + [NUL]) + all[|written| + 1..]
  {
  }

  lemma LastByte(src: Text, from: nat)
    requires from < |src| && Terminated(src) && src[from] == NUL
    ensures Strip(src[from..]) == [NUL] && from == |src| - 1
  {
    hide CString;
    if from < |src| - 1 {
      NotNul(src, from);
    }
    assert src[from..] == [NUL];
  }
}

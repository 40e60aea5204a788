/**
 What minifying leaves, piece by piece: blanks and comments go with all their text, literals and all
 other bytes stay, in order.
 */
module JsonPieces {
  import opened Bytes
  import opened Json
  import opened JsonString
  import opened JsonMinify
  import JsonGrammar
  import JsonAccepts
  import JsonLanguage

  datatype Piece =
    | Blank(c: byte)
    /** Two slashes and the rest of the line. */
    | LineComment(text: Text)
    /** A slash, a text, a star and a slash; the text starts with a star too, unless it is empty. */
    | BlockComment(text: Text)
    | Literal(body: Text)
    | Other(c: byte)

  predicate IsPiece(p: Piece) {
    match p
    case Blank(c) => c == 32 || c == 9 || c == 13 || c == 10
    case LineComment(t) => forall i :: 0 <= i < |t| ==> t[i] != 10
    case BlockComment(t) => (t != [] ==> t[0] == 42) && NoEnd(t + [42])
    case Literal(body) => JsonGrammar.Unclosed(body)
    case Other(c) => c != 32 && c != 9 && c != 13 && c != 10 && c != 34
  }

  /** No star with a slash behind it. */
  predicate NoEnd(t: Text) {
    forall i :: 0 <= i < |t| - 1 ==> !(t[i] == 42 && t[i + 1] == 47)
  }

  function PieceText(p: Piece): (t: Text)
    ensures t != []
  {
    match p
    case Blank(c) => [c]
    case LineComment(t) => [47, 47] + t
    case BlockComment(t) => [47] + (t + [42, 47])
    case Literal(body) => [34] + (body + [34])
    case Other(c) => [c]
  }

  /** A line comment goes on to the line feed or the end, and a slash on its own starts no comment. */
  predicate Fits(p: Piece, rest: Text) {
    match p
    case LineComment(_) => rest != [] ==> rest[0] == 10
    case Other(c) => c == 47 && rest != [] ==> rest[0] != 47 && rest[0] != 42
    case _ => true
  }

  predicate ArePieces(ps: seq<Piece>) {
    ps == [] || (IsPiece(ps[0]) && Fits(ps[0], PiecesText(ps[1..])) && ArePieces(ps[1..]))
  }

  function PiecesText(ps: seq<Piece>): Text {
    if ps == [] then [] else PieceText(ps[0]) + PiecesText(ps[1..])
  }

  /** Only literals and other bytes are kept. */
  function KeptText(ps: seq<Piece>): Text {
    if ps == [] then []
    else (if ps[0].Literal? || ps[0].Other? then PieceText(ps[0]) else []) + KeptText(ps[1..])
  }

  // ---------------------------------------------------------------- the head of a text

  lemma {:induction false} LineEndIs(t: Text, rest: Text)
    requires forall i :: 0 <= i < |t| ==> t[i] != LF && t[i] != NUL
    requires rest != [] && (rest[0] == LF || rest[0] == NUL)
    ensures LineEnd(t + rest) == |t|
    decreases |t|
  {
    if t == [] {
      assert t + rest == rest;
    } else {
      assert (t + rest)[1..] == t[1..] + rest;
      LineEndIs(t[1..], rest);
    }
  }

  lemma {:induction false} BlockEndIs(t: Text, rest: Text)
    requires NoEnd(t + [42]) && forall i :: 0 <= i < |t| ==> t[i] != NUL
    ensures BlockEnd(t + ([42, 47] + rest)) == |t|
    decreases |t|
  {
    var s := t + ([42, 47] + rest);
    if t == [] {
      assert s == [42, 47] + rest;
    } else {
      assert s[1..] == t[1..] + ([42, 47] + rest);
      assert (t + [42])[1..] == t[1..] + [42];
      assert s[0] == (t + [42])[0] && s[1] == (t + [42])[1];
      BlockEndIs(t[1..], rest);
    }
  }

  lemma LineHead(t: Text, rest: Text)
    requires IsPiece(LineComment(t)) && Fits(LineComment(t), rest) && CString(t)
    ensures Head(([47, 47] + t) + (rest + [NUL])) == Dropped(|t| + 2)
  {
    hide LineEnd, BlockEnd, ScanEnd;
    var s := ([47, 47] + t) + (rest + [NUL]);
    assert s[2..] == t + (rest + [NUL]);
    LineEndIs(t, rest + [NUL]);
  }

  lemma BlockHead(t: Text, rest: Text)
    requires IsPiece(BlockComment(t)) && CString(t)
    ensures Head(([47] + (t + [42, 47])) + (rest + [NUL])) == Dropped(|t| + 3)
  {
    hide LineEnd, BlockEnd, ScanEnd, NoEnd;
    var s := ([47] + (t + [42, 47])) + (rest + [NUL]);
    assert s[1..] == t + ([42, 47] + (rest + [NUL]));
    assert s[1] == STAR && s[1 + |t|] == STAR;
    BlockEndIs(t, rest + [NUL]);
  }

  lemma LiteralHead(body: Text, rest: Text)
    requires IsPiece(Literal(body))
    ensures Head(([34] + (body + [34])) + (rest + [NUL])) == Kept(|body| + 2)
  {
    hide LineEnd, BlockEnd, ScanEnd, JsonGrammar.Unclosed;
    var s := ([34] + (body + [34])) + (rest + [NUL]);
    assert s[1..] == body + ([QUOTE] + (rest + [NUL]));
    JsonAccepts.UnclosedScan(body, [QUOTE] + (rest + [NUL]));
  }

  /** Whether the source keeps a piece, and that it steps over all of it. */
  lemma HeadOfPiece(p: Piece, rest: Text)
    requires IsPiece(p) && Fits(p, rest) && CString(PieceText(p))
    ensures var n := |PieceText(p)|;
      Head(PieceText(p) + (rest + [NUL])) == if p.Literal? || p.Other? then Kept(n) else Dropped(n)
  {
    hide LineEnd, BlockEnd, ScanEnd, JsonGrammar.Unclosed, NoEnd;
    match p
    case Blank(c) =>
    case LineComment(t) =>
      CStringParts([47, 47], t);
      LineHead(t, rest);
    case BlockComment(t) =>
      CStringParts([47], t + [42, 47]);
      CStringParts(t, [42, 47]);
      BlockHead(t, rest);
    case Literal(body) => LiteralHead(body, rest);
    case Other(c) =>
      var s := PieceText(p) + (rest + [NUL]);
      assert PieceText(p)[0] == c && s[0] == c;
      assert rest != [] ==> s[1] == rest[0];
  }

  /** Minifying leaves the literals and the other bytes, in order. */
  lemma {:induction false} PiecesStripped(ps: seq<Piece>)
    requires ArePieces(ps) && CString(PiecesText(ps))
    ensures Closed(PiecesText(ps) + [NUL]) && Strip(PiecesText(ps) + [NUL]) == KeptText(ps) + [NUL]
    decreases |ps|
  {
    hide Head, Strip, Closed, IsPiece, Fits, PieceText;
    if ps == [] {
      OnlyTerminator();
      assert [] + [NUL] == [NUL];
    } else {
      var t, rest := PieceText(ps[0]), PiecesText(ps[1..]);
      CStringParts(t, rest);
      PiecesStripped(ps[1..]);
      HeadOfPiece(ps[0], rest);
      Regroup3(t, rest, [NUL]);
      StripUnfold(t + (rest + [NUL]));
      assert (t + (rest + [NUL]))[|t|..] == rest + [NUL] && (t + (rest + [NUL]))[..|t|] == t;
      Regroup3(t, KeptText(ps[1..]), [NUL]);
      assert [] + KeptText(ps[1..]) == KeptText(ps[1..]);
    }
  }

  lemma OnlyTerminator()
    ensures Closed([NUL]) && Strip([NUL]) == [NUL]
  {
  }

  lemma CStringParts(s: Text, t: Text)
    ensures CString(s + t) <==> CString(s) && CString(t)
  {
    assert forall i :: 0 <= i < |s| ==> (s + t)[i] == s[i];
    assert forall i :: 0 <= i < |t| ==> (s + t)[|s| + i] == t[i];
  }

  // ---------------------------------------------------------------- every text is made of pieces

  lemma {:induction false} BlockEndNone(s: Text)
    requires BlockEnd(s) < |s| && s[BlockEnd(s)] == STAR
    ensures NoEnd(s[..BlockEnd(s)] + [42])
    decreases |s|
  {
    var n := BlockEnd(s);
    if n > 0 {
      BlockEndNone(s[1..]);
      var t, u := s[..n] + [42], s[1..][..n - 1] + [42];
      assert t[1..] == u;
      forall i | 0 <= i < |t| - 1
        ensures !(t[i] == 42 && t[i + 1] == 47)
      {
        if i > 0 {
          assert t[i] == u[i - 1] && t[i + 1] == u[i];
        } else if n > 1 {
          assert t[1] == s[1];
        }
      }
    }
  }

  lemma {:induction false} LineEndPlain(s: Text)
    ensures forall i :: 0 <= i < LineEnd(s) ==> s[i] != LF && s[i] != NUL
    decreases |s|
  {
    if s != [] && s[0] != NUL && s[0] != LF {
      LineEndPlain(s[1..]);
    }
  }

  lemma TextOf(text: Text)
    requires CString(text)
    ensures var s := text + [NUL]; forall i :: 0 <= i < |text| ==> s[i] == text[i] != NUL
  {
  }

  lemma LineAt(text: Text) returns (p: Piece)
    requires |text| >= 2 && CString(text) && text[0] == text[1] == SLASH
    ensures IsPiece(p) && PieceText(p) <= text && Fits(p, text[|PieceText(p)|..])
    ensures |PieceText(p)| == Head(text + [NUL]).length
  {
    hide LineEnd, BlockEnd, ScanEnd;
    var s := text + [NUL];
    TextOf(text);
    HeadInside(s);
    var n := 2 + LineEnd(s[2..]);
    p := LineComment(text[2..n]);
    LineEndPlain(s[2..]);
    assert s[2..][..n - 2] == text[2..n] && s[2..][n - 2] == s[n];
    assert text[..n] == [47, 47] + text[2..n];
  }

  lemma BlockAt(text: Text) returns (p: Piece)
    requires |text| >= 2 && CString(text) && text[0] == SLASH && text[1] == STAR && Head(text + [NUL]).Dropped?
    ensures IsPiece(p) && PieceText(p) <= text && Fits(p, text[|PieceText(p)|..])
    ensures |PieceText(p)| == Head(text + [NUL]).length
  {
    hide LineEnd, BlockEnd, ScanEnd, NoEnd;
    var s := text + [NUL];
    TextOf(text);
    HeadInside(s);
    var m := BlockEnd(s[1..]);
    p := BlockComment(text[1..1 + m]);
    BlockEndNone(s[1..]);
    assert s[1..][..m] == text[1..1 + m];
    assert s[1..][m] == s[1 + m] && s[1..][m + 1] == s[2 + m];
    assert text[..m + 3] == [47] + (text[1..1 + m] + [42, 47]);
  }

  lemma LiteralAt(text: Text) returns (p: Piece)
    requires text != [] && CString(text) && text[0] == QUOTE && Head(text + [NUL]).Kept?
    ensures IsPiece(p) && PieceText(p) <= text && Fits(p, text[|PieceText(p)|..])
    ensures |PieceText(p)| == Head(text + [NUL]).length
  {
    hide LineEnd, BlockEnd, ScanEnd, JsonGrammar.Unclosed;
    var s := text + [NUL];
    TextOf(text);
    HeadInside(s);
    var e := ScanEnd(s[1..]).value;
    p := Literal(text[1..1 + e]);
    JsonLanguage.ScannedUnclosed(s[1..]);
    assert s[1..][..e] == text[1..1 + e] && s[1..][e] == s[1 + e];
    assert text[..e + 2] == [34] + (text[1..1 + e] + [34]);
  }

  /** What the loop steps over is a piece. */
  lemma PieceAt(text: Text) returns (p: Piece)
    requires text != [] && CString(text) && (Head(text + [NUL]).Dropped? || Head(text + [NUL]).Kept?)
    ensures IsPiece(p) && PieceText(p) <= text && Fits(p, text[|PieceText(p)|..])
    ensures |PieceText(p)| == Head(text + [NUL]).length
  {
    hide LineEnd, BlockEnd, ScanEnd, JsonGrammar.Unclosed, NoEnd;
    TextOf(text);
    var c := text[0];
    if IsBlank(c) {
      p := Blank(c);
    } else if |text| >= 2 && c == SLASH && text[1] == SLASH {
      p := LineAt(text);
    } else if |text| >= 2 && c == SLASH && text[1] == STAR {
      p := BlockAt(text);
    } else if c == QUOTE {
      p := LiteralAt(text);
    } else {
      p := Other(c);
    }
  }

  lemma ClosedHead(s: Text)
    requires Closed(s) && s != [] && s[0] != NUL
    ensures Head(s).Dropped? || Head(s).Kept?
  {
  }

  /** A text without an open comment or string is a list of pieces. */
  lemma {:induction false} PiecesOf(text: Text) returns (ps: seq<Piece>)
    requires CString(text) && Closed(text + [NUL])
    ensures ArePieces(ps) && PiecesText(ps) == text
    decreases |text|
  {
    hide Head, Strip, Closed, IsPiece, Fits, PieceText;
    if text == [] {
      ps := [];
    } else {
      var s := text + [NUL];
      ClosedHead(s);
      var p := PieceAt(text);
      var n := |PieceText(p)|;
      StripUnfold(s);
      assert s[n..] == text[n..] + [NUL];
      var more := PiecesOf(text[n..]);
      ps := [p] + more;
      assert ps[1..] == more && text == text[..n] + text[n..];
    }
  }
}

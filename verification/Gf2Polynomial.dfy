/**
 Polynomials over GF(2), as sequences of coefficients with the highest degree first, and
 their long division by a monic divisor.
 */
module Gf2Polynomial {

  type Poly = seq<bool>

  function Zeros(n: nat): (p: Poly)
    ensures |p| == n
  {
    seq(n, _ => false)
  }

  /** The sum of two polynomials. */
  function Add(p: Poly, q: Poly): (r: Poly)
    requires |p| == |q|
    ensures |r| == |p|
    ensures forall i :: 0 <= i < |r| ==> r[i] == (p[i] != q[i])
  {
    seq(|p|, i requires 0 <= i < |p| => p[i] != q[i])
  }

  /** Coefficient b times g times x to the n. */
  function Scaled(g: Poly, b: bool, n: nat): (p: Poly)
    ensures |p| == |g| + n
  {
    (if b then g else Zeros(|g|)) + Zeros(n)
  }

  /** The product of q and g. */
  function Times(q: Poly, g: Poly): (p: Poly)
    requires |g| > 0
    ensures |p| == |q| + |g| - 1
  {
    if q == [] then Zeros(|g| - 1) else Add(Scaled(g, q[0], |q| - 1), [false] + Times(q[1..], g))
  }

  /** q g + r, with r of lower degree than g. */
  function Combine(q: Poly, g: Poly, r: Poly): (p: Poly)
    requires |g| == |r| + 1
    ensures |p| == |q| + |r|
  {
    Add(Times(q, g), Zeros(|q|) + r)
  }

  lemma CombineHead(q: Poly, g: Poly, r: Poly)
    requires |g| == |r| + 1 && q != []
    ensures Combine(q, g, r) == Add(Scaled(g, q[0], |q| - 1), [false] + Combine(q[1..], g, r))
  {
    var s := Scaled(g, q[0], |q| - 1);
    var t := Times(q[1..], g);
    var z := Zeros(|q| - 1) + r;
    assert Zeros(|q|) + r == [false] + z;
    assert Times(q, g) == Add(s, [false] + t);
    AddShifted(s, t, z);
  }

  lemma AddShifted(s: Poly, t: Poly, z: Poly)
    requires |s| == |t| + 1 == |z| + 1
    ensures Add(Add(s, [false] + t), [false] + z) == Add(s, [false] + Add(t, z))
  {
  }

  lemma AddInjective(s: Poly, x: Poly, y: Poly)
    requires |s| == |x| + 1 == |y| + 1
    requires Add(s, [false] + x) == Add(s, [false] + y)
    ensures x == y
  {
    var l, r := Add(s, [false] + x), Add(s, [false] + y);
    forall i | 0 <= i < |x|
      ensures x[i] == y[i]
    {
      assert l[i + 1] == (s[i + 1] != x[i]) && r[i + 1] == (s[i + 1] != y[i]);
    }
  }

  lemma CombineNone(g: Poly, r: Poly)
    requires |g| == |r| + 1
    ensures Combine([], g, r) == r
  {
    var s := Combine([], g, r);
    assert forall i :: 0 <= i < |r| ==> s[i] == r[i];
  }

  lemma LeadingCoefficient(q: Poly, g: Poly, r: Poly)
    requires |g| == |r| + 1 && g[0] && q != []
    ensures Combine(q, g, r)[0] == q[0]
  {
    hide Combine, Add;
    CombineHead(q, g, r);
    assert Scaled(g, q[0], |q| - 1)[0] == q[0];
  }

  /** Quotient and remainder by a monic divisor are unique. */
  lemma {:induction false} RemainderUnique(g: Poly, q1: Poly, r1: Poly, q2: Poly, r2: Poly)
    requires |g| > 0 && g[0]
    requires |q1| == |q2| && |r1| == |r2| == |g| - 1
    requires Combine(q1, g, r1) == Combine(q2, g, r2)
    ensures q1 == q2 && r1 == r2
    decreases |q1|
  {
    hide Combine, Scaled, Add;
    if q1 == [] {
      CombineNone(g, r1);
      CombineNone(g, r2);
    } else {
      CombineHead(q1, g, r1);
      CombineHead(q2, g, r2);
      LeadingCoefficient(q1, g, r1);
      LeadingCoefficient(q2, g, r2);
      AddInjective(Scaled(g, q1[0], |q1| - 1), Combine(q1[1..], g, r1), Combine(q2[1..], g, r2));
      RemainderUnique(g, q1[1..], r1, q2[1..], r2);
      assert q1 == [q1[0]] + q1[1..] && q2 == [q2[0]] + q2[1..];
    }
  }

  // ---------------------------------------------------------------- division bit by bit

  /** The coefficient that is cancelled when bit b arrives at register r. */
  function QuotientBit(r: Poly, b: bool): bool
    requires |r| > 0
  {
    r[0] != b
  }

  /** Register r after one more bit of the message. */
  function FeedBit(r: Poly, b: bool, g: Poly): (p: Poly)
    requires |g| == |r| + 1 && |r| > 0
    ensures |p| == |r|
  {
    Add(r[1..] + [false], if QuotientBit(r, b) then g[1..] else Zeros(|r|))
  }

  function Feed(r: Poly, m: Poly, g: Poly): (p: Poly)
    requires |g| == |r| + 1 && |r| > 0
    ensures |p| == |r|
    decreases |m|
  {
    if m == [] then r else Feed(FeedBit(r, m[0], g), m[1..], g)
  }

  /** r(x) x^|m| + m(x) x^|r|: what is being divided while m is fed into register r. */
  function Dividend(r: Poly, m: Poly): (p: Poly)
    ensures |p| == |m| + |r|
  {
    Add(r + Zeros(|m|), m + Zeros(|r|))
  }

  lemma DivisionStep(r: Poly, m: Poly, g: Poly)
    requires |g| == |r| + 1 && |r| > 0 && g[0] && m != []
    ensures Dividend(r, m)
         == Add(Scaled(g, QuotientBit(r, m[0]), |m| - 1), [false] + Dividend(FeedBit(r, m[0], g), m[1..]))
  {
    var t := QuotientBit(r, m[0]);
    var s := Scaled(g, t, |m| - 1);
    var f := FeedBit(r, m[0], g);
    var d := Dividend(f, m[1..]);
    var left := Dividend(r, m);
    var right := Add(s, [false] + d);
    forall i | 0 <= i < |left|
      ensures left[i] == right[i]
    {
      if i > 0 {
        assert d[i - 1] == ((f + Zeros(|m| - 1))[i - 1] != (m[1..] + Zeros(|r|))[i - 1]);
        assert (m[1..] + Zeros(|r|))[i - 1] == (m + Zeros(|r|))[i];
      }
    }
  }

  /** Long division: what feeding m into register r leaves is the remainder of the dividend. */
  lemma {:induction false} Division(r: Poly, m: Poly, g: Poly) returns (q: Poly)
    requires |g| == |r| + 1 && |r| > 0 && g[0]
    ensures |q| == |m| && Dividend(r, m) == Combine(q, g, Feed(r, m, g))
    decreases |m|
  {
    if m == [] {
      q := [];
    } else {
      var rest := Division(FeedBit(r, m[0], g), m[1..], g);
      q := [QuotientBit(r, m[0])] + rest;
      assert q[1..] == rest;
      DivisionStep(r, m, g);
      CombineHead(q, g, Feed(r, m, g));
    }
  }
}

/** What fewer than threshold-many shares say: nothing. Any of them go with every secret, in exactly one way, and
after a refresh with every older share as well (`src/pss.rs`). */
module Secrecy {
  import opened Field
  import opened Polynomials
  import opened Shamir
  import opened Pss

  // ----- polynomials through given points

  /** The polynomial of degree below n with these values at these points. */
  function Through(g: Gf, xs: seq<Byte>, ys: seq<Byte>, n: nat): (p: Poly)
    requires |xs| == |ys| <= n
    ensures |p| == n
  {
    Padded(g, InterpolantFrom(g, xs, ys, 0), n)
  }

  lemma {:induction false} ThroughAt(g: Gf, xs: seq<Byte>, ys: seq<Byte>, n: nat, i: nat)
    requires Lawful(g) && |xs| == |ys| <= n && Distinct(xs) && i < |xs|
    ensures Eval(g, Through(g, xs, ys, n), xs[i]) == ys[i]
  {
    EvalPadding(g, InterpolantFrom(g, xs, ys, 0), n, xs[i]);
    EvalInterpolant(g, xs, ys, xs[i], 0);
    LagrangeAtNode(g, xs, ys, i, 0);
  }

  ghost predicate AllZero(p: Poly) {
    forall j :: 0 <= j < |p| ==> p[j] == 0
  }

  lemma {:induction false} ZeroQuotient(g: Gf, p: Poly, r: Byte)
    requires Lawful(g) && AllZero(Quotient(g, p, r)) && Eval(g, p, r) == 0
    ensures AllZero(p)
  {
    if p != [] {
      var rest := p[1..];
      if rest == [] {
        MulZero(g, r);
      } else {
        assert Quotient(g, p, r)[0] == Eval(g, rest, r) && Quotient(g, p, r)[1..] == Quotient(g, rest, r);
        ZeroQuotient(g, rest, r);
        MulZero(g, r);
      }
      Add(g, p[0], 0, 0);
      assert forall j :: 0 < j < |p| ==> p[j] == rest[j - 1];
    }
  }

  /** A polynomial with more roots than its degree is zero in every coefficient. */
  lemma {:induction false} ManyRoots(g: Gf, p: Poly, xs: seq<Byte>)
    requires Lawful(g) && |p| <= |xs| && Distinct(xs)
    requires forall i :: 0 <= i < |xs| ==> Eval(g, p, xs[i]) == 0
    ensures AllZero(p)
    decreases |xs|
  {
    if p != [] {
      var r, q := xs[0], Quotient(g, p, xs[0]);
      forall i | 0 <= i < |xs[1..]| ensures Eval(g, q, xs[1..][i]) == 0 {
        var s := xs[1..][i];
        assert s == xs[i + 1];
        Divide(g, p, r, s);
        Add(g, g.mul(g.add(s, r), Eval(g, q, s)), 0, 0);
        Cancel(g, s, r, 0);
        NoZeroDivisors(g, g.add(s, r), Eval(g, q, s));
      }
      ManyRoots(g, q, xs[1..]);
      ZeroQuotient(g, p, r);
    }
  }

  /** Two polynomials of degree below n that agree at n points have the same coefficients. */
  lemma {:induction false} SamePoly(g: Gf, p: Poly, q: Poly, xs: seq<Byte>)
    requires Lawful(g) && |p| == |q| <= |xs| && Distinct(xs)
    requires forall i :: 0 <= i < |xs| ==> Eval(g, p, xs[i]) == Eval(g, q, xs[i])
    ensures p == q
  {
    var d := AddPoly(g, p, q);
    forall i | 0 <= i < |xs| ensures Eval(g, d, xs[i]) == 0 {
      EvalAdd(g, p, q, xs[i]);
      Cancel(g, Eval(g, p, xs[i]), Eval(g, q, xs[i]), 0);
    }
    ManyRoots(g, d, xs);
    forall j | 0 <= j < |p| ensures p[j] == q[j] {
      assert d[j] == 0;
      Cancel(g, p[j], q[j], 0);
    }
  }

  lemma ShareByte(g: Gf, polys: seq<Poly>, x: Byte, k: nat)
    requires k < |polys|
    ensures ShareAt(g, polys, x)[k + 1] == Eval(g, polys[k], x)
  {
  }

  // ----- one dealing

  /** Shares of one length at distinct non-zero points, fewer than t of them. */
  ghost predicate Few(shares: seq<Bytes>, len: nat, t: nat) {
    |shares| < t && AllAsLong(shares, len + 1) && Distinct(Xs(shares)) && 0 !in Xs(shares)
  }

  /** The polynomial with this byte at zero and byte k of the shares at their points. */
  function Fitted(g: Gf, b: Byte, t: nat, shares: seq<Bytes>, k: nat): (p: Poly)
    requires |shares| < t && forall i :: 0 <= i < |shares| ==> |shares[i]| > k + 1
    ensures |p| == t
  {
    Through(g, [0] + Xs(shares), [b] + Column(shares, k), t)
  }

  lemma FittedFits(g: Gf, b: Byte, t: nat, shares: seq<Bytes>, len: nat, k: nat)
    requires Lawful(g) && Few(shares, len, t) && k < len
    ensures var p := Fitted(g, b, t, shares, k);
      p[0] == b && forall i :: 0 <= i < |shares| ==> Eval(g, p, shares[i][0]) == shares[i][k + 1]
  {
    var xs, ys, p := [0] + Xs(shares), [b] + Column(shares, k), Fitted(g, b, t, shares, k);
    ZeroApart(shares);
    ThroughAt(g, xs, ys, t, 0);
    EvalAtZero(g, p);
    forall i | 0 <= i < |shares| ensures Eval(g, p, shares[i][0]) == shares[i][k + 1] {
      ThroughAt(g, xs, ys, t, i + 1);
    }
  }

  lemma ZeroApart(shares: seq<Bytes>)
    requires AllPointed(shares) && Distinct(Xs(shares)) && 0 !in Xs(shares)
    ensures Distinct([0] + Xs(shares))
  {
    var xs := [0] + Xs(shares);
    forall i, j | 0 <= i < j < |xs| ensures xs[i] != xs[j] {
      assert xs[j] == Xs(shares)[j - 1];
    }
  }

  ghost predicate AllPointed(shares: seq<Bytes>) {
    forall i :: 0 <= i < |shares| ==> |shares[i]| >= 1
  }

  lemma FittedDealt(g: Gf, secret: Bytes, t: nat, shares: seq<Bytes>) returns (tape: Tape)
    requires Lawful(g) && Few(shares, |secret|, t)
    ensures forall k :: 0 <= k < |secret| ==> Dealer(secret, t, tape)[k] == Fitted(g, secret[k], t, shares, k)
  {
    tape := (k: nat, j: nat) =>
      if k < |secret| && j + 1 < t && |shares| < t && AllAsLong(shares, |secret| + 1)
      then Fitted(g, secret[k], t, shares, k)[j + 1] else 0;
    forall k | 0 <= k < |secret| ensures Dealer(secret, t, tape)[k] == Fitted(g, secret[k], t, shares, k) {
      FittedFits(g, secret[k], t, shares, |secret|, k);
      assert forall j :: 0 < j < t ==> Dealer(secret, t, tape)[k][j] == tape(k, j - 1);
    }
  }

  /** Fewer than t shares, whatever they are, come from a dealing of any secret of that length. */
  lemma AnySharesFit(g: Gf, secret: Bytes, t: nat, shares: seq<Bytes>) returns (tape: Tape)
    requires Lawful(g) && Few(shares, |secret|, t)
    ensures Genuine(g, Dealer(secret, t, tape), shares)
  {
    tape := FittedDealt(g, secret, t, shares);
    var polys := Dealer(secret, t, tape);
    forall i | 0 <= i < |shares| ensures shares[i] == ShareAt(g, polys, shares[i][0]) {
      var s := ShareAt(g, polys, shares[i][0]);
      forall k | 0 < k < |s| ensures s[k] == shares[i][k] {
        FittedFits(g, secret[k - 1], t, shares, |secret|, k - 1);
      }
      assert s == shares[i];
    }
  }

  /** And with t - 1 of them the dealing is the only one: shares below the threshold are as likely under each secret. */
  lemma FitIsUnique(g: Gf, secret: Bytes, t: nat, shares: seq<Bytes>, tape: Tape, other: Tape)
    requires Lawful(g) && Few(shares, |secret|, t) && |shares| == t - 1
    requires Genuine(g, Dealer(secret, t, tape), shares) && Genuine(g, Dealer(secret, t, other), shares)
    ensures Dealer(secret, t, tape) == Dealer(secret, t, other)
  {
    var p, q, xs := Dealer(secret, t, tape), Dealer(secret, t, other), [0] + Xs(shares);
    ZeroApart(shares);
    forall k | 0 <= k < |secret| ensures p[k] == q[k] {
      EvalAtZero(g, p[k]);
      EvalAtZero(g, q[k]);
      forall i | 0 <= i < |xs| ensures Eval(g, p[k], xs[i]) == Eval(g, q[k], xs[i]) {
        if i > 0 {
          assert shares[i - 1] == ShareAt(g, p, xs[i]) == ShareAt(g, q, xs[i]);
          ShareByte(g, p, xs[i], k);
          ShareByte(g, q, xs[i], k);
        }
      }
      SamePoly(g, p[k], q[k], xs);
    }
  }

  /** Fewer than t shares of one secret are shares of every other secret of that length. */
  lemma SharesHideSecret(g: Gf, secret: Bytes, another: Bytes, t: nat, tape: Tape, shares: seq<Bytes>)
    returns (cover: Tape)
    requires Lawful(g) && |another| == |secret| && |shares| < t && Genuine(g, Dealer(secret, t, tape), shares)
    requires Distinct(Xs(shares)) && 0 !in Xs(shares)
    ensures Genuine(g, Dealer(another, t, cover), shares)
  {
    cover := AnySharesFit(g, another, t, shares);
  }

  // ----- a refresh

  lemma Cross(g: Gf, o: Byte, d: Byte, e: Byte)
    requires Lawful(g)
    ensures g.add(g.add(o, d), g.add(d, e)) == g.add(o, e)
    ensures g.add(g.add(o, e), d) == g.add(g.add(o, d), e)
  {
    Add(g, o, d, g.add(d, e));
    Add(g, d, d, e);
    Add(g, e, 0, 0);
    Add(g, o, e, d);
    Add(g, e, d, 0);
    Add(g, o, d, e);
  }

  /** What each dealer's polynomial for byte k adds at x, and what the first i of them add up to. */
  function BlindsAt(g: Gf, t: nat, len: nat, draws: seq<Tape>, k: nat, x: Byte): (bs: seq<Byte>)
    requires 0 < t && k < len
    ensures |bs| == |draws|
  {
    seq<Byte>(|draws|, i requires 0 <= i < |draws| => Eval(g, Blinding(t, len, draws[i])[k], x))
  }

  function Total(g: Gf, bs: seq<Byte>, i: nat): Byte
    requires i <= |bs|
  {
    if i == 0 then 0 else g.add(Total(g, bs, i - 1), bs[i - 1])
  }

  /** The polynomials zs are the partial sums of bl, from zero, and the bytes bs the values of bl at x. */
  ghost predicate PartialSums(g: Gf, zs: seq<Poly>, bl: seq<Poly>, bs: seq<Byte>, x: Byte) {
    && |zs| == |bl| + 1 && |bs| == |bl| && Eval(g, zs[0], x) == 0
    && (forall i :: 0 <= i < |bl| ==> |zs[i]| == |bl[i]| && zs[i + 1] == AddPoly(g, zs[i], bl[i]))
    && (forall i :: 0 <= i < |bl| ==> bs[i] == Eval(g, bl[i], x))
  }

  lemma {:induction false} SumsEval(g: Gf, zs: seq<Poly>, bl: seq<Poly>, bs: seq<Byte>, x: Byte, i: nat)
    requires Lawful(g) && PartialSums(g, zs, bl, bs, x) && i <= |bl|
    ensures Eval(g, zs[i], x) == Total(g, bs, i)
  {
    if i > 0 {
      SumsEval(g, zs, bl, bs, x, i - 1);
      assert |zs[i - 1]| == |bl[i - 1]| && zs[i] == AddPoly(g, zs[i - 1], bl[i - 1]);
      EvalAdd(g, zs[i - 1], bl[i - 1], x);
    }
  }

  lemma SumIsTotal(g: Gf, draws: seq<Tape>, t: nat, len: nat, k: nat, x: Byte)
    requires Lawful(g) && 0 < t && k < len
    ensures Eval(g, BlindingSum(g, draws, t, len, |draws|)[k], x) == Total(g, BlindsAt(g, t, len, draws, k, x), |draws|)
  {
    var zs := seq<Poly>(|draws| + 1, i requires 0 <= i <= |draws| => BlindingSum(g, draws, t, len, i)[k]);
    var bl := seq<Poly>(|draws|, i requires 0 <= i < |draws| => Blinding(t, len, draws[i])[k]);
    EvalZeros(g, t, x);
    assert zs[0] == seq(t, _ => 0);
    SumsEval(g, zs, bl, BlindsAt(g, t, len, draws, k, x), x, |draws|);
  }

  lemma {:induction false} TotalMoves(g: Gf, bs: seq<Byte>, j: nat, b: Byte, i: nat)
    requires Lawful(g) && j < |bs| && i <= |bs|
    ensures Total(g, bs[j := b], i) == g.add(Total(g, bs, i), if j < i then g.add(bs[j], b) else 0)
  {
    Add(g, Total(g, bs, i), 0, 0);
    if i > 0 {
      TotalMoves(g, bs, j, b, i - 1);
      Add(g, Total(g, bs, i - 1), 0, 0);
      Cross(g, Total(g, bs, i - 1), bs[i - 1], if i - 1 == j then b else g.add(bs[j], b));
    }
  }

  lemma BlindsMove(g: Gf, draws: seq<Tape>, j: nat, tape: Tape, t: nat, len: nat, k: nat, x: Byte)
    requires j < |draws| && 0 < t && k < len
    ensures BlindsAt(g, t, len, draws[j := tape], k, x)
         == BlindsAt(g, t, len, draws, k, x)[j := Eval(g, Blinding(t, len, tape)[k], x)]
  {
  }

  /** Another draw of dealer j moves the sum by the difference of the two. */
  lemma SumMoves(g: Gf, draws: seq<Tape>, j: nat, tape: Tape, t: nat, len: nat, k: nat, x: Byte)
    requires Lawful(g) && j < |draws| && 0 < t && k < len
    ensures var bs := BlindsAt(g, t, len, draws, k, x);
      Eval(g, BlindingSum(g, draws[j := tape], t, len, |draws|)[k], x)
      == g.add(Total(g, bs, |bs|), g.add(bs[j], Eval(g, Blinding(t, len, tape)[k], x)))
  {
    SumIsTotal(g, draws[j := tape], t, len, k, x);
    BlindsMove(g, draws, j, tape, t, len, k, x);
    TotalMoves(g, BlindsAt(g, t, len, draws, k, x), j, Eval(g, Blinding(t, len, tape)[k], x), |draws|);
  }

  /** What dealer j must add at a point for the refreshed share there to be the wanted one. */
  function Missing(g: Gf, p: seq<Poly>, t: nat, draws: seq<Tape>, j: nat, wanted: Bytes): (s: Bytes)
    requires 0 < t && j < |draws| && |wanted| == |p| + 1
    ensures |s| == |p| + 1 && s[0] == wanted[0]
  {
    [wanted[0]] + seq<Byte>(|p|, k requires 0 <= k < |p| => MissingByte(g, p, t, draws, j, wanted, k))
  }

  function MissingByte(g: Gf, p: seq<Poly>, t: nat, draws: seq<Tape>, j: nat, wanted: Bytes, k: nat): Byte
    requires 0 < t && j < |draws| && |wanted| == |p| + 1 && k < |p|
  {
    var bs := BlindsAt(g, t, |p|, draws, k, wanted[0]);
    g.add(wanted[k + 1], g.add(Eval(g, p[k], wanted[0]), g.add(Total(g, bs, |bs|), bs[j])))
  }

  lemma Undo(g: Gf, a: Byte, s: Byte, b: Byte, w: Byte)
    requires Lawful(g)
    ensures g.add(a, g.add(s, g.add(b, g.add(w, g.add(a, g.add(s, b)))))) == w
  {
    var c := g.add(a, g.add(s, b));
    Add(g, s, b, g.add(w, c));
    Add(g, a, g.add(s, b), g.add(w, c));
    Add(g, c, g.add(w, c), 0);
    Add(g, w, c, c);
    Add(g, c, 0, 0);
    Add(g, w, 0, 0);
  }

  lemma {:induction false} MissingFits(g: Gf, p: seq<Poly>, t: nat, draws: seq<Tape>, j: nat, tape: Tape, wanted: Bytes, k: nat)
    requires Lawful(g) && 0 < t && j < |draws| && |wanted| == |p| + 1 && k < |p| && |p[k]| == t
    requires Eval(g, Blinding(t, |p|, tape)[k], wanted[0]) == MissingByte(g, p, t, draws, j, wanted, k)
    ensures g.add(Eval(g, p[k], wanted[0]), Eval(g, BlindingSum(g, draws[j := tape], t, |p|, |draws|)[k], wanted[0]))
         == wanted[k + 1]
  {
    var bs := BlindsAt(g, t, |p|, draws, k, wanted[0]);
    SumMoves(g, draws, j, tape, t, |p|, k, wanted[0]);
    Undo(g, Eval(g, p[k], wanted[0]), Total(g, bs, |bs|), bs[j], wanted[k + 1]);
  }

  lemma MissingIs(g: Gf, p: seq<Poly>, t: nat, draws: seq<Tape>, j: nat, polys: seq<Poly>, wanted: Bytes, k: nat)
    requires 0 < t && j < |draws| && |wanted| == |p| + 1 && k < |p| == |polys|
    requires Missing(g, p, t, draws, j, wanted) == ShareAt(g, polys, wanted[0])
    ensures Eval(g, polys[k], wanted[0]) == MissingByte(g, p, t, draws, j, wanted, k)
  {
    ShareByte(g, polys, wanted[0], k);
    assert Missing(g, p, t, draws, j, wanted)[k + 1] == MissingByte(g, p, t, draws, j, wanted, k);
  }

  lemma {:induction false} RefreshedByte(g: Gf, p: seq<Poly>, t: nat, draws: seq<Tape>, j: nat, tape: Tape,
                                         wanted: Bytes, k: nat)
    requires Lawful(g) && 0 < t && j < |draws| && |wanted| == |p| + 1 && k < |p| && forall l :: 0 <= l < |p| ==> |p[l]| == t
    requires Missing(g, p, t, draws, j, wanted) == ShareAt(g, Blinding(t, |p|, tape), wanted[0])
    ensures ShareAt(g, RefreshedPolys(g, p, t, draws[j := tape]), wanted[0])[k + 1] == wanted[k + 1]
  {
    var x, more := wanted[0], draws[j := tape];
    MissingIs(g, p, t, draws, j, Blinding(t, |p|, tape), wanted, k);
    MissingFits(g, p, t, draws, j, tape, wanted, k);
    EvalAdd(g, p[k], BlindingSum(g, more, t, |p|, |draws|)[k], x);
    ShareByte(g, RefreshedPolys(g, p, t, more), x, k);
  }

  lemma {:induction false} RefreshedIsWanted(g: Gf, p: seq<Poly>, t: nat, draws: seq<Tape>, j: nat, tape: Tape, wanted: Bytes)
    requires Lawful(g) && 0 < t && j < |draws| && |wanted| == |p| + 1 && forall k :: 0 <= k < |p| ==> |p[k]| == t
    requires Missing(g, p, t, draws, j, wanted) == ShareAt(g, Blinding(t, |p|, tape), wanted[0])
    ensures wanted == ShareAt(g, RefreshedPolys(g, p, t, draws[j := tape]), wanted[0])
  {
    var s := ShareAt(g, RefreshedPolys(g, p, t, draws[j := tape]), wanted[0]);
    forall i | 0 < i < |s| ensures s[i] == wanted[i] {
      RefreshedByte(g, p, t, draws, j, tape, wanted, i - 1);
    }
    assert s == wanted;
  }

  /** After a refresh fewer than t new shares can be anything at all, whatever was dealt before and whatever the other
  survivors drew: for each survivor some draw of its own leads to them. So old shares, even all of them, say nothing
  about fewer than t new ones, nor these about those. */
  lemma RefreshHidesShares(g: Gf, p: seq<Poly>, t: nat, draws: seq<Tape>, j: nat, wanted: seq<Bytes>)
    returns (tape: Tape)
    requires Lawful(g) && 0 < t && j < |draws| && (forall k :: 0 <= k < |p| ==> |p[k]| == t) && Few(wanted, |p|, t)
    ensures Genuine(g, RefreshedPolys(g, p, t, draws[j := tape]), wanted)
  {
    var missing := seq<Bytes>(|wanted|, i requires 0 <= i < |wanted| => Missing(g, p, t, draws, j, wanted[i]));
    assert Xs(missing) == Xs(wanted);
    tape := AnySharesFit(g, Zeros(|p|), t, missing);
    forall i | 0 <= i < |wanted|
      ensures wanted[i] == ShareAt(g, RefreshedPolys(g, p, t, draws[j := tape]), wanted[i][0])
    {
      assert missing[i] == ShareAt(g, Blinding(t, |p|, tape), missing[i][0]);
      RefreshedIsWanted(g, p, t, draws, j, tape, wanted[i]);
    }
  }
}

/** Threshold sharing of a byte string: one polynomial per byte, a share is the
evaluation point followed by the values, and recovery interpolates at zero. */
module Shamir {
  import opened Errors
  import opened Field
  import opened Polynomials

  /** `Share::try_from` accepts a point and at least one value. */
  predicate Parses(raw: Bytes) { |raw| >= 2 }

  predicate AllParse(shares: seq<Bytes>) {
    forall i :: 0 <= i < |shares| ==> |shares[i]| >= 2
  }

  /** One polynomial of degree below t per byte of the secret, with that byte at zero. */
  ghost predicate Deals(polys: seq<Poly>, t: nat, secret: Bytes) {
    && |polys| == |secret|
    && forall k :: 0 <= k < |polys| ==> |polys[k]| == t && 0 < t && polys[k][0] == secret[k]
  }

  /** The coefficients above the constant term that one dealing draws: byte, then power. */
  type Tape = (nat, nat) -> Byte

  function Dealer(secret: Bytes, t: nat, tape: Tape): (polys: seq<Poly>)
    requires 0 < t
    ensures Deals(polys, t, secret)
  {
    seq<Poly>(|secret|, k requires 0 <= k < |secret| => [secret[k]] + seq<Byte>(t - 1, j requires 0 <= j => tape(k, j)))
  }

  function ShareAt(g: Gf, polys: seq<Poly>, x: Byte): (s: Bytes)
    ensures |s| == |polys| + 1 && s[0] == x
  {
    [x] + seq<Byte>(|polys|, k requires 0 <= k < |polys| => Eval(g, polys[k], x))
  }

  /** The dealer hands out the points 1, 2, ..., 255 in this order. */
  function Point(i: nat): Byte
    requires i < 255
  {
    i + 1
  }

  function Xs(shares: seq<Bytes>): (xs: seq<Byte>)
    requires forall i :: 0 <= i < |shares| ==> |shares[i]| >= 1
    ensures |xs| == |shares|
  {
    seq<Byte>(|shares|, i requires 0 <= i < |shares| => shares[i][0])
  }

  /** The values the shares hold for byte k of the secret. */
  function Column(shares: seq<Bytes>, k: nat): (ys: seq<Byte>)
    requires forall i :: 0 <= i < |shares| ==> |shares[i]| > k + 1
    ensures |ys| == |shares|
  {
    seq<Byte>(|shares|, i requires 0 <= i < |shares| => shares[i][k + 1])
  }

  function Points(shares: seq<Bytes>): set<Byte>
    requires forall i :: 0 <= i < |shares| ==> |shares[i]| >= 1
  {
    set i | 0 <= i < |shares| :: shares[i][0]
  }

  predicate AllAsLong(shares: seq<Bytes>, n: nat) {
    forall i :: 0 <= i < |shares| ==> |shares[i]| == n
  }

  /** `Sharks(t).recover`: equal lengths, at least t distinct points, then Lagrange at
  zero through every share given. */
  function Recover(g: Gf, t: nat, shares: seq<Bytes>): Result<Bytes>
    requires AllParse(shares)
  {
    if shares == [] || !AllAsLong(shares, |shares[0]|) || |Points(shares)| < t then Err(QuorumNotMet)
    else Ok(seq<Byte>(|shares[0]| - 1, k requires 0 <= k < |shares[0]| - 1 =>
              Lagrange(g, Xs(shares), Column(shares, k), 0)))
  }

  /** Every share is the value of these polynomials at its own point. */
  ghost predicate Genuine(g: Gf, polys: seq<Poly>, shares: seq<Bytes>) {
    forall i :: 0 <= i < |shares| ==> |shares[i]| >= 1 && shares[i] == ShareAt(g, polys, shares[i][0])
  }

  lemma {:induction false} DistinctPoints(shares: seq<Bytes>)
    requires forall i :: 0 <= i < |shares| ==> |shares[i]| >= 1
    requires Distinct(Xs(shares))
    ensures |Points(shares)| == |shares|
  {
    if shares != [] {
      var n := |shares| - 1;
      var front := shares[..n];
      assert Xs(front) == Xs(shares)[..n];
      DistinctPoints(front);
      forall i | 0 <= i < n ensures front[i][0] != shares[n][0] {
        assert Xs(shares)[i] != Xs(shares)[n];
      }
      assert forall i :: 0 <= i < n ==> front[i] == shares[i];
      assert Points(shares) == Points(front) + {shares[n][0]};
    }
  }

  /** Any t or more genuine shares at distinct points give the secret back. */
  lemma RecoverGenuine(g: Gf, polys: seq<Poly>, t: nat, secret: Bytes, shares: seq<Bytes>)
    requires Lawful(g) && Deals(polys, t, secret) && secret != [] && 0 < t
    requires Genuine(g, polys, shares) && |shares| >= t && Distinct(Xs(shares))
    ensures Recover(g, t, shares) == Ok(secret)
  {
    DistinctPoints(shares);
    var r := Recover(g, t, shares).value;
    forall k | 0 <= k < |secret| ensures r[k] == secret[k] {
      LagrangeIsEval(g, polys[k], Xs(shares), Column(shares, k), 0);
      EvalAtZero(g, polys[k]);
    }
    assert r == secret;
  }

  /** Shares give something back exactly if there are any, they are equally long and at least t points differ; shares
  at the same point count once. */
  lemma RecoverIff(g: Gf, t: nat, shares: seq<Bytes>)
    requires AllParse(shares)
    ensures Recover(g, t, shares).Ok? <==>
      shares != [] && AllAsLong(shares, |shares[0]|) && t <= |set x | x in Xs(shares)|
    ensures Recover(g, t, shares).Err? ==> Recover(g, t, shares).error == QuorumNotMet
    ensures Distinct(Xs(shares)) ==> |set x | x in Xs(shares)| == |shares|
  {
    var xs := set x | x in Xs(shares);
    forall x | x in xs ensures x in Points(shares) {
      var i :| 0 <= i < |shares| && Xs(shares)[i] == x;
      assert x == shares[i][0];
    }
    forall x | x in Points(shares) ensures x in xs {
      var i :| 0 <= i < |shares| && shares[i][0] == x;
      assert x == Xs(shares)[i];
    }
    assert xs == Points(shares);
    if Distinct(Xs(shares)) {
      DistinctPoints(shares);
    }
  }
}

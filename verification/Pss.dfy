/** Proactive refresh of Shamir shares (`src/pss.rs`): every survivor deals a polynomial
with constant term zero, and every share absorbs all of them. */
module Pss {
  import opened Errors
  import opened Field
  import opened Polynomials
  import opened Shamir

  // ----- adding shares

  predicate Addable(a: Bytes, b: Bytes) {
    |a| >= 2 && |a| == |b| && a[0] == b[0]
  }

  function AddShares(g: Gf, a: Bytes, b: Bytes): Result<Bytes> {
    if !Addable(a, b) then Err(ShareShapeMismatch)
    else Ok([a[0]] + seq<Byte>(|a| - 1, k requires 0 <= k < |a| - 1 => g.add(a[k + 1], b[k + 1])))
  }

  function AddPolys(g: Gf, p: seq<Poly>, q: seq<Poly>): (r: seq<Poly>)
    requires |p| == |q| && forall k :: 0 <= k < |p| ==> |p[k]| == |q[k]|
    ensures |r| == |p| && forall k :: 0 <= k < |p| ==> |r[k]| == |p[k]|
  {
    seq<Poly>(|p|, k requires 0 <= k < |p| => AddPoly(g, p[k], q[k]))
  }

  /** Adding shares at one point adds the polynomials behind them. */
  lemma AddSharesIsAddPolys(g: Gf, p: seq<Poly>, q: seq<Poly>, x: Byte)
    requires Lawful(g) && p != [] && |p| == |q| && forall k :: 0 <= k < |p| ==> |p[k]| == |q[k]|
    ensures AddShares(g, ShareAt(g, p, x), ShareAt(g, q, x)) == Ok(ShareAt(g, AddPolys(g, p, q), x))
  {
    var s := AddShares(g, ShareAt(g, p, x), ShareAt(g, q, x)).value;
    var r := ShareAt(g, AddPolys(g, p, q), x);
    forall k | 0 <= k < |s| ensures s[k] == r[k] {
      if k > 0 {
        EvalAdd(g, p[k - 1], q[k - 1], x);
      }
    }
    assert s == r;
  }

  /** Shares are added exactly if they are equally long, have a value and lie at one point; adding a share twice
  changes nothing. */
  lemma AddSharesUndo(g: Gf, a: Bytes, b: Bytes)
    requires Lawful(g)
    ensures AddShares(g, a, b).Ok? <==> |a| == |b| >= 2 && a[0] == b[0]
    ensures AddShares(g, a, b).Err? ==> AddShares(g, a, b).error == ShareShapeMismatch
    ensures AddShares(g, a, b).Ok? ==> AddShares(g, AddShares(g, a, b).value, b) == Ok(a)
  {
    if AddShares(g, a, b).Ok? {
      var s := AddShares(g, AddShares(g, a, b).value, b).value;
      forall k | 0 < k < |a| ensures s[k] == a[k] {
        Add(g, a[k], b[k], b[k]);
        Add(g, a[k], 0, 0);
        Add(g, b[k], 0, 0);
      }
      assert s == a;
    }
  }

  lemma AddPolysDeals(g: Gf, p: seq<Poly>, q: seq<Poly>, t: nat, secret: Bytes, zeros: Bytes)
    requires Lawful(g) && Deals(p, t, secret) && Deals(q, t, zeros) && |secret| == |zeros|
    requires forall k :: 0 <= k < |zeros| ==> zeros[k] == 0
    ensures Deals(AddPolys(g, p, q), t, secret)
  {
    forall k | 0 <= k < |secret| ensures AddPolys(g, p, q)[k][0] == secret[k] {
      Add(g, secret[k], 0, 0);
    }
  }

  // ----- the point check

  method RequireDistinctNonzeroXs(xs: seq<Byte>) returns (ok: bool)
    ensures ok <==> Distinct(xs) && 0 !in xs
  {
    var seen: set<Byte> := {};
    var i := 0;
    while i < |xs|
      invariant 0 <= i <= |xs|
      invariant Distinct(xs[..i]) && 0 !in xs[..i]
      invariant forall x :: x in seen <==> x in xs[..i]
    {
      if xs[i] == 0 || xs[i] in seen {
        assert xs[i] in seen ==> exists j :: 0 <= j < i && xs[..i][j] == xs[i];
        return false;
      }
      seen := seen + {xs[i]};
      assert xs[..i + 1] == xs[..i] + [xs[i]];
      i := i + 1;
    }
    assert xs[..i] == xs;
    return true;
  }

  // ----- one survivor's blinding polynomial

  /** The share of these polynomials at every one of the points. */
  function SharesAt(g: Gf, xs: seq<Byte>, polys: seq<Poly>): map<Byte, Bytes> {
    map x | x in xs :: ShareAt(g, polys, x)
  }

  function Zeros(n: nat): (z: Bytes)
    ensures |z| == n && forall k :: 0 <= k < n ==> z[k] == 0
  {
    seq<Byte>(n, _ => 0)
  }

  /** One blinding polynomial of degree below t per byte, all zero at zero. */
  function Blinding(t: nat, len: nat, tape: Tape): (polys: seq<Poly>)
    requires 0 < t
    ensures Deals(polys, t, Zeros(len))
  {
    Dealer(Zeros(len), t, tape)
  }

  predicate DeltasDefined(t: nat, len: nat, xs: seq<Byte>) {
    t >= 2 && len > 0 && xs != []
  }

  /** `generate_zero_deltas`: deal all 255 points and keep the wanted ones, so a hole in
  the points does not matter. */
  method GenerateZeroDeltas(g: Gf, t: nat, len: nat, xs: seq<Byte>, tape: Tape)
    returns (r: Result<map<Byte, Bytes>>)
    ensures r.Ok? <==> DeltasDefined(t, len, xs) && Distinct(xs) && 0 !in xs
    ensures r.Err? ==> r.error == ShareShapeMismatch
    ensures r.Ok? ==> r.value == SharesAt(g, xs, Blinding(t, len, tape))
  {
    if t < 2 || len == 0 || xs == [] {
      return Err(ShareShapeMismatch);
    }
    var ok := RequireDistinctNonzeroXs(xs);
    if !ok {
      return Err(ShareShapeMismatch);
    }
    var byX: map<Byte, Bytes> := map[];
    var i := 0;
    while i < 255
      invariant 0 <= i <= 255
      invariant forall x :: x in byX <==> x in xs && 1 <= x <= i
      invariant forall x :: x in byX ==> byX[x] == ShareAt(g, Blinding(t, len, tape), x)
    {
      var share := ShareAt(g, Blinding(t, len, tape), Point(i));
      if share[0] in xs {
        byX := byX[share[0] := share];
      }
      i := i + 1;
    }
    assert forall x: Byte :: x in xs ==> x != 0;
    assert byX == SharesAt(g, xs, Blinding(t, len, tape));
    return Ok(byX);
  }

  // ----- the mutual refresh

  /** The sum of the first i survivors' blinding polynomials. */
  function BlindingSum(g: Gf, draws: seq<Tape>, t: nat, len: nat, i: nat): (polys: seq<Poly>)
    requires i <= |draws| && 0 < t
    ensures |polys| == len && forall k :: 0 <= k < len ==> |polys[k]| == t
  {
    if i == 0 then seq<Poly>(len, _ => Zeros(t))
    else AddPolys(g, BlindingSum(g, draws, t, len, i - 1), Blinding(t, len, draws[i - 1]))
  }

  lemma {:induction false} BlindingSumDealsZero(g: Gf, draws: seq<Tape>, t: nat, len: nat, i: nat)
    requires Lawful(g)
    requires i <= |draws| && 0 < t
    ensures Deals(BlindingSum(g, draws, t, len, i), t, Zeros(len))
  {
    if i > 0 {
      BlindingSumDealsZero(g, draws, t, len, i - 1);
      AddPolysDeals(g, BlindingSum(g, draws, t, len, i - 1), Blinding(t, len, draws[i - 1]), t, Zeros(len), Zeros(len));
    }
  }

  /** The shapes `refresh_among` accepts. */
  ghost predicate Refreshable(shares: seq<Bytes>, t: nat) {
    && 2 <= t <= |shares|
    && |shares[0]| >= 2 && AllAsLong(shares, |shares[0]|)
    && Distinct(Xs(shares)) && 0 !in Xs(shares)
  }

  /** A share after absorbing the sum of all blinding polynomials. */
  function Absorbed(g: Gf, share: Bytes, z: seq<Poly>): Bytes
    requires |share| == |z| + 1
  {
    [share[0]] + seq<Byte>(|z|, k requires 0 <= k < |z| => g.add(share[k + 1], Eval(g, z[k], share[0])))
  }

  ghost predicate AllAbsorbed(g: Gf, before: seq<Bytes>, after: seq<Bytes>, z: seq<Poly>) {
    && |after| == |before|
    && forall j :: 0 <= j < |after| ==> |before[j]| == |z| + 1 && after[j] == Absorbed(g, before[j], z)
  }

  /** What one refresh did: every share absorbed the sum of these survivors' polynomials. */
  ghost predicate Refreshed(g: Gf, t: nat, len: nat, draws: seq<Tape>, before: seq<Bytes>, after: seq<Bytes>)
    requires 0 < t
  {
    AllAbsorbed(g, before, after, BlindingSum(g, draws, t, len, |draws|))
  }

  /** The points of the shares, when they all have length n. */
  method CollectPoints(shares: seq<Bytes>, n: nat) returns (r: Option<seq<Byte>>)
    requires 0 < n
    ensures r.Some? <==> AllAsLong(shares, n)
    ensures r.Some? ==> r.value == Xs(shares)
  {
    var xs: seq<Byte> := [];
    var i := 0;
    while i < |shares|
      invariant 0 <= i <= |shares| && |xs| == i
      invariant forall j :: 0 <= j < i ==> |shares[j]| == n && xs[j] == shares[j][0]
    {
      if |shares[i]| != n {
        return None;
      }
      xs := xs + [shares[i][0]];
      i := i + 1;
    }
    return Some(xs);
  }

  function ZeroShares(xs: seq<Byte>, len: nat): map<Byte, Bytes> {
    map x | x in xs :: [x] + Zeros(len)
  }

  lemma ZeroTotalsAreShares(g: Gf, xs: seq<Byte>, t: nat, len: nat)
    requires Lawful(g)
    ensures ZeroShares(xs, len) == SharesAt(g, xs, seq<Poly>(len, _ => Zeros(t)))
  {
    forall x | x in xs ensures [x] + Zeros(len) == ShareAt(g, seq<Poly>(len, _ => Zeros(t)), x) {
      ZeroShare(g, t, len, x);
    }
  }

  /** A zero share at every point. */
  method ZeroTotals(xs: seq<Byte>, len: nat) returns (combined: map<Byte, Bytes>)
    ensures combined == ZeroShares(xs, len)
  {
    combined := map[];
    var i := 0;
    while i < |xs|
      invariant 0 <= i <= |xs|
      invariant combined == map x | x in xs[..i] :: [x] + Zeros(len)
    {
      combined := combined[xs[i] := [xs[i]] + Zeros(len)];
      assert xs[..i + 1] == xs[..i] + [xs[i]];
      i := i + 1;
    }
    assert xs[..i] == xs;
  }

  /** One survivor's deltas, added to the running sums. */
  method AddDealer(g: Gf, combined: map<Byte, Bytes>, xs: seq<Byte>, t: nat, len: nat, tape: Tape, ghost p: seq<Poly>)
    returns (sums: map<Byte, Bytes>)
    requires Lawful(g) && t >= 2 && len > 0 && xs != [] && Distinct(xs) && 0 !in xs
    requires SameShape(p, Blinding(t, len, tape)) && combined == SharesAt(g, xs, p)
    ensures sums == SharesAt(g, xs, AddPolys(g, p, Blinding(t, len, tape)))
  {
    var deltas := GenerateZeroDeltas(g, t, len, xs, tape);
    sums := Accumulate(g, combined, deltas.value, xs, p, Blinding(t, len, tape));
  }

  /** The summed deltas per point: start from zero, add each survivor's deltas in turn. */
  method Combine(g: Gf, xs: seq<Byte>, t: nat, len: nat, draws: seq<Tape>) returns (combined: map<Byte, Bytes>)
    requires Lawful(g) && t >= 2 && len > 0 && xs != [] && Distinct(xs) && 0 !in xs
    ensures combined == SharesAt(g, xs, BlindingSum(g, draws, t, len, |draws|))
  {
    combined := ZeroTotals(xs, len);
    ZeroTotalsAreShares(g, xs, t, len);
    var i := 0;
    while i < |draws|
      invariant 0 <= i <= |draws|
      invariant combined == SharesAt(g, xs, BlindingSum(g, draws, t, len, i))
    {
      combined := AddDealer(g, combined, xs, t, len, draws[i], BlindingSum(g, draws, t, len, i));
      i := i + 1;
    }
  }

  ghost predicate HoldsDeltas(g: Gf, combined: map<Byte, Bytes>, z: seq<Poly>)
    requires z != []
  {
    forall x :: x in combined ==> combined[x] == ShareAt(g, z, x)
  }

  /** Every share has the length and a point with a delta. */
  ghost predicate AllCovered(shares: seq<Bytes>, combined: map<Byte, Bytes>, len: nat) {
    forall j :: 0 <= j < |shares| ==> |shares[j]| == len > 0 && shares[j][0] in combined
  }

  /** The map holds exactly the shares of z at the points of these shares, which are as long. */
  ghost predicate Summed(g: Gf, shares: seq<Bytes>, z: seq<Poly>, combined: map<Byte, Bytes>) {
    && z != [] && HoldsDeltas(g, combined, z) && AllCovered(shares, combined, |z| + 1)
    && combined == SharesAt(g, Xs(shares), z)
  }

  /** The checks, then everyone's deltas accumulated point by point. */
  method SummedDeltas(g: Gf, shares: seq<Bytes>, t: nat, draws: seq<Tape>)
    returns (r: Result<map<Byte, Bytes>>)
    requires Lawful(g) && |draws| == |shares|
    ensures r.Ok? <==> Refreshable(shares, t)
    ensures r.Err? ==> r.error == ShareShapeMismatch
    ensures r.Ok? ==> Summed(g, shares, BlindingSum(g, draws, t, |shares[0]| - 1, |draws|), r.value)
  {
    if |shares| == 0 || |shares| < t {
      return Err(ShareShapeMismatch);
    }
    var len := if |shares[0]| == 0 then 0 else |shares[0]| - 1;
    if len == 0 {
      return Err(ShareShapeMismatch);
    }
    var points := CollectPoints(shares, len + 1);
    if points.None? {
      return Err(ShareShapeMismatch);
    }
    var xs := points.value;
    var ok := RequireDistinctNonzeroXs(xs);
    if !ok || t < 2 {
      return Err(ShareShapeMismatch);
    }
    var combined := Combine(g, xs, t, len, draws);
    AllHaveDeltas(g, shares, combined, BlindingSum(g, draws, t, len, |draws|));
    return Ok(combined);
  }

  /** Summed deltas at the points of shares of one length: every share has its own. */
  lemma AllHaveDeltas(g: Gf, shares: seq<Bytes>, combined: map<Byte, Bytes>, z: seq<Poly>)
    requires shares != [] && |z| > 0 && AllAsLong(shares, |z| + 1) && combined == SharesAt(g, Xs(shares), z)
    ensures Summed(g, shares, z, combined)
  {
    forall j | 0 <= j < |shares| ensures shares[j][0] in Xs(shares) {
      assert Xs(shares)[j] in Xs(shares);
    }
  }

  /** `refresh_among`: on the shapes it accepts, every share absorbs every survivor's
  blinding polynomial; otherwise nothing changes. */
  method RefreshAmong(g: Gf, shares: array<Bytes>, t: nat, draws: seq<Tape>) returns (r: Result<()>)
    requires Lawful(g) && |draws| == shares.Length
    modifies shares
    ensures r.Ok? <==> Refreshable(old(shares[..]), t)
    ensures r.Err? ==> r.error == ShareShapeMismatch && shares[..] == old(shares[..])
    ensures r.Ok? ==> Refreshed(g, t, |old(shares[..])[0]| - 1, draws, old(shares[..]), shares[..])
  {
    ghost var was := shares[..];
    var combined := SummedDeltas(g, shares[..], t, draws);
    assert shares[..] == was;
    if combined.Err? {
      return Err(combined.error);
    }
    Absorb(g, shares, combined.value, BlindingSum(g, draws, t, |was[0]| - 1, |draws|));
    return Ok(());
  }

  /** Every share absorbs the summed delta for its own point. */
  method Absorb(g: Gf, shares: array<Bytes>, combined: map<Byte, Bytes>, ghost z: seq<Poly>)
    requires Summed(g, shares[..], z, combined)
    modifies shares
    ensures AllAbsorbed(g, old(shares[..]), shares[..], z)
  {
    var i := 0;
    while i < shares.Length
      invariant 0 <= i <= shares.Length
      invariant forall j :: 0 <= j < i ==> shares[j] == Absorbed(g, old(shares[j]), z)
      invariant forall j :: i <= j < shares.Length ==> shares[j] == old(shares[j])
    {
      AbsorbIsAdd(g, shares[i], z);
      var sum := AddShares(g, shares[i], combined[shares[i][0]]);
      shares[i] := sum.value;
      i := i + 1;
    }
  }

  lemma AbsorbIsAdd(g: Gf, share: Bytes, z: seq<Poly>)
    requires |share| == |z| + 1 && z != []
    ensures AddShares(g, share, ShareAt(g, z, share[0])) == Ok(Absorbed(g, share, z))
  {
    assert AddShares(g, share, ShareAt(g, z, share[0])).value == Absorbed(g, share, z);
  }

  lemma ZeroShare(g: Gf, t: nat, len: nat, x: Byte)
    requires Lawful(g)
    ensures [x] + Zeros(len) == ShareAt(g, seq<Poly>(len, _ => Zeros(t)), x)
  {
    EvalZeros(g, t, x);
    assert Zeros(t) == seq(t, _ => 0);
  }

  ghost predicate SameShape(p: seq<Poly>, q: seq<Poly>) {
    |p| == |q| && forall k :: 0 <= k < |p| ==> |p[k]| == |q[k]|
  }

  /** The sums hold shares of p at the points still to do and shares of p + q at the others. */
  ghost predicate PartlyAdded(g: Gf, xs: seq<Byte>, p: seq<Poly>, q: seq<Poly>, todo: set<Byte>, sums: map<Byte, Bytes>)
    requires SameShape(p, q)
  {
    && (forall x :: x in sums <==> x in xs)
    && forall x :: x in xs ==>
         sums[x] == if x in todo then ShareAt(g, p, x) else ShareAt(g, AddPolys(g, p, q), x)
  }

  lemma OneMoreAdded(g: Gf, xs: seq<Byte>, p: seq<Poly>, q: seq<Poly>, todo: set<Byte>, sums: map<Byte, Bytes>, x: Byte)
    requires SameShape(p, q) && PartlyAdded(g, xs, p, q, todo, sums) && x in todo && x in xs
    ensures sums[x] == ShareAt(g, p, x)
    ensures PartlyAdded(g, xs, p, q, todo - {x}, sums[x := ShareAt(g, AddPolys(g, p, q), x)])
  {
  }

  lemma NoneAdded(g: Gf, xs: seq<Byte>, p: seq<Poly>, q: seq<Poly>)
    requires SameShape(p, q)
    ensures PartlyAdded(g, xs, p, q, SharesAt(g, xs, q).Keys, SharesAt(g, xs, p))
  {
  }

  lemma AllAdded(g: Gf, xs: seq<Byte>, p: seq<Poly>, q: seq<Poly>, sums: map<Byte, Bytes>)
    requires SameShape(p, q) && PartlyAdded(g, xs, p, q, {}, sums)
    ensures sums == SharesAt(g, xs, AddPolys(g, p, q))
  {
  }

  /** One dealer's deltas added into the running sums, in any order of the points. */
  method Accumulate(g: Gf, combined: map<Byte, Bytes>, deltas: map<Byte, Bytes>, xs: seq<Byte>,
                    ghost p: seq<Poly>, ghost q: seq<Poly>)
    returns (sums: map<Byte, Bytes>)
    requires Lawful(g) && p != [] && SameShape(p, q)
    requires combined == SharesAt(g, xs, p)
    requires deltas == SharesAt(g, xs, q)
    ensures sums == SharesAt(g, xs, AddPolys(g, p, q))
  {
    sums := combined;
    var todo := deltas.Keys;
    NoneAdded(g, xs, p, q);
    while todo != {}
      invariant todo <= deltas.Keys && PartlyAdded(g, xs, p, q, todo, sums)
      decreases todo
    {
      var x :| x in todo;
      AddSharesIsAddPolys(g, p, q, x);
      OneMoreAdded(g, xs, p, q, todo, sums, x);
      var acc := AddShares(g, sums[x], deltas[x]);
      sums := sums[x := acc.value];
      todo := todo - {x};
    }
    AllAdded(g, xs, p, q, sums);
  }

  // ----- what the refresh promises

  lemma AbsorbedIsShare(g: Gf, p: seq<Poly>, z: seq<Poly>, x: Byte)
    requires Lawful(g) && |p| == |z| && forall k :: 0 <= k < |p| ==> |p[k]| == |z[k]|
    ensures Absorbed(g, ShareAt(g, p, x), z) == ShareAt(g, AddPolys(g, p, z), x)
  {
    var a, b := Absorbed(g, ShareAt(g, p, x), z), ShareAt(g, AddPolys(g, p, z), x);
    forall k | 0 <= k < |a| ensures a[k] == b[k] {
      if k > 0 {
        EvalAdd(g, p[k - 1], z[k - 1], x);
      }
    }
    assert a == b;
  }

  /** The polynomials behind the refreshed shares. */
  function RefreshedPolys(g: Gf, p: seq<Poly>, t: nat, draws: seq<Tape>): (q: seq<Poly>)
    requires 0 < t && forall k :: 0 <= k < |p| ==> |p[k]| == t
    ensures |q| == |p|
  {
    AddPolys(g, p, BlindingSum(g, draws, t, |p|, |draws|))
  }

  /** Refreshed shares of p are shares of p plus the blinding sum, at the same points. */
  lemma RefreshAddsPolynomials(g: Gf, p: seq<Poly>, t: nat, draws: seq<Tape>, before: seq<Bytes>, after: seq<Bytes>)
    requires Lawful(g) && 2 <= t && (forall k :: 0 <= k < |p| ==> |p[k]| == t) && Genuine(g, p, before)
    requires Refreshed(g, t, |p|, draws, before, after)
    ensures Genuine(g, RefreshedPolys(g, p, t, draws), after)
    ensures forall j :: 0 <= j < |after| ==> |after[j]| == |before[j]| && after[j][0] == before[j][0]
  {
    var z := BlindingSum(g, draws, t, |p|, |draws|);
    forall j | 0 <= j < |after| ensures after[j] == ShareAt(g, AddPolys(g, p, z), after[j][0]) {
      AbsorbedIsShare(g, p, z, before[j][0]);
    }
  }

  /** That sum of polynomials still deals the same secret. */
  lemma RefreshedPolysDeal(g: Gf, p: seq<Poly>, t: nat, secret: Bytes, draws: seq<Tape>)
    requires Lawful(g) && 0 < t && Deals(p, t, secret)
    ensures Deals(RefreshedPolys(g, p, t, draws), t, secret)
  {
    BlindingSumDealsZero(g, draws, t, |p|, |draws|);
    AddPolysDeals(g, p, BlindingSum(g, draws, t, |p|, |draws|), t, secret, Zeros(|p|));
  }

  /** Any t refreshed shares recover the secret dealt before the refresh, whichever
  points are missing. */
  lemma RefreshKeepsSecret(g: Gf, p: seq<Poly>, t: nat, secret: Bytes, draws: seq<Tape>,
                           before: seq<Bytes>, after: seq<Bytes>, chosen: seq<Bytes>)
    requires Lawful(g) && 2 <= t && Deals(p, t, secret) && Genuine(g, p, before) && secret != []
    requires Refreshed(g, t, |p|, draws, before, after)
    requires (forall s :: s in chosen ==> s in after) && |chosen| >= t
    requires AllParse(chosen) && Distinct(Xs(chosen))
    ensures Recover(g, t, chosen) == Ok(secret)
  {
    RefreshAddsPolynomials(g, p, t, draws, before, after);
    RefreshedPolysDeal(g, p, t, secret, draws);
    var q := RefreshedPolys(g, p, t, draws);
    forall i | 0 <= i < |chosen| ensures chosen[i] == ShareAt(g, q, chosen[i][0]) {
      assert chosen[i] in after;
    }
    RecoverGenuine(g, q, t, secret, chosen);
  }

  /** Where an earlier dealing p and a later one q of byte k differ, at the points of the
  shares kept from the earlier one. */
  function DifferenceAt(g: Gf, p: Poly, q: Poly, x: Byte, kept: bool): Byte {
    if kept then g.add(Eval(g, q, x), Eval(g, p, x)) else 0
  }

  function Differences(g: Gf, p: Poly, q: Poly, xs: seq<Byte>, kept: set<nat>): (ds: seq<Byte>)
    ensures |ds| == |xs|
  {
    seq<Byte>(|xs|, i requires 0 <= i < |xs| => DifferenceAt(g, p, q, xs[i], i in kept))
  }

  /** A share of either dealing is the new dealing's value plus the difference. */
  lemma MixedByte(g: Gf, p: seq<Poly>, q: seq<Poly>, x: Byte, kept: bool, k: nat)
    requires Lawful(g) && k < |p| == |q|
    ensures ShareAt(g, if kept then p else q, x)[k + 1] == g.add(Eval(g, q[k], x), DifferenceAt(g, p[k], q[k], x, kept))
  {
    var was, now := Eval(g, p[k], x), Eval(g, q[k], x);
    Add(g, now, now, was);
    Add(g, now, 0, 0);
    Add(g, was, 0, 0);
  }

  function ValuesAt(g: Gf, p: Poly, xs: seq<Byte>): (ys: seq<Byte>)
    ensures |ys| == |xs|
  {
    seq<Byte>(|xs|, i requires 0 <= i < |xs| => Eval(g, p, xs[i]))
  }

  /** The kept shares are shares of p, the others of q. */
  ghost predicate Mixed(g: Gf, p: seq<Poly>, q: seq<Poly>, shares: seq<Bytes>, kept: set<nat>) {
    forall i :: 0 <= i < |shares| ==>
      |shares[i]| >= 1 && shares[i] == ShareAt(g, if i in kept then p else q, shares[i][0])
  }

  lemma MixedColumn(g: Gf, p: seq<Poly>, q: seq<Poly>, shares: seq<Bytes>, kept: set<nat>, k: nat)
    requires Lawful(g) && k < |p| == |q| && AllAsLong(shares, |p| + 1) && Mixed(g, p, q, shares, kept)
    ensures forall i :: 0 <= i < |shares| ==>
      Column(shares, k)[i] == g.add(ValuesAt(g, q[k], Xs(shares))[i], Differences(g, p[k], q[k], Xs(shares), kept)[i])
  {
    forall i | 0 <= i < |shares|
      ensures Column(shares, k)[i]
           == g.add(ValuesAt(g, q[k], Xs(shares))[i], Differences(g, p[k], q[k], Xs(shares), kept)[i])
    {
      MixedByte(g, p, q, shares[i][0], i in kept, k);
    }
  }

  lemma EnoughToRecover(g: Gf, t: nat, n: nat, shares: seq<Bytes>)
    requires 0 < t <= |shares| && 0 < n && AllAsLong(shares, n + 1) && Distinct(Xs(shares))
    ensures AllParse(shares) && Recover(g, t, shares).Ok? && |Recover(g, t, shares).value| == n
    ensures forall k :: 0 <= k < n ==> Recover(g, t, shares).value[k] == Lagrange(g, Xs(shares), Column(shares, k), 0)
  {
    DistinctPoints(shares);
  }

  /** Any mixture of old and new shares of two dealings of the same secret gives byte k right
  if and only if the differences of the old shares from the new ones interpolate to zero. */
  lemma {:induction false} MixedShares(g: Gf, p: seq<Poly>, q: seq<Poly>, t: nat, secret: Bytes, shares: seq<Bytes>,
                                       kept: set<nat>, k: nat)
    requires Lawful(g) && Deals(p, t, secret) && Deals(q, t, secret) && k < |secret|
    requires |shares| >= t && AllAsLong(shares, |secret| + 1) && Distinct(Xs(shares)) && Mixed(g, p, q, shares, kept)
    ensures AllParse(shares) && Recover(g, t, shares).Ok? && |Recover(g, t, shares).value| == |secret|
    ensures Recover(g, t, shares).value[k] == secret[k] <==>
            Lagrange(g, Xs(shares), Differences(g, p[k], q[k], Xs(shares), kept), 0) == 0
  {
    assert |p[k]| == t;
    EnoughToRecover(g, t, |secret|, shares);
    MixedColumn(g, p, q, shares, kept, k);
    MixedValue(g, q[k], Xs(shares), ValuesAt(g, q[k], Xs(shares)), Differences(g, p[k], q[k], Xs(shares), kept),
               Column(shares, k));
  }

  /** Interpolating values of q off by ds gives q(0) if and only if ds interpolates to zero. */
  lemma MixedValue(g: Gf, q: Poly, xs: seq<Byte>, ys: seq<Byte>, ds: seq<Byte>, sums: seq<Byte>)
    requires Lawful(g) && 0 < |q| <= |xs| == |ys| == |ds| == |sums| && Distinct(xs)
    requires forall j :: 0 <= j < |xs| ==> ys[j] == Eval(g, q, xs[j])
    requires forall j :: 0 <= j < |xs| ==> sums[j] == g.add(ys[j], ds[j])
    ensures Lagrange(g, xs, sums, 0) == q[0] <==> Lagrange(g, xs, ds, 0) == 0
  {
    LagrangeAdd(g, xs, ys, ds, sums, 0, 0);
    LagrangeIsEval(g, q, xs, ys, 0);
    EvalAtZero(g, q);
    Add(g, q[0], 0, 0);
    Cancel(g, q[0], Lagrange(g, xs, ds, 0), 0);
  }

  /** t - 1 shares of one dealing and one share, at another point, of an earlier dealing of
  the same secret: byte k comes out right if and only if the two polynomials dealt for it
  agree at that point. */
  lemma {:induction false} MixedShare(g: Gf, p: seq<Poly>, q: seq<Poly>, t: nat, secret: Bytes, shares: seq<Bytes>,
                                      e: nat, k: nat)
    requires Lawful(g) && Deals(p, t, secret) && Deals(q, t, secret) && k < |secret|
    requires |shares| == t && e < t && AllAsLong(shares, |secret| + 1)
    requires Distinct(Xs(shares)) && 0 !in Xs(shares)
    requires forall i :: 0 <= i < t && i != e ==> shares[i] == ShareAt(g, q, shares[i][0])
    requires shares[e] == ShareAt(g, p, shares[e][0])
    ensures AllParse(shares) && Recover(g, t, shares).Ok? && |Recover(g, t, shares).value| == |secret|
    ensures Recover(g, t, shares).value[k] == secret[k] <==> Eval(g, p[k], shares[e][0]) == Eval(g, q[k], shares[e][0])
  {
    DistinctPoints(shares);
    var was, now := Eval(g, p[k], shares[e][0]), Eval(g, q[k], shares[e][0]);
    // the old value is the new one plus their difference
    Add(g, now, was, now);
    Add(g, now, now, was);
    Add(g, was, 0, 0);
    Cancel(g, was, now, 0);
    OneWrongValue(g, q[k], Xs(shares), Column(shares, k), e, g.add(was, now));
    EvalAtZero(g, q[k]);
  }

  /** t - 1 refreshed shares and one share from before the refresh, at another point x,
  recover byte k of the secret if and only if the blinding sum for that byte vanishes
  at x. */
  lemma {:induction false} StaleShare(g: Gf, p: seq<Poly>, z: seq<Poly>, t: nat, secret: Bytes, shares: seq<Bytes>,
                                      e: nat, k: nat)
    requires Lawful(g) && Deals(p, t, secret) && Deals(z, t, Zeros(|secret|)) && k < |secret|
    requires |shares| == t && e < t && AllAsLong(shares, |secret| + 1)
    requires Distinct(Xs(shares)) && 0 !in Xs(shares)
    requires forall i :: 0 <= i < t && i != e ==> shares[i] == ShareAt(g, AddPolys(g, p, z), shares[i][0])
    requires shares[e] == ShareAt(g, p, shares[e][0])
    ensures AllParse(shares) && Recover(g, t, shares).Ok? && |Recover(g, t, shares).value| == |secret|
    ensures Recover(g, t, shares).value[k] == secret[k] <==> Eval(g, z[k], shares[e][0]) == 0
  {
    var x := shares[e][0];
    AddPolysDeals(g, p, z, t, secret, Zeros(|secret|));
    MixedShare(g, p, AddPolys(g, p, z), t, secret, shares, e, k);
    EvalAdd(g, p[k], z[k], x);
    Cancel(g, Eval(g, p[k], x), Eval(g, z[k], x), 0);
    Add(g, Eval(g, p[k], x), 0, 0);
  }
}

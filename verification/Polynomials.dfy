/** Polynomials over a lawful byte field: evaluation, the root bound, and Lagrange
interpolation at an arbitrary point. */
module Polynomials {
  import opened Field

  /** Coefficients, constant term first. */
  type Poly = seq<Byte>

  function Eval(g: Gf, p: Poly, x: Byte): Byte {
    if p == [] then 0 else g.add(p[0], g.mul(x, Eval(g, p[1..], x)))
  }

  function AddPoly(g: Gf, p: Poly, q: Poly): (r: Poly)
    requires |p| == |q|
    ensures |r| == |p|
  {
    seq<Byte>(|p|, i requires 0 <= i < |p| => g.add(p[i], q[i]))
  }

  function ScalePoly(g: Gf, c: Byte, p: Poly): (r: Poly)
    ensures |r| == |p|
  {
    seq<Byte>(|p|, i requires 0 <= i < |p| => g.mul(c, p[i]))
  }

  /** (x + a) p */
  function TimesLinear(g: Gf, a: Byte, p: Poly): (r: Poly)
    ensures |r| == |p| + 1
  {
    AddPoly(g, [0] + p, ScalePoly(g, a, p) + [0])
  }

  lemma {:induction false} EvalAdd(g: Gf, p: Poly, q: Poly, x: Byte)
    requires Lawful(g) && |p| == |q|
    ensures Eval(g, AddPoly(g, p, q), x) == g.add(Eval(g, p, x), Eval(g, q, x))
  {
    if p == [] {
      Add(g, 0, 0, 0);
    } else {
      var s, t := Eval(g, p[1..], x), Eval(g, q[1..], x);
      assert AddPoly(g, p, q)[1..] == AddPoly(g, p[1..], q[1..]);
      EvalAdd(g, p[1..], q[1..], x);
      Mul(g, x, s, t);
      Swap(g, p[0], q[0], g.mul(x, s), g.mul(x, t));
    }
  }

  lemma {:induction false} EvalScale(g: Gf, c: Byte, p: Poly, x: Byte)
    requires Lawful(g)
    ensures Eval(g, ScalePoly(g, c, p), x) == g.mul(c, Eval(g, p, x))
  {
    MulZero(g, c);
    if p != [] {
      var s := Eval(g, p[1..], x);
      assert ScalePoly(g, c, p)[1..] == ScalePoly(g, c, p[1..]);
      EvalScale(g, c, p[1..], x);
      Mul(g, c, p[0], g.mul(x, s));
      Mul(g, c, x, s);
      Mul(g, x, c, s);
    }
  }

  lemma {:induction false} EvalPadded(g: Gf, p: Poly, x: Byte)
    requires Lawful(g)
    ensures Eval(g, p + [0], x) == Eval(g, p, x)
  {
    MulZero(g, x);
    Add(g, 0, 0, 0);
    if p == [] {
      assert [0][1..] == [];
      assert Eval(g, [0], x) == g.add(0, g.mul(x, Eval(g, [0][1..], x)));
    } else {
      assert (p + [0])[1..] == p[1..] + [0];
      EvalPadded(g, p[1..], x);
    }
  }

  lemma {:induction false} EvalTimesLinear(g: Gf, a: Byte, p: Poly, x: Byte)
    requires Lawful(g)
    ensures Eval(g, TimesLinear(g, a, p), x) == g.mul(g.add(x, a), Eval(g, p, x))
  {
    assert ([0] + p)[1..] == p;
    Add(g, g.mul(x, Eval(g, p, x)), 0, 0);
    EvalAdd(g, [0] + p, ScalePoly(g, a, p) + [0], x);
    EvalPadded(g, ScalePoly(g, a, p), x);
    EvalScale(g, a, p, x);
    Distribute(g, x, a, Eval(g, p, x));
  }

  lemma {:induction false} EvalAtZero(g: Gf, p: Poly)
    requires Lawful(g) && p != []
    ensures Eval(g, p, 0) == p[0]
  {
    MulZero(g, Eval(g, p[1..], 0));
    Add(g, p[0], 0, 0);
  }

  // ----- a polynomial of degree below n with n roots vanishes everywhere

  ghost predicate Distinct(xs: seq<Byte>) {
    forall i, j :: 0 <= i < j < |xs| ==> xs[i] != xs[j]
  }

  /** The quotient of p - p(r) by x - r. */
  function Quotient(g: Gf, p: Poly, r: Byte): (q: Poly)
    ensures |q| == if |p| <= 1 then 0 else |p| - 1
  {
    if |p| <= 1 then [] else [Eval(g, p[1..], r)] + Quotient(g, p[1..], r)
  }

  lemma {:induction false} Divide(g: Gf, p: Poly, r: Byte, x: Byte)
    requires Lawful(g)
    ensures Eval(g, p, x) == g.add(Eval(g, p, r), g.mul(g.add(x, r), Eval(g, Quotient(g, p, r), x)))
  {
    MulZero(g, g.add(x, r));
    MulZero(g, x);
    MulZero(g, r);
    Add(g, Eval(g, p, r), 0, 0);
    if |p| == 1 {
      assert p[1..] == [];
    } else if |p| > 1 {
      var e, q := Eval(g, p[1..], r), Quotient(g, p[1..], r);
      var d, w := g.add(x, r), Eval(g, q, x);
      Divide(g, p[1..], r, x);
      assert Quotient(g, p, r)[1..] == q;
      // p(x) = p0 + x (e + d w) and the right-hand side is (p0 + r e) + d (e + x w)
      Mul(g, x, e, g.mul(d, w));
      Mul(g, d, e, g.mul(x, w));
      Distribute(g, x, r, e);
      Mul(g, d, x, w);
      Mul(g, x, d, w);
      Telescope(g, p[0], g.mul(r, e), g.mul(x, e), g.mul(d, g.mul(x, w)));
    }
  }

  lemma Telescope(g: Gf, a: Byte, b: Byte, c: Byte, d: Byte)
    requires Lawful(g)
    ensures g.add(g.add(a, b), g.add(g.add(c, b), d)) == g.add(a, g.add(c, d))
  {
    var t := g.add(c, d);
    Add(g, b, c, d);
    Add(g, c, b, d);
    Add(g, a, b, g.add(b, t));
    Add(g, b, b, t);
    Add(g, t, 0, 0);
  }

  lemma {:induction false} RootBound(g: Gf, p: Poly, xs: seq<Byte>, x: Byte)
    requires Lawful(g) && |p| <= |xs| && Distinct(xs)
    requires forall i :: 0 <= i < |xs| ==> Eval(g, p, xs[i]) == 0
    ensures Eval(g, p, x) == 0
    decreases |xs|
  {
    if p != [] {
      var r, q := xs[0], Quotient(g, p, xs[0]);
      forall i | 0 <= i < |xs[1..]| ensures Eval(g, q, xs[1..][i]) == 0 {
        var s := xs[1..][i];
        assert s == xs[i + 1];
        Divide(g, p, r, s);
        Add(g, g.mul(g.add(s, r), Eval(g, q, s)), 0, 0);
        Cancel(g, s, r, 0);
        NoZeroDivisors(g, g.add(s, r), Eval(g, q, s));
      }
      RootBound(g, q, xs[1..], x);
      Divide(g, p, r, x);
      MulZero(g, g.add(x, r));
      Add(g, 0, 0, 0);
    }
  }

  /** Two polynomials of degree below n that agree at n points agree everywhere. */
  lemma {:induction false} Agree(g: Gf, p: Poly, q: Poly, xs: seq<Byte>, x: Byte)
    requires Lawful(g) && |p| == |q| <= |xs| && Distinct(xs)
    requires forall i :: 0 <= i < |xs| ==> Eval(g, p, xs[i]) == Eval(g, q, xs[i])
    ensures Eval(g, p, x) == Eval(g, q, x)
  {
    var d := AddPoly(g, p, q);
    forall i | 0 <= i < |xs| ensures Eval(g, d, xs[i]) == 0 {
      EvalAdd(g, p, q, xs[i]);
      Cancel(g, Eval(g, p, xs[i]), Eval(g, q, xs[i]), 0);
    }
    RootBound(g, d, xs, x);
    EvalAdd(g, p, q, x);
    Cancel(g, Eval(g, p, x), Eval(g, q, x), 0);
  }

  // ----- Lagrange interpolation

  /** The product over j >= k, j != i, of (z - xs[j]) / (xs[i] - xs[j]). */
  function Basis(g: Gf, xs: seq<Byte>, i: nat, z: Byte, k: nat): Byte
    requires i < |xs| && k <= |xs|
    decreases |xs| - k
  {
    if k == |xs| then 1
    else if k == i then Basis(g, xs, i, z, k + 1)
    else g.mul(g.mul(g.add(z, xs[k]), g.inv(g.add(xs[i], xs[k]))), Basis(g, xs, i, z, k + 1))
  }

  /** The value at z of the interpolating polynomial through the points from k on. */
  function LagrangeFrom(g: Gf, xs: seq<Byte>, ys: seq<Byte>, z: Byte, k: nat): Byte
    requires |xs| == |ys| && k <= |xs|
    decreases |xs| - k
  {
    if k == |xs| then 0
    else g.add(g.mul(ys[k], Basis(g, xs, k, z, 0)), LagrangeFrom(g, xs, ys, z, k + 1))
  }

  function Lagrange(g: Gf, xs: seq<Byte>, ys: seq<Byte>, z: Byte): Byte
    requires |xs| == |ys|
  {
    LagrangeFrom(g, xs, ys, z, 0)
  }

  /** The basis polynomial itself, as coefficients. */
  function BasisPoly(g: Gf, xs: seq<Byte>, i: nat, k: nat): (p: Poly)
    requires i < |xs| && k <= |xs|
    ensures |p| == if k <= i then |xs| - k else |xs| - k + 1
    decreases |xs| - k
  {
    if k == |xs| then [1]
    else if k == i then BasisPoly(g, xs, i, k + 1)
    else ScalePoly(g, g.inv(g.add(xs[i], xs[k])), TimesLinear(g, xs[k], BasisPoly(g, xs, i, k + 1)))
  }

  lemma {:induction false} EvalBasis(g: Gf, xs: seq<Byte>, i: nat, z: Byte, k: nat)
    requires Lawful(g) && i < |xs| && k <= |xs|
    ensures Eval(g, BasisPoly(g, xs, i, k), z) == Basis(g, xs, i, z, k)
    decreases |xs| - k
  {
    if k == |xs| {
      assert [1][1..] == [];
      assert Eval(g, [1], z) == g.add(1, g.mul(z, Eval(g, [1][1..], z)));
      MulZero(g, z);
      Add(g, 1, 0, 0);
    } else {
      EvalBasis(g, xs, i, z, k + 1);
      if k != i {
        var b := BasisPoly(g, xs, i, k + 1);
        var c, d, w := g.inv(g.add(xs[i], xs[k])), g.add(z, xs[k]), Eval(g, b, z);
        EvalScale(g, c, TimesLinear(g, xs[k], b), z);
        EvalTimesLinear(g, xs[k], b, z);
        Mul(g, c, d, w);
      }
    }
  }

  /** Each basis polynomial is 1 at its own node and 0 at the others. */
  lemma {:induction false} BasisAtNode(g: Gf, xs: seq<Byte>, i: nat, j: nat, k: nat)
    requires Lawful(g) && i < |xs| && j < |xs| && k <= |xs| && Distinct(xs)
    ensures i == j ==> Basis(g, xs, i, xs[j], k) == 1
    ensures i != j && k <= j ==> Basis(g, xs, i, xs[j], k) == 0
    decreases |xs| - k
  {
    if k < |xs| {
      BasisAtNode(g, xs, i, j, k + 1);
      if k != i {
        var f := g.mul(g.add(xs[j], xs[k]), g.inv(g.add(xs[i], xs[k])));
        var rest := Basis(g, xs, i, xs[j], k + 1);
        Cancel(g, xs[j], xs[k], 0);
        assert InvLaw(g, g.add(xs[i], xs[k]));
        MulZero(g, g.inv(g.add(xs[i], xs[k])));
        MulZero(g, rest);
        MulZero(g, f);
        Mul(g, f, rest, 0);
        Mul(g, rest, f, 0);
        Mul(g, 1, 1, 1);
      }
    }
  }

  /** The interpolating polynomial, as coefficients. */
  function InterpolantFrom(g: Gf, xs: seq<Byte>, ys: seq<Byte>, k: nat): (p: Poly)
    requires |xs| == |ys| && k <= |xs|
    ensures |p| == |xs|
    decreases |xs| - k
  {
    if k == |xs| then seq(|xs|, _ => 0)
    else AddPoly(g, ScalePoly(g, ys[k], BasisPoly(g, xs, k, 0)), InterpolantFrom(g, xs, ys, k + 1))
  }

  lemma {:induction false} EvalZeros(g: Gf, n: nat, z: Byte)
    requires Lawful(g)
    ensures Eval(g, seq(n, _ => 0), z) == 0
  {
    if n > 0 {
      assert seq(n, _ => 0)[1..] == seq(n - 1, _ => 0);
      EvalZeros(g, n - 1, z);
      MulZero(g, z);
      Add(g, 0, 0, 0);
    }
  }

  lemma {:induction false} EvalInterpolant(g: Gf, xs: seq<Byte>, ys: seq<Byte>, z: Byte, k: nat)
    requires Lawful(g) && |xs| == |ys| && k <= |xs|
    ensures Eval(g, InterpolantFrom(g, xs, ys, k), z) == LagrangeFrom(g, xs, ys, z, k)
    decreases |xs| - k
  {
    if k == |xs| {
      EvalZeros(g, |xs|, z);
    } else {
      EvalInterpolant(g, xs, ys, z, k + 1);
      var b := BasisPoly(g, xs, k, 0);
      EvalAdd(g, ScalePoly(g, ys[k], b), InterpolantFrom(g, xs, ys, k + 1), z);
      EvalScale(g, ys[k], b, z);
      EvalBasis(g, xs, k, z, 0);
    }
  }

  lemma {:induction false} LagrangeAtNode(g: Gf, xs: seq<Byte>, ys: seq<Byte>, j: nat, k: nat)
    requires Lawful(g) && |xs| == |ys| && j < |xs| && k <= |xs| && Distinct(xs)
    ensures LagrangeFrom(g, xs, ys, xs[j], k) == if k <= j then ys[j] else 0
    decreases |xs| - k
  {
    if k < |xs| {
      LagrangeAtNode(g, xs, ys, j, k + 1);
      BasisAtNode(g, xs, k, j, 0);
      Mul(g, ys[k], 0, 0);
      MulZero(g, ys[k]);
      Add(g, ys[k], 0, 0);
      Add(g, 0, 0, 0);
      Add(g, ys[j], 0, 0);
    }
  }

  /** Interpolating through any |xs| >= |p| points of p gives p back, at every z. */
  lemma {:induction false} LagrangeIsEval(g: Gf, p: Poly, xs: seq<Byte>, ys: seq<Byte>, z: Byte)
    requires Lawful(g) && |p| <= |xs| == |ys| && Distinct(xs)
    requires forall i :: 0 <= i < |xs| ==> ys[i] == Eval(g, p, xs[i])
    ensures Lagrange(g, xs, ys, z) == Eval(g, p, z)
  {
    var q := Padded(g, p, |xs|);
    var r := InterpolantFrom(g, xs, ys, 0);
    forall x: Byte ensures Eval(g, q, x) == Eval(g, p, x) {
      EvalPadding(g, p, |xs|, x);
    }
    forall i | 0 <= i < |xs| ensures Eval(g, r, xs[i]) == Eval(g, q, xs[i]) {
      EvalInterpolant(g, xs, ys, xs[i], 0);
      LagrangeAtNode(g, xs, ys, i, 0);
    }
    Agree(g, r, q, xs, z);
    EvalInterpolant(g, xs, ys, z, 0);
  }

  function Padded(g: Gf, p: Poly, n: nat): (q: Poly)
    requires |p| <= n
    ensures |q| == n
    decreases n - |p|
  {
    if |p| == n then p else Padded(g, p + [0], n)
  }

  lemma {:induction false} EvalPadding(g: Gf, p: Poly, n: nat, x: Byte)
    requires Lawful(g) && |p| <= n
    ensures Eval(g, Padded(g, p, n), x) == Eval(g, p, x)
    decreases n - |p|
  {
    if |p| < n {
      EvalPadding(g, p + [0], n, x);
      EvalPadded(g, p, x);
    }
  }

  // ----- one wrong value

  /** The weight of a point in the value at zero is not zero when no node is. */
  lemma {:induction false} BasisAtZero(g: Gf, xs: seq<Byte>, i: nat, k: nat)
    requires Lawful(g) && i < |xs| && k <= |xs| && Distinct(xs) && 0 !in xs
    ensures Basis(g, xs, i, 0, k) != 0
    decreases |xs| - k
  {
    if k < |xs| {
      BasisAtZero(g, xs, i, k + 1);
      if k != i {
        var d := g.add(xs[i], xs[k]);
        Cancel(g, xs[i], xs[k], 0);
        assert InvLaw(g, d);
        NoZeroDivisors(g, d, g.inv(d));
        Add(g, xs[k], 0, 0);
        NoZeroDivisors(g, g.add(0, xs[k]), g.inv(d));
        NoZeroDivisors(g, g.mul(g.add(0, xs[k]), g.inv(d)), Basis(g, xs, i, 0, k + 1));
      }
    }
  }

  /** Interpolation is additive in the values. */
  lemma {:induction false} LagrangeAdd(g: Gf, xs: seq<Byte>, ys: seq<Byte>, ds: seq<Byte>, sums: seq<Byte>, z: Byte, k: nat)
    requires Lawful(g) && |xs| == |ys| == |ds| == |sums| && k <= |xs|
    requires forall j :: 0 <= j < |xs| ==> sums[j] == g.add(ys[j], ds[j])
    ensures LagrangeFrom(g, xs, sums, z, k) == g.add(LagrangeFrom(g, xs, ys, z, k), LagrangeFrom(g, xs, ds, z, k))
    decreases |xs| - k
  {
    if k == |xs| {
      Add(g, 0, 0, 0);
    } else {
      LagrangeAdd(g, xs, ys, ds, sums, z, k + 1);
      var b := Basis(g, xs, k, z, 0);
      Distribute(g, ys[k], ds[k], b);
      Swap(g, g.mul(ys[k], b), g.mul(ds[k], b), LagrangeFrom(g, xs, ys, z, k + 1), LagrangeFrom(g, xs, ds, z, k + 1));
    }
  }

  /** Changing one value by e moves the interpolated value by e times that point's weight. */
  lemma {:induction false} LagrangeShift(g: Gf, xs: seq<Byte>, ys: seq<Byte>, i: nat, e: Byte, z: Byte, k: nat)
    requires Lawful(g) && |xs| == |ys| && i < |xs| && k <= |xs|
    ensures LagrangeFrom(g, xs, ys[i := g.add(ys[i], e)], z, k)
         == g.add(LagrangeFrom(g, xs, ys, z, k), if k <= i then g.mul(e, Basis(g, xs, i, z, 0)) else 0)
    decreases |xs| - k
  {
    var rest := if k == |xs| then 0 else LagrangeFrom(g, xs, ys, z, k + 1);
    Add(g, rest, 0, 0);
    Add(g, 0, 0, 0);
    if k < |xs| {
      LagrangeShift(g, xs, ys, i, e, z, k + 1);
      var b := Basis(g, xs, k, z, 0);
      var w := if k + 1 <= i then g.mul(e, Basis(g, xs, i, z, 0)) else 0;
      Add(g, g.mul(ys[k], b), rest, w);
      if k == i {
        Distribute(g, ys[i], e, b);
        Add(g, g.mul(ys[i], b), g.mul(e, b), rest);
        Add(g, g.mul(e, b), rest, 0);
        Add(g, g.mul(ys[i], b), rest, g.mul(e, b));
      } else if k > i {
        Add(g, LagrangeFrom(g, xs, ys, z, k), 0, 0);
      }
    }
  }

  /** Interpolating at zero through points of p of which exactly one is off by e gives
  p(0) if and only if e is zero. */
  lemma {:induction false} OneWrongValue(g: Gf, p: Poly, xs: seq<Byte>, ys: seq<Byte>, i: nat, e: Byte)
    requires Lawful(g) && |p| <= |xs| == |ys| && Distinct(xs) && 0 !in xs && i < |xs|
    requires forall j :: 0 <= j < |xs| ==>
      ys[j] == if j == i then g.add(Eval(g, p, xs[j]), e) else Eval(g, p, xs[j])
    ensures Lagrange(g, xs, ys, 0) == Eval(g, p, 0) <==> e == 0
  {
    var right := seq<Byte>(|xs|, j requires 0 <= j < |xs| => Eval(g, p, xs[j]));
    assert ys == right[i := g.add(right[i], e)];
    LagrangeIsEval(g, p, xs, right, 0);
    LagrangeShift(g, xs, right, i, e, 0, 0);
    BasisAtZero(g, xs, i, 0);
    var w := Basis(g, xs, i, 0, 0);
    NoZeroDivisors(g, e, w);
    Add(g, Eval(g, p, 0), 0, 0);
    Cancel(g, Eval(g, p, 0), g.mul(e, w), 0);
  }
}

/** The byte field Shamir sharing works over.

The sharing library is not part of the repository, so its multiplication table is
not fixed here: a `Gf` is any multiplication and inversion on bytes that, together
with some addition in which every byte is its own negative, obeys the field laws.
`Gf256` gives one (with XOR as the addition), so the assumption `Lawful` is met. */
module Field {
  type Byte = b: int | 0 <= b < 256
  type Bytes = seq<Byte>

  datatype Gf = Gf(add: (Byte, Byte) -> Byte, mul: (Byte, Byte) -> Byte, inv: Byte -> Byte)

  ghost predicate AddLaws(g: Gf, a: Byte, b: Byte, c: Byte) {
    && g.add(a, b) == g.add(b, a)
    && g.add(g.add(a, b), c) == g.add(a, g.add(b, c))
    && g.add(a, 0) == a
    && g.add(a, a) == 0
  }

  ghost predicate MulLaws(g: Gf, a: Byte, b: Byte, c: Byte) {
    && g.mul(a, b) == g.mul(b, a)
    && g.mul(g.mul(a, b), c) == g.mul(a, g.mul(b, c))
    && g.mul(a, 1) == a
    && g.mul(a, g.add(b, c)) == g.add(g.mul(a, b), g.mul(a, c))
  }

  ghost predicate InvLaw(g: Gf, a: Byte) {
    a != 0 ==> g.mul(a, g.inv(a)) == 1
  }

  /** `g` is a field of characteristic two on the bytes, with zero 0 and one 1. */
  ghost predicate Lawful(g: Gf) {
    && (forall a: Byte, b: Byte, c: Byte :: AddLaws(g, a, b, c))
    && (forall a: Byte, b: Byte, c: Byte :: MulLaws(g, a, b, c))
    && (forall a: Byte :: InvLaw(g, a))
  }

  // ----- the laws, one call each

  lemma Add(g: Gf, a: Byte, b: Byte, c: Byte)
    requires Lawful(g)
    ensures AddLaws(g, a, b, c)
    ensures g.add(0, a) == a
  {
    assert AddLaws(g, a, b, c);
    assert AddLaws(g, 0, a, a) && AddLaws(g, a, 0, 0);
  }

  lemma Mul(g: Gf, a: Byte, b: Byte, c: Byte)
    requires Lawful(g)
    ensures MulLaws(g, a, b, c)
  {
    assert MulLaws(g, a, b, c);
  }

  lemma MulZero(g: Gf, a: Byte)
    requires Lawful(g)
    ensures g.mul(a, 0) == 0 && g.mul(0, a) == 0
  {
    Mul(g, a, 0, 0);
    Add(g, 0, 0, 0);
    Cancel(g, g.mul(a, 0), g.mul(a, 0), 0);
    Add(g, g.mul(a, 0), 0, 0);
  }

  /** Adding the same byte on the left can be undone. */
  lemma Cancel(g: Gf, a: Byte, b: Byte, c: Byte)
    requires Lawful(g)
    ensures g.add(a, b) == g.add(a, c) ==> b == c
    ensures g.add(a, b) == 0 <==> a == b
  {
    Add(g, a, a, b);
    Add(g, a, a, c);
    Add(g, b, 0, 0);
    Add(g, c, 0, 0);
    Add(g, a, 0, 0);
  }

  /** (a + b) + (c + d) == (a + c) + (b + d) */
  lemma Swap(g: Gf, a: Byte, b: Byte, c: Byte, d: Byte)
    requires Lawful(g)
    ensures g.add(g.add(a, b), g.add(c, d)) == g.add(g.add(a, c), g.add(b, d))
  {
    Add(g, a, b, g.add(c, d));
    Add(g, b, c, d);
    Add(g, c, b, d);
    Add(g, a, c, g.add(b, d));
  }

  lemma NoZeroDivisors(g: Gf, a: Byte, b: Byte)
    requires Lawful(g)
    ensures g.mul(a, b) == 0 <==> a == 0 || b == 0
  {
    MulZero(g, a);
    MulZero(g, b);
    if a != 0 && g.mul(a, b) == 0 {
      assert InvLaw(g, a);
      Mul(g, b, a, g.inv(a));
      Mul(g, a, b, 0);
      Mul(g, b, 1, 1);
      MulZero(g, g.inv(a));
    }
  }

  /** Multiplication distributes from the right too. */
  lemma Distribute(g: Gf, a: Byte, b: Byte, c: Byte)
    requires Lawful(g)
    ensures g.mul(g.add(a, b), c) == g.add(g.mul(a, c), g.mul(b, c))
  {
    Mul(g, c, a, b);
    Mul(g, g.add(a, b), c, c);
    Mul(g, a, c, c);
    Mul(g, b, c, c);
  }
}

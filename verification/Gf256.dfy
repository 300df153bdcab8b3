/** The bytes with XOR, and multiplication modulo x^8 + x^4 + x^3 + x^2 + 1, form a
lawful field: every theorem that asks for `Field.Lawful(g)` is about something. */
module Gf256 {
  import opened Field

  /** One byte as the coefficients of 1, x, x^2, ..., x^7. */
  datatype Bits = Bits(b0: bool, b1: bool, b2: bool, b3: bool, b4: bool, b5: bool, b6: bool, b7: bool)

  const Zero := Bits(false, false, false, false, false, false, false, false)
  const One := X(0)

  /** The power x^i. */
  function X(i: nat): Bits {
    Bits(i == 0, i == 1, i == 2, i == 3, i == 4, i == 5, i == 6, i == 7)
  }

  function Xor(a: Bits, b: Bits): Bits {
    Bits(a.b0 != b.b0, a.b1 != b.b1, a.b2 != b.b2, a.b3 != b.b3,
         a.b4 != b.b4, a.b5 != b.b5, a.b6 != b.b6, a.b7 != b.b7)
  }

  /** Multiplication by x, reduced. */
  function Double(a: Bits): Bits {
    Bits(a.b7, a.b0, a.b1 != a.b7, a.b2 != a.b7, a.b3 != a.b7, a.b4, a.b5, a.b6)
  }

  function Pick(c: bool, a: Bits): Bits { if c then a else Zero }

  function Bit(b: Bits, i: nat): bool {
    if i == 0 then b.b0 else if i == 1 then b.b1 else if i == 2 then b.b2 else if i == 3 then b.b3
    else if i == 4 then b.b4 else if i == 5 then b.b5 else if i == 6 then b.b6 else b.b7
  }

  // ----- shift-and-add multiplication over any addition and doubling that obey these laws

  datatype Ring = Ring(xor: (Bits, Bits) -> Bits, double: Bits -> Bits)

  ghost predicate Laws(r: Ring, a: Bits, b: Bits, c: Bits, d: Bits) {
    && r.xor(r.xor(a, b), r.xor(c, d)) == r.xor(r.xor(a, c), r.xor(b, d))
    && r.xor(a, Zero) == a && r.xor(Zero, a) == a && r.xor(a, a) == Zero
    && r.double(r.xor(a, b)) == r.xor(r.double(a), r.double(b))
    && r.double(Zero) == Zero
  }

  ghost predicate Good(r: Ring) {
    forall a, b, c, d :: Laws(r, a, b, c, d)
  }

  /** a times the bits of b from i on, the i-th counting as 1. */
  function ShiftAdd(r: Ring, a: Bits, b: Bits, i: nat): Bits
    requires i <= 8
    decreases 8 - i
  {
    if i == 8 then Zero else r.xor(Pick(Bit(b, i), a), ShiftAdd(r, r.double(a), b, i + 1))
  }

  function Times(r: Ring, a: Bits, b: Bits): Bits { ShiftAdd(r, a, b, 0) }

  lemma {:induction false} Linear(r: Ring, a: Bits, b: Bits, c: Bits, i: nat)
    requires Good(r) && i <= 8
    ensures ShiftAdd(r, r.xor(a, b), c, i) == r.xor(ShiftAdd(r, a, c, i), ShiftAdd(r, b, c, i))
    decreases 8 - i
  {
    assert Laws(r, Zero, Zero, Zero, Zero);
    if i != 8 {
      var p := Bit(c, i);
      assert Laws(r, a, b, Zero, Zero);
      Linear(r, r.double(a), r.double(b), c, i + 1);
      assert Laws(r, Pick(p, a), Pick(p, b),
                  ShiftAdd(r, r.double(a), c, i + 1), ShiftAdd(r, r.double(b), c, i + 1));
    }
  }

  lemma {:induction false} ShiftAddDouble(r: Ring, a: Bits, c: Bits, i: nat)
    requires Good(r) && i <= 8
    ensures ShiftAdd(r, r.double(a), c, i) == r.double(ShiftAdd(r, a, c, i))
    decreases 8 - i
  {
    assert Laws(r, Zero, Zero, Zero, Zero);
    if i != 8 {
      ShiftAddDouble(r, r.double(a), c, i + 1);
      assert Laws(r, Pick(Bit(c, i), a), ShiftAdd(r, r.double(a), c, i + 1), Zero, Zero);
    }
  }

  lemma {:induction false} ShiftAddZero(r: Ring, a: Bits, c: Bits, i: nat)
    requires Good(r) && i <= 8
    requires a == Zero || forall j :: i <= j < 8 ==> !Bit(c, j)
    ensures ShiftAdd(r, a, c, i) == Zero
    decreases 8 - i
  {
    assert Laws(r, Zero, Zero, Zero, Zero);
    if i != 8 {
      ShiftAddZero(r, r.double(a), c, i + 1);
    }
  }

  lemma {:induction false} ShiftAddsCommute(r: Ring, a: Bits, c: Bits, d: Bits, j: nat)
    requires Good(r) && j <= 8
    ensures ShiftAdd(r, Times(r, a, c), d, j) == Times(r, ShiftAdd(r, a, d, j), c)
    decreases 8 - j
  {
    ShiftAddZero(r, Zero, c, 0);
    if j != 8 {
      ShiftAddDouble(r, a, c, 0);
      ShiftAddsCommute(r, r.double(a), c, d, j + 1);
      Linear(r, Pick(Bit(d, j), a), ShiftAdd(r, r.double(a), d, j + 1), c, 0);
    }
  }

  ghost predicate Unit(r: Ring, b: Bits) { Times(r, One, b) == b }

  /** The laws above, and 1 is a left unit: enough for a commutative ring. */
  ghost predicate GoodUnit(r: Ring) {
    Good(r) && forall b :: Unit(r, b)
  }

  lemma Commutes(r: Ring, a: Bits, b: Bits)
    requires GoodUnit(r)
    ensures Times(r, a, b) == Times(r, b, a)
  {
    assert Unit(r, a) && Unit(r, b);
    ShiftAddsCommute(r, One, a, b, 0);
  }

  lemma Associates(r: Ring, a: Bits, b: Bits, c: Bits)
    requires GoodUnit(r)
    ensures Times(r, Times(r, a, b), c) == Times(r, a, Times(r, b, c))
  {
    Commutes(r, a, b);
    ShiftAddsCommute(r, b, a, c, 0);
    Commutes(r, a, Times(r, b, c));
  }

  lemma Distributes(r: Ring, a: Bits, b: Bits, c: Bits)
    requires GoodUnit(r)
    ensures Times(r, a, r.xor(b, c)) == r.xor(Times(r, a, b), Times(r, a, c))
  {
    Linear(r, b, c, a, 0);
    Commutes(r, a, b);
    Commutes(r, a, c);
    Commutes(r, a, r.xor(b, c));
  }

  /** Squaring is additive. */
  lemma SquareXor(r: Ring, a: Bits, b: Bits)
    requires GoodUnit(r)
    ensures Times(r, r.xor(a, b), r.xor(a, b)) == r.xor(Times(r, a, a), Times(r, b, b))
  {
    var s, ab := r.xor(a, b), Times(r, a, b);
    Distributes(r, s, a, b);
    Commutes(r, s, a);
    Commutes(r, s, b);
    Distributes(r, a, a, b);
    Distributes(r, b, a, b);
    Commutes(r, a, b);
    assert Laws(r, Times(r, a, a), ab, Times(r, b, b), ab);
    assert Laws(r, Times(r, b, b), ab, ab, Times(r, b, b));
    assert Laws(r, ab, ab, ab, ab);
    assert Laws(r, Times(r, a, a), ab, ab, Times(r, b, b));
    assert Laws(r, Times(r, a, a), Zero, ab, ab);
    assert Laws(r, r.xor(Times(r, a, a), Times(r, b, b)), ab, ab, ab);
    assert r.xor(r.xor(Times(r, a, a), ab), r.xor(Times(r, b, b), ab))
        == r.xor(Times(r, a, a), Times(r, b, b));
    assert Laws(r, ab, Times(r, b, b), Times(r, b, b), ab);
    assert Laws(r, ab, Zero, Times(r, b, b), Zero);
    assert Laws(r, Zero, ab, Times(r, b, b), Zero);
  }

  // ----- inverses, by Fermat: a^255 is idempotent, and the only idempotents are 0 and 1

  type Product = (Bits, Bits) -> Bits

  ghost predicate ProductLaws(m: Product, a: Bits, b: Bits, c: Bits) {
    && m(a, b) == m(b, a)
    && m(m(a, b), c) == m(a, m(b, c))
    && m(One, a) == a
    && m(Zero, a) == Zero
  }

  ghost predicate Commutative(m: Product) {
    forall a, b, c :: ProductLaws(m, a, b, c)
  }

  function Sqs(m: Product, a: Bits, k: nat): Bits {
    if k == 0 then a else var q := Sqs(m, a, k - 1); m(q, q)
  }

  /** a to the power 2^k - 1. */
  function Ones(m: Product, a: Bits, k: nat): Bits {
    if k == 0 then One else var e := Ones(m, a, k - 1); m(a, m(e, e))
  }

  lemma SqTimes(m: Product, a: Bits, b: Bits)
    requires Commutative(m)
    ensures m(m(a, b), m(a, b)) == m(m(a, a), m(b, b))
  {
    var ab := m(a, b);
    assert ProductLaws(m, a, b, ab);
    assert ProductLaws(m, b, a, b);
    assert ProductLaws(m, b, ab, b);
    assert ProductLaws(m, a, b, b);
    assert ProductLaws(m, a, a, m(b, b));
  }

  lemma {:induction false} OnesStep(m: Product, a: Bits, k: nat)
    requires Commutative(m)
    ensures m(Ones(m, a, k), Sqs(m, a, k)) == Ones(m, a, k + 1)
  {
    if k == 0 {
      assert ProductLaws(m, a, One, One) && ProductLaws(m, One, One, One);
    } else {
      var e, q := Ones(m, a, k - 1), Sqs(m, a, k - 1);
      OnesStep(m, a, k - 1);
      SqTimes(m, e, q);
      assert ProductLaws(m, a, m(e, e), m(q, q));
    }
  }

  lemma {:induction false} SqsIsOnesTimes(m: Product, a: Bits, k: nat)
    requires Commutative(m)
    ensures Sqs(m, a, k) == m(Ones(m, a, k), a)
  {
    if k == 0 {
      assert ProductLaws(m, a, a, a);
    } else {
      var e := Ones(m, a, k - 1);
      SqsIsOnesTimes(m, a, k - 1);
      SqTimes(m, e, a);
      assert ProductLaws(m, a, m(e, e), a);
      assert ProductLaws(m, m(e, e), a, a);
    }
  }

  /** Squaring eight times is the identity, and 0 and 1 are the only idempotents. */
  ghost predicate Frobenius(m: Product, a: Bits) {
    && Sqs(m, a, 8) == a
    && (m(a, a) == a ==> a == Zero || a == One)
  }

  function Power254(m: Product, a: Bits): Bits { Sqs(m, Ones(m, a, 7), 1) }

  lemma {:induction false} Fermat(m: Product, a: Bits)
    requires Commutative(m) && Frobenius(m, a) && Frobenius(m, Ones(m, a, 8)) && a != Zero
    ensures m(a, Power254(m, a)) == One
  {
    var e, i := Ones(m, a, 7), Sqs(m, a, 7);
    OnesStep(m, a, 7);
    SqsIsOnesTimes(m, a, 8);
    SqTimes(m, e, i);
    assert Sqs(m, e, 0) == e;
    assert ProductLaws(m, a, m(e, e), a);
    assert ProductLaws(m, a, a, a);
  }

  // ----- the concrete ring

  const R := Ring((a, b) => Xor(a, b), a => Double(a))

  lemma XorSwap(a: Bits, b: Bits, c: Bits, d: Bits)
    ensures Xor(Xor(a, b), Xor(c, d)) == Xor(Xor(a, c), Xor(b, d))
  {
  }

  lemma DoubleXor(a: Bits, b: Bits)
    ensures Double(Xor(a, b)) == Xor(Double(a), Double(b))
  {
  }

  lemma RGood()
    ensures Good(R)
  {
    forall a, b, c, d ensures Laws(R, a, b, c, d) {
      XorSwap(a, b, c, d);
      DoubleXor(a, b);
      assert Xor(a, Zero) == a && Xor(Zero, a) == a && Xor(a, a) == Zero && Double(Zero) == Zero;
    }
  }

  /** The bits of b from i on. */
  function From(b: Bits, i: nat): Bits {
    Bits(i == 0 && b.b0, i <= 1 && b.b1, i <= 2 && b.b2, i <= 3 && b.b3,
         i <= 4 && b.b4, i <= 5 && b.b5, i <= 6 && b.b6, i <= 7 && b.b7)
  }

  lemma FromStep(b: Bits, i: nat)
    requires i < 8
    ensures From(b, i) == Xor(Pick(Bit(b, i), X(i)), From(b, i + 1))
    ensures i < 7 ==> Double(X(i)) == X(i + 1)
  {
  }

  lemma {:induction false} OneTimes(b: Bits, i: nat)
    requires i < 8
    ensures ShiftAdd(R, X(i), b, i) == From(b, i)
    decreases 8 - i
  {
    FromStep(b, i);
    if i < 7 {
      OneTimes(b, i + 1);
    } else {
      assert ShiftAdd(R, R.double(X(7)), b, 8) == Zero == From(b, 8);
    }
  }

  lemma RUnit()
    ensures GoodUnit(R)
  {
    RGood();
    forall b ensures Unit(R, b) {
      OneTimes(b, 0);
    }
  }

  /** Squaring moves the coefficient of x^i to x^(2i), reduced. */
  function Square(a: Bits): Bits {
    Bits(a.b0 != (a.b4 != (a.b6 != a.b7)), a.b7, a.b1 != (a.b4 != (a.b5 != a.b6)), a.b4 != a.b6,
         a.b2 != (a.b4 != (a.b5 != a.b7)), a.b5, a.b3 != (a.b5 != a.b6), a.b6)
  }

  lemma SquareLinear(a: Bits, b: Bits)
    ensures Square(Xor(a, b)) == Xor(Square(a), Square(b))
  {
    var s, t := Square(Xor(a, b)), Xor(Square(a), Square(b));
    assert s.b0 == t.b0;
    assert s.b1 == t.b1;
    assert s.b2 == t.b2;
    assert s.b3 == t.b3;
    assert s.b4 == t.b4;
    assert s.b5 == t.b5;
    assert s.b6 == t.b6;
    assert s.b7 == t.b7;
  }

  function Doubles(a: Bits, k: nat): Bits
    decreases k
  {
    if k == 0 then a else Doubles(Double(a), k - 1)
  }

  lemma {:induction false} TimesPower(a: Bits, i: nat, j: nat)
    requires j <= i < 8
    ensures ShiftAdd(R, a, X(i), j) == Doubles(a, i - j)
    decreases i - j
  {
    RGood();
    if j < i {
      TimesPower(Double(a), i, j + 1);
      assert Laws(R, Doubles(a, i - j), Zero, Zero, Zero);
    } else {
      ShiftAddZero(R, Double(a), X(i), i + 1);
      assert Laws(R, a, Zero, Zero, Zero);
    }
  }

  lemma SquarePower(i: nat)
    requires i < 8
    ensures Times(R, X(i), X(i)) == Square(X(i))
  {
    TimesPower(X(i), i, 0);
    DoublesPower(i, if 2 * i < 8 then i else 7 - i);
    var d := Double(X(7));
    assert Doubles(d, 0) == Square(X(4));
    assert Doubles(d, 2) == Square(X(5));
    assert Doubles(d, 4) == Square(X(6));
    assert Doubles(d, 6) == Square(X(7));
    assert i < 4 || i == 4 || i == 5 || i == 6 || i == 7;
  }

  /** Until the degree reaches 8, doubling only raises it; from there on it starts at x^7. */
  lemma {:induction false} DoublesPower(i: nat, k: nat)
    requires i + k < 8
    ensures Doubles(X(i), k) == X(i + k)
    ensures 4 <= i && i + k == 7 ==> Doubles(X(i), i) == Doubles(X(7), i - k)
    decreases k
  {
    if k > 0 {
      FromStep(Zero, i);
      DoublesPower(i + 1, k - 1);
    }
  }

  lemma SquareStep(p: Bits, q: Bits)
    requires Times(R, p, p) == Square(p) && Times(R, q, q) == Square(q)
    ensures Times(R, Xor(p, q), Xor(p, q)) == Square(Xor(p, q))
  {
    RUnit();
    SquareXor(R, p, q);
    SquareLinear(p, q);
  }

  lemma {:induction false} SquareIsTimes(b: Bits, i: nat)
    requires i <= 8
    ensures Times(R, From(b, i), From(b, i)) == Square(From(b, i))
    decreases 8 - i
  {
    RGood();
    ShiftAddZero(R, Zero, Zero, 0);
    assert Square(Zero) == Zero;
    if i < 8 {
      SquareIsTimes(b, i + 1);
      SquarePower(i);
      FromStep(b, i);
      SquareStep(Pick(Bit(b, i), X(i)), From(b, i + 1));
    }
  }

  /** The product of the concrete ring. */
  function Mult(a: Bits, b: Bits): Bits { Times(R, a, b) }

  lemma MultCommutative()
    ensures Commutative(Mult)
  {
    RUnit();
    forall a, b, c ensures ProductLaws(Mult, a, b, c) {
      Commutes(R, a, b);
      Associates(R, a, b, c);
      assert Unit(R, a);
      ShiftAddZero(R, Zero, a, 0);
    }
  }

  function Iterate(f: Bits -> Bits, a: Bits, k: nat): Bits {
    if k == 0 then a else f(Iterate(f, a, k - 1))
  }

  lemma {:induction false} SqsIsIterate(m: Product, f: Bits -> Bits, a: Bits, k: nat)
    requires forall b :: m(b, b) == f(b)
    ensures Sqs(m, a, k) == Iterate(f, a, k)
  {
    if k > 0 {
      SqsIsIterate(m, f, a, k - 1);
    }
  }

  lemma {:induction false} EightTimes(f: Bits -> Bits, a: Bits)
    ensures Iterate(f, a, 8) == f(f(f(f(f(f(f(f(a))))))))
  {
    assert Iterate(f, a, 1) == f(Iterate(f, a, 0));
    assert Iterate(f, a, 3) == f(f(Iterate(f, a, 1)));
    assert Iterate(f, a, 5) == f(f(Iterate(f, a, 3)));
    assert Iterate(f, a, 7) == f(f(Iterate(f, a, 5)));
  }

  lemma EightSquares(a: Bits)
    ensures Square(Square(Square(Square(Square(Square(Square(Square(a)))))))) == a
    ensures Square(a) == a ==> a == Zero || a == One
  {
  }

  lemma {:induction false} FromAll(b: Bits)
    ensures From(b, 0) == b
  {
  }

  lemma {:induction false} SquareOfAll(b: Bits)
    ensures Mult(b, b) == Square(b)
  {
    SquareIsTimes(b, 0);
    FromAll(b);
  }

  lemma {:induction false} MultFrobenius(a: Bits)
    ensures Frobenius(Mult, a)
  {
    forall b ensures Mult(b, b) == Square(b) {
      SquareOfAll(b);
    }
    SqsIsIterate(Mult, Square, a, 8);
    EightTimes(Square, a);
    EightSquares(a);
  }

  // ----- on bytes

  function Digits(n: nat, k: nat): (s: seq<bool>)
    ensures |s| == k
  {
    if k == 0 then [] else [n % 2 == 1] + Digits(n / 2, k - 1)
  }

  function Number(s: seq<bool>): nat {
    if s == [] then 0 else (if s[0] then 1 else 0) + 2 * Number(s[1..])
  }

  function Power2(k: nat): nat { if k == 0 then 1 else 2 * Power2(k - 1) }

  lemma {:induction false} NumberOfDigits(n: nat, k: nat)
    requires n < Power2(k)
    ensures Number(Digits(n, k)) == n
  {
    if k > 0 {
      NumberOfDigits(n / 2, k - 1);
      assert Digits(n, k)[1..] == Digits(n / 2, k - 1);
    }
  }

  lemma {:induction false} DigitsOfNumber(s: seq<bool>)
    ensures Number(s) < Power2(|s|) && Digits(Number(s), |s|) == s
  {
    if s != [] {
      DigitsOfNumber(s[1..]);
      assert Number(s) / 2 == Number(s[1..]);
    }
  }

  lemma Power2Of8()
    ensures Power2(8) == 256
  {
    assert Power2(1) == 2 && Power2(3) == 8 && Power2(5) == 32 && Power2(7) == 128;
  }

  function ToBits(b: Byte): Bits {
    var s := Digits(b, 8);
    Bits(s[0], s[1], s[2], s[3], s[4], s[5], s[6], s[7])
  }

  function ToByte(v: Bits): Byte {
    var s := [v.b0, v.b1, v.b2, v.b3, v.b4, v.b5, v.b6, v.b7];
    DigitsOfNumber(s);
    Power2Of8();
    Number(s)
  }

  lemma ByteOfBits(b: Byte)
    ensures ToByte(ToBits(b)) == b
  {
    Power2Of8();
    NumberOfDigits(b, 8);
    EightOf(Digits(b, 8));
  }

  lemma EightOf(s: seq<bool>)
    requires |s| == 8
    ensures s == [s[0], s[1], s[2], s[3], s[4], s[5], s[6], s[7]]
  {
  }

  lemma BitsOfByte(v: Bits)
    ensures ToBits(ToByte(v)) == v
  {
    DigitsOfNumber([v.b0, v.b1, v.b2, v.b3, v.b4, v.b5, v.b6, v.b7]);
  }

  lemma ZeroAndOne()
    ensures ToBits(0) == Zero && ToBits(1) == One
  {
    assert Digits(0, 0) == Digits(0 / 2, 0);
    assert Number([false, false, false, false, false, false, false]) == 0;
    BitsOfByte(Zero);
    BitsOfByte(One);
  }

  // ----- a bijection carries the laws of an operation on bits to bytes

  ghost predicate Inverse(to: Byte -> Bits, from: Bits -> Byte) {
    && (forall b: Byte :: from(to(b)) == b)
    && (forall v :: to(from(v)) == v)
    && to(0) == Zero && to(1) == One
  }

  function Carry(to: Byte -> Bits, from: Bits -> Byte, m: Product): (Byte, Byte) -> Byte {
    (a, b) => from(m(to(a), to(b)))
  }

  function Carry1(to: Byte -> Bits, from: Bits -> Byte, f: Bits -> Bits): Byte -> Byte {
    a => from(f(to(a)))
  }

  ghost predicate RingLaws(x: Product, m: Product, i: Bits -> Bits, a: Bits, b: Bits, c: Bits) {
    && x(a, b) == x(b, a) && x(x(a, b), c) == x(a, x(b, c)) && x(a, Zero) == a && x(a, a) == Zero
    && m(a, b) == m(b, a) && m(m(a, b), c) == m(a, m(b, c)) && m(a, One) == a
    && m(a, x(b, c)) == x(m(a, b), m(a, c))
    && (a != Zero ==> m(a, i(a)) == One)
  }

  lemma CarryAt(to: Byte -> Bits, from: Bits -> Byte, m: Product, a: Byte, b: Byte)
    ensures Carry(to, from, m)(a, b) == from(m(to(a), to(b)))
  {
  }

  lemma CarryLawful(to: Byte -> Bits, from: Bits -> Byte, x: Product, m: Product, i: Bits -> Bits, g: Gf)
    requires Inverse(to, from)
    requires forall a, b, c :: RingLaws(x, m, i, a, b, c)
    requires g == Gf(Carry(to, from, x), Carry(to, from, m), Carry1(to, from, i))
    ensures Lawful(g)
  {
    forall a: Byte, b: Byte, c: Byte ensures AddLaws(g, a, b, c) {
      assert RingLaws(x, m, i, to(a), to(b), to(c));
    }
    forall a: Byte, b: Byte, c: Byte ensures MulLaws(g, a, b, c) {
      assert RingLaws(x, m, i, to(a), to(b), to(c));
    }
    forall a: Byte ensures InvLaw(g, a) {
      assert RingLaws(x, m, i, to(a), to(a), to(a));
      assert from(to(0)) == 0 && from(to(1)) == 1;
    }
  }

  lemma XorLaws(r: Ring, a: Bits, b: Bits, c: Bits)
    requires Good(r)
    ensures r.xor(a, b) == r.xor(b, a) && r.xor(a, Zero) == a && r.xor(a, a) == Zero
    ensures r.xor(r.xor(a, b), c) == r.xor(a, r.xor(b, c))
  {
    assert Laws(r, Zero, a, b, Zero);
    assert Laws(r, a, b, Zero, c);
    assert Laws(r, c, c, c, c) && Laws(r, b, b, b, b) && Laws(r, a, a, a, a);
  }

  lemma MultLaws(a: Bits, b: Bits, c: Bits)
    ensures Mult(a, b) == Mult(b, a) && Mult(Mult(a, b), c) == Mult(a, Mult(b, c)) && Mult(a, One) == a
    ensures Mult(a, R.xor(b, c)) == R.xor(Mult(a, b), Mult(a, c))
    ensures a != Zero ==> Mult(a, Power254(Mult, a)) == One
  {
    MultCommutative();
    assert ProductLaws(Mult, a, b, c) && ProductLaws(Mult, a, One, One);
    RUnit();
    Distributes(R, a, b, c);
    MultFrobenius(a);
    MultFrobenius(Ones(Mult, a, 8));
    if a != Zero {
      Fermat(Mult, a);
    }
  }

  /** The bytes as a field: XOR, and multiplication modulo x^8 + x^4 + x^3 + x^2 + 1. */
  function ByteField(): Gf {
    var to := (b: Byte) => ToBits(b);
    Gf(Carry(to, ToByte, R.xor), Carry(to, ToByte, Mult), Carry1(to, ToByte, a => Power254(Mult, a)))
  }

  lemma ByteOperations(a: Byte, b: Byte)
    ensures ByteField().add(a, b) == ToByte(Xor(ToBits(a), ToBits(b)))
    ensures ByteField().mul(a, b) == ToByte(Mult(ToBits(a), ToBits(b)))
  {
    var to := (b: Byte) => ToBits(b);
    CarryAt(to, ToByte, R.xor, a, b);
    CarryAt(to, ToByte, Mult, a, b);
  }

  /** There is a lawful field on the bytes whose addition is XOR and whose multiplication is that of
  polynomials over the bits, modulo x^8 + x^4 + x^3 + x^2 + 1. */
  lemma Gf256IsLawful() returns (g: Gf)
    ensures Lawful(g)
    ensures forall a: Byte, b: Byte :: g.add(a, b) == ToByte(Xor(ToBits(a), ToBits(b)))
    ensures forall a: Byte, b: Byte :: g.mul(a, b) == ToByte(Mult(ToBits(a), ToBits(b)))
  {
    g := ByteField();
    ByteFieldLawful();
    forall a: Byte, b: Byte ensures g.add(a, b) == ToByte(Xor(ToBits(a), ToBits(b))) {
      ByteOperations(a, b);
    }
    forall a: Byte, b: Byte ensures g.mul(a, b) == ToByte(Mult(ToBits(a), ToBits(b))) {
      ByteOperations(a, b);
    }
  }

  lemma ByteFieldLawful()
    ensures Lawful(ByteField())
  {
    var to := (b: Byte) => ToBits(b);
    var i: Bits -> Bits := a => Power254(Mult, a);
    BitsAreBytes(to);
    AllRingLaws(i);
    CarryLawful(to, ToByte, R.xor, Mult, i, ByteField());
  }

  lemma BitsAreBytes(to: Byte -> Bits)
    requires forall b: Byte :: to(b) == ToBits(b)
    ensures Inverse(to, ToByte)
  {
    forall b: Byte ensures ToByte(to(b)) == b {
      ByteOfBits(b);
    }
    forall v ensures to(ToByte(v)) == v {
      BitsOfByte(v);
    }
    ZeroAndOne();
  }

  lemma AllRingLaws(i: Bits -> Bits)
    requires forall a :: i(a) == Power254(Mult, a)
    ensures forall a, b, c :: RingLaws(R.xor, Mult, i, a, b, c)
  {
    RGood();
    forall a, b, c ensures RingLaws(R.xor, Mult, i, a, b, c) {
      XorLaws(R, a, b, c);
      MultLaws(a, b, c);
    }
  }
}

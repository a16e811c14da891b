/**
 * Prime-field arithmetic as the pickles code uses it: a field element is
 * its canonical integer representative in [0, p), and every operation
 * reduces modulo p.  Inversion and square root belong to the external
 * field backend; they are given as functions in a `Backend` value, and the
 * only promise made about inversion is `InvertsNonZero`.
 */
module FieldArith {

  predicate IsElem(x: int, p: nat) {
    0 <= x < p
  }

  function Reduce(x: int, p: nat): (r: int)
    requires p > 0
    ensures IsElem(r, p)
  {
    x % p
  }

  function Add(x: int, y: int, p: nat): (r: int)
    requires p > 0
    ensures IsElem(r, p)
  {
    (x + y) % p
  }

  function Sub(x: int, y: int, p: nat): (r: int)
    requires p > 0
    ensures IsElem(r, p)
  {
    (x - y) % p
  }

  function Neg(x: int, p: nat): (r: int)
    requires p > 0
    ensures IsElem(r, p)
  {
    (-x) % p
  }

  function Mul(x: int, y: int, p: nat): (r: int)
    requires p > 0
    ensures IsElem(r, p)
  {
    (x * y) % p
  }

  function Double(x: int, p: nat): (r: int)
    requires p > 0
    ensures IsElem(r, p)
  {
    (2 * x) % p
  }

  function Square(x: int, p: nat): (r: int)
    requires p > 0
    ensures IsElem(r, p)
  {
    Mul(x, x, p)
  }

  /** The external field backend: `inv` stands for `inversed()`, `sqrt` for `sqrt()`. */
  datatype Backend = Backend(inv: int -> int, sqrt: int -> int)

  function Inv(be: Backend, x: int, p: nat): (r: int)
    requires p > 0
    ensures IsElem(r, p)
  {
    be.inv(x) % p
  }

  function Sqrt(be: Backend, x: int, p: nat): (r: int)
    requires p > 0
    ensures IsElem(r, p)
  {
    be.sqrt(x) % p
  }

  /** The one promise made about the backend: every non-zero element has an inverse. */
  predicate InvertsNonZero(be: Backend, p: nat)
    requires p > 0
  {
    forall x :: 0 < x < p ==> Mul(x, Inv(be, x, p), p) == 1
  }

  // ---------------------------------------------------------------------
  // Congruence lemmas used to move between field operations and integer
  // polynomials.

  lemma MulNonNegMonotone(p: int, d: int)
    requires p > 0 && d >= 1
    ensures p * d >= p
  {
  }

  /** Euclidean division is unique: the remainder is determined by any decomposition. */
  lemma ModUnique(x: int, q: int, r: int, p: nat)
    requires p > 0
    requires x == q * p + r && 0 <= r < p
    ensures x % p == r
  {
    var q0, r0 := x / p, x % p;
    assert x == q0 * p + r0;
    assert (q0 - q) * p == r - r0;
    if q0 > q {
      MulNonNegMonotone(p, q0 - q);
      assert false;
    } else if q0 < q {
      MulNonNegMonotone(p, q - q0);
      assert false;
    }
  }

  lemma ModOfElem(x: int, p: nat)
    requires IsElem(x, p)
    ensures x % p == x
  {
    ModUnique(x, 0, x, p);
  }

  lemma ModShift(x: int, k: int, p: nat)
    requires p > 0
    ensures (x + k * p) % p == x % p
  {
    ModUnique(x + k * p, x / p + k, x % p, p);
  }

  /** Reducing the left summand first does not change the sum modulo p. */
  lemma AddModL(x: int, y: int, p: nat)
    requires p > 0
    ensures ((x % p) + y) % p == (x + y) % p
  {
    ModShift((x % p) + y, x / p, p);
    assert (x % p) + y + (x / p) * p == x + y;
  }

  lemma AddModR(x: int, y: int, p: nat)
    requires p > 0
    ensures (x + (y % p)) % p == (x + y) % p
  {
    AddModL(y, x, p);
  }

  lemma SubModL(x: int, y: int, p: nat)
    requires p > 0
    ensures ((x % p) - y) % p == (x - y) % p
  {
    AddModL(x, -y, p);
  }

  lemma SubModR(x: int, y: int, p: nat)
    requires p > 0
    ensures (x - (y % p)) % p == (x - y) % p
  {
    var q := y / p;
    assert y == q * p + y % p;
    ModShift(x - y, q, p);
    assert x - y + q * p == x - (y % p);
  }

  /** Reducing the left factor first does not change the product modulo p. */
  lemma MulModL(x: int, y: int, p: nat)
    requires p > 0
    ensures ((x % p) * y) % p == (x * y) % p
  {
    var q := x / p;
    assert x == q * p + x % p;
    assert x * y == (x % p) * y + (q * y) * p;
    ModShift((x % p) * y, q * y, p);
  }

  lemma MulModR(x: int, y: int, p: nat)
    requires p > 0
    ensures (x * (y % p)) % p == (x * y) % p
  {
    MulModL(y, x, p);
  }

  lemma MulModBoth(x: int, y: int, p: nat)
    requires p > 0
    ensures ((x % p) * (y % p)) % p == (x * y) % p
  {
    MulModL(x, y % p, p);
    MulModR(x, y, p);
  }

  /** Multiplying by a representative of 1 does not change the residue. */
  lemma MulByUnit(x: int, v: int, p: nat)
    requires p > 0 && v % p == 1
    ensures (x * v) % p == x % p
  {
    MulModR(x, v, p);
  }

  lemma NegMod(x: int, p: nat)
    requires p > 0
    ensures Neg(x % p, p) == Neg(x, p)
  {
    SubModR(0, x, p);
  }

  /** (c - k) - c = -k in the field. */
  lemma SubThenSubBack(c: int, k: int, p: nat)
    requires p > 0
    ensures Sub(Sub(c, k, p), c, p) == Neg(k, p)
  {
    SubModL(c - k, c, p);
  }

  /** u - (u - j) = j in the field. */
  lemma SubSubIsOriginal(u: int, j: int, p: nat)
    requires p > 0 && IsElem(j, p)
    ensures Sub(u, Sub(u, j, p), p) == j
  {
    SubModR(u, u - j, p);
    ModOfElem(j, p);
  }

  /** (-k) * w = -(k * w) in the field. */
  lemma NegTimes(k: int, w: int, p: nat)
    requires p > 0
    ensures Mul(Neg(k, p), w, p) == Neg(Mul(k, w, p), p)
  {
    MulModL(-k, w, p);
    assert (-k) * w == -(k * w);
    NegMod(k * w, p);
  }

  /** Dividing by a non-zero k and multiplying back by k returns the element. */
  lemma TimesInverse(be: Backend, k: int, d: int, p: nat)
    requires p > 1 && InvertsNonZero(be, p)
    requires IsElem(k, p) && k != 0 && IsElem(d, p)
    ensures Mul(k, Mul(d, Inv(be, k, p), p), p) == d
  {
    var ik := Inv(be, k, p);
    assert Mul(k, ik, p) == 1;
    MulModR(k, d * ik, p);
    assert k * (d * ik) == d * (k * ik);
    MulByUnit(d, k * ik, p);
    ModOfElem(d, p);
  }

  lemma MulRearrange(x: int, y: int, ix: int, iy: int)
    ensures (x * y) * (ix * iy) == (x * ix) * (y * iy)
  {
  }

  /**
   * A backend that inverts every non-zero element leaves no zero divisors:
   * the product of two non-zero elements is non-zero.
   */
  lemma NoZeroDivisors(be: Backend, x: int, y: int, p: nat)
    requires p > 1 && InvertsNonZero(be, p)
    requires IsElem(x, p) && IsElem(y, p) && x != 0 && y != 0
    ensures Mul(x, y, p) != 0
  {
    if Mul(x, y, p) == 0 {
      ModOfElem(1, p);
      var ix, iy := Inv(be, x, p), Inv(be, y, p);
      var m, n := x * y, ix * iy;
      var u, v := x * ix, y * iy;
      assert u % p == 1 && v % p == 1;
      assert m % p == 0;
      assert (m % p) * n == 0;
      ModOfElem(0, p);
      MulModL(m, n, p);
      assert (m * n) % p == 0;
      MulRearrange(x, y, ix, iy);
      assert m * n == u * v;
      MulModBoth(u, v, p);
      assert false;
    }
  }
}

/**
 * `ScalarChallenge::to_field`: expands a short verifier challenge into a
 * full scalar `a * endo_coeff + b`.  Two accumulators start at 2; the
 * challenge's bits are scanned in pairs from the most significant pair down;
 * each step doubles both accumulators and then moves exactly one of them by
 * +1 or -1.
 *
 * The accumulators are specified over the unbounded integers (`Decode`);
 * the method works in the field and is proved to produce `Decode` reduced
 * modulo p.
 */
module ScalarChallengeDecoder {
  import opened FieldArith

  const LIMB_BITS: nat := 64
  /** Number of 64-bit limbs in a challenge; two in the reference construction. */
  const CHALLENGE_LENGTH_IN_LIMBS: nat := 2

  /** `length_in_bits`: the number of challenge bits the scan reads. */
  function LengthInBits(): nat {
    LIMB_BITS * CHALLENGE_LENGTH_IN_LIMBS
  }

  /** A challenge is a scalar-field element; `val` is its canonical integer representative. */
  datatype ScalarChallenge = ScalarChallenge(val: nat)

  datatype Accumulators = Accumulators(a: int, b: int)

  function Pow2(k: nat): (r: nat)
    ensures r >= 1
  {
    if k == 0 then 1 else 2 * Pow2(k - 1)
  }

  /** `bit_test(rep, k)`: bit k of rep, found by k halvings (see `BitIsQuotientParity`). */
  function Bit(rep: nat, k: nat): (r: nat)
    ensures r == 0 || r == 1
  {
    if k == 0 then rep % 2 else Bit(rep / 2, k - 1)
  }

  /** The amount `s` added on the step for pair i: +1 when bit 2i is set, -1 otherwise. */
  function Sign(rep: nat, i: nat): (s: int)
    ensures s == 1 || s == -1
    ensures s == 1 <==> Bit(rep, 2 * i) == 1
  {
    if Bit(rep, 2 * i) == 1 then 1 else -1
  }

  /**
   * One step of the scan, for pair i: both accumulators double, then exactly
   * one of them moves by Sign(rep, i); bit 2i+1 clear selects b, set selects a.
   */
  function Step(acc: Accumulators, rep: nat, i: nat): (r: Accumulators)
    ensures (r.a - 2 * acc.a) + (r.b - 2 * acc.b) == Sign(rep, i)
    ensures r.a == 2 * acc.a <==> Bit(rep, 2 * i + 1) == 0
    ensures r.b == 2 * acc.b <==> Bit(rep, 2 * i + 1) == 1
  {
    var a, b := 2 * acc.a, 2 * acc.b;
    if Bit(rep, 2 * i + 1) == 0 then Accumulators(a, b + Sign(rep, i))
    else Accumulators(a + Sign(rep, i), b)
  }

  /** The integer accumulators after the scan has processed pairs hi-1 down to lo. */
  function Decode(rep: nat, hi: nat, lo: nat): Accumulators
    requires lo <= hi
    decreases hi - lo
  {
    if lo == hi then Accumulators(2, 2)
    else Step(Decode(rep, hi, lo + 1), rep, lo)
  }

  /** The value `a * endo_coeff + b` the scan returns, in the field of order p. */
  function Combine(acc: Accumulators, endoCoeff: int, p: nat): (r: int)
    requires p > 0
  {
    Add(Mul(acc.a, endoCoeff, p), acc.b, p)
  }

  /**
   * `to_field`: the field result is the integer decoding of pairs L/2 - 1
   * down to 0 (`Decode(rep, L/2, 0)`), combined and reduced modulo p.
   */
  method ToField(c: ScalarChallenge, endoCoeff: int, p: nat) returns (r: int)
    requires p > 1 && IsElem(c.val, p) && IsElem(endoCoeff, p)
    ensures IsElem(r, p)
    ensures r == Combine(Decode(c.val, LengthInBits() / 2, 0), endoCoeff, p)
  {
    var lengthInBits := LIMB_BITS * CHALLENGE_LENGTH_IN_LIMBS;
    var n := lengthInBits / 2;
    var rep := c.val;
    var a := Reduce(2, p);
    var b := Reduce(2, p);
    var one := Reduce(1, p);
    var negOne := Neg(one, p);
    ModOfElem(1, p);
    assert one == 1 % p && negOne == (-1) % p;
    var i: int := n - 1;
    while i >= 0
      invariant -1 <= i < n
      invariant a == Decode(rep, n, i + 1).a % p
      invariant b == Decode(rep, n, i + 1).b % p
      decreases i
    {
      ghost var a0, b0 := a, b;
      a := Double(a, p);
      b := Double(b, p);
      var r2i := Bit(rep, 2 * i) == 1;
      var s := if r2i then one else negOne;
      SignInField(rep, i, r2i, s, one, negOne, p);
      StepInField(rep, n, i, a0, b0, s, p);
      if Bit(rep, 2 * i + 1) == 0 {
        b := Add(b, s, p);
      } else {
        a := Add(a, s, p);
      }
      i := i - 1;
    }
    r := Add(Mul(a, endoCoeff, p), b, p);
    ghost var acc := Decode(rep, n, 0);
    CombineInField(acc, endoCoeff, a, b, p);
  }

  lemma SignInField(rep: nat, i: nat, r2i: bool, s: int, one: int, negOne: int, p: nat)
    requires p > 0 && one == 1 % p && negOne == (-1) % p
    requires r2i == (Bit(rep, 2 * i) == 1) && s == (if r2i then one else negOne)
    ensures s == Sign(rep, i) % p
  {
  }

  /** Combining the reduced accumulators in the field gives `Combine` of the integer ones. */
  lemma CombineInField(acc: Accumulators, endoCoeff: int, a: int, b: int, p: nat)
    requires p > 0 && a == acc.a % p && b == acc.b % p
    ensures Add(Mul(a, endoCoeff, p), b, p) == Combine(acc, endoCoeff, p)
  {
    MulModL(acc.a, endoCoeff, p);
    AddModR(Mul(acc.a, endoCoeff, p), acc.b, p);
  }

  /** The field update of one loop step agrees with `Step` reduced modulo p. */
  lemma StepInField(rep: nat, n: nat, i: nat, a: int, b: int, s: int, p: nat)
    requires p > 1 && i < n
    requires a == Decode(rep, n, i + 1).a % p && b == Decode(rep, n, i + 1).b % p
    requires s == Sign(rep, i) % p
    ensures var next := Decode(rep, n, i);
            && (Bit(rep, 2 * i + 1) == 0 ==> Double(a, p) == next.a % p && Add(Double(b, p), s, p) == next.b % p)
            && (Bit(rep, 2 * i + 1) == 1 ==> Add(Double(a, p), s, p) == next.a % p && Double(b, p) == next.b % p)
  {
    var prev := Decode(rep, n, i + 1);
    assert Decode(rep, n, i) == Step(prev, rep, i);
    MulModR(2, prev.a, p);
    MulModR(2, prev.b, p);
    var sg := Sign(rep, i);
    AddModL(2 * prev.a, s, p);
    AddModR(2 * prev.a, sg, p);
    AddModL(2 * prev.b, s, p);
    AddModR(2 * prev.b, sg, p);
  }

  // ---------------------------------------------------------------------
  // Properties of the decoding.

  /** `bit_test` is the parity of `rep / 2^k`; the halving definition of `Bit` agrees with it. */
  lemma {:induction false} BitIsQuotientParity(rep: nat, k: nat)
    ensures Bit(rep, k) == (rep / Pow2(k)) % 2
  {
    if k > 0 {
      BitIsQuotientParity(rep / 2, k - 1);
      DivDiv2(rep, Pow2(k - 1));
    }
  }

  /** Halving and then dividing by m is dividing by 2m. */
  lemma DivDiv2(x: nat, m: nat)
    requires m > 0
    ensures (x / 2) / m == x / (2 * m)
  {
    var q, r2 := (x / 2) / m, (x / 2) % m;
    assert x / 2 == q * m + r2;
    assert x == q * (2 * m) + (2 * r2 + x % 2);
    DivUnique(x, q, 2 * r2 + x % 2, 2 * m);
  }

  lemma DivUnique(x: int, q: int, r: int, d: nat)
    requires d > 0 && x == q * d + r && 0 <= r < d
    ensures x / d == q
  {
    ModUnique(x, q, r, d);
    assert (x / d) * d == q * d;
    assert (x / d - q) * d == 0;
  }

  /** After k steps each accumulator lies in [2^k + 1, 3 * 2^k - 1]. */
  lemma {:induction false} DecodeBounds(rep: nat, hi: nat, lo: nat)
    requires lo <= hi
    ensures var r := Decode(rep, hi, lo);
            && Pow2(hi - lo) + 1 <= r.a <= 3 * Pow2(hi - lo) - 1
            && Pow2(hi - lo) + 1 <= r.b <= 3 * Pow2(hi - lo) - 1
    decreases hi - lo
  {
    if lo < hi {
      DecodeBounds(rep, hi, lo + 1);
      assert Pow2(hi - lo) == 2 * Pow2(hi - (lo + 1));
    }
  }

  /**
   * When 3 * 2^n does not exceed p, reduction modulo p leaves both
   * accumulators unchanged: the field computation never wraps.
   */
  lemma NoWrap(rep: nat, n: nat, p: nat)
    requires 3 * Pow2(n) <= p
    ensures var r := Decode(rep, n, 0);
            && IsElem(r.a, p) && IsElem(r.b, p)
            && r.a % p == r.a && r.b % p == r.b
  {
    DecodeBounds(rep, n, 0);
    var r := Decode(rep, n, 0);
    ModOfElem(r.a, p);
    ModOfElem(r.b, p);
  }

  /** Only bits below 2 * hi are read: challenges that agree there decode alike. */
  lemma {:induction false} DecodeReadsLowBits(rep1: nat, rep2: nat, hi: nat, lo: nat)
    requires lo <= hi
    requires forall k :: 2 * lo <= k < 2 * hi ==> Bit(rep1, k) == Bit(rep2, k)
    ensures Decode(rep1, hi, lo) == Decode(rep2, hi, lo)
    decreases hi - lo
  {
    if lo < hi {
      DecodeReadsLowBits(rep1, rep2, hi, lo + 1);
      assert Bit(rep1, 2 * lo) == Bit(rep2, 2 * lo);
      assert Bit(rep1, 2 * lo + 1) == Bit(rep2, 2 * lo + 1);
    }
  }

  /** Bit k of `rep % 2^m` is bit k of rep, for k < m. */
  lemma {:induction false} BitOfLowPart(rep: nat, m: nat, k: nat)
    requires k < m
    ensures Bit(rep % Pow2(m), k) == Bit(rep, k)
  {
    var lowPart := rep % Pow2(m);
    assert Pow2(m) == 2 * Pow2(m - 1);
    var q := rep / Pow2(m);
    assert rep == q * Pow2(m) + lowPart;
    // Halving both sides keeps the decomposition one bit shorter.
    assert rep == (q * Pow2(m - 1)) * 2 + lowPart;
    ModUnique(rep, q * Pow2(m - 1) + lowPart / 2, lowPart % 2, 2) by {
      assert lowPart == (lowPart / 2) * 2 + lowPart % 2;
    }
    ModUnique(lowPart, lowPart / 2, lowPart % 2, 2);
    if k > 0 {
      DivUnique(rep, q * Pow2(m - 1) + lowPart / 2, lowPart % 2, 2) by {
        assert lowPart == (lowPart / 2) * 2 + lowPart % 2;
      }
      assert lowPart / 2 < Pow2(m - 1);
      ModUnique(rep / 2, q, lowPart / 2, Pow2(m - 1));
      BitOfLowPart(rep / 2, m - 1, k - 1);
    }
  }

  /** Only the low `LengthInBits()` bits of a challenge affect `to_field`. */
  lemma ToFieldReadsLowBits(rep: nat)
    ensures var n := LengthInBits() / 2;
            Decode(rep, n, 0) == Decode(rep % Pow2(2 * n), n, 0)
  {
    var n := LengthInBits() / 2;
    forall k | 0 <= k < 2 * n
      ensures Bit(rep, k) == Bit(rep % Pow2(2 * n), k)
    {
      BitOfLowPart(rep, 2 * n, k);
    }
    DecodeReadsLowBits(rep, rep % Pow2(2 * n), n, 0);
  }

  /** A challenge whose scanned bits are all clear decodes to a = 2^(n+1), b = 2^n + 1. */
  lemma {:induction false} DecodeAllZero(rep: nat, hi: nat, lo: nat)
    requires lo <= hi
    requires forall k :: 2 * lo <= k < 2 * hi ==> Bit(rep, k) == 0
    ensures Decode(rep, hi, lo) == Accumulators(Pow2(hi - lo + 1), Pow2(hi - lo) + 1)
    decreases hi - lo
  {
    if lo < hi {
      DecodeAllZero(rep, hi, lo + 1);
      assert Bit(rep, 2 * lo) == 0 && Bit(rep, 2 * lo + 1) == 0;
      assert Pow2(hi - lo + 1) == 2 * Pow2(hi - lo);
      assert Pow2(hi - lo) == 2 * Pow2(hi - (lo + 1));
    }
  }

  /** A challenge whose scanned bits are all set decodes to a = 3 * 2^n - 1, b = 2^(n+1). */
  lemma {:induction false} DecodeAllOnes(rep: nat, hi: nat, lo: nat)
    requires lo <= hi
    requires forall k :: 2 * lo <= k < 2 * hi ==> Bit(rep, k) == 1
    ensures Decode(rep, hi, lo) == Accumulators(3 * Pow2(hi - lo) - 1, Pow2(hi - lo + 1))
    decreases hi - lo
  {
    if lo < hi {
      DecodeAllOnes(rep, hi, lo + 1);
      assert Bit(rep, 2 * lo) == 1 && Bit(rep, 2 * lo + 1) == 1;
      assert Pow2(hi - lo + 1) == 2 * Pow2(hi - lo);
      assert Pow2(hi - lo) == 2 * Pow2(hi - (lo + 1));
    }
  }

  /** Every bit of 2^m - 1 below m is set. */
  lemma {:induction false} AllOnesBit(m: nat, k: nat)
    requires k < m
    ensures Bit(Pow2(m) - 1, k) == 1
  {
    assert Pow2(m) == 2 * Pow2(m - 1);
    if k > 0 {
      assert (Pow2(m) - 1) / 2 == Pow2(m - 1) - 1;
      AllOnesBit(m - 1, k - 1);
    }
  }

  /** The all-zero challenge: `to_field` yields 2^(n+1) * endo_coeff + 2^n + 1 with n = L/2. */
  lemma ZeroChallenge(n: nat)
    ensures Decode(0, n, 0) == Accumulators(Pow2(n + 1), Pow2(n) + 1)
  {
    forall k | 0 <= k < 2 * n ensures Bit(0, k) == 0 {
      ZeroBit(k);
    }
    DecodeAllZero(0, n, 0);
  }

  lemma {:induction false} ZeroBit(k: nat)
    ensures Bit(0, k) == 0
  {
    if k > 0 {
      ZeroBit(k - 1);
    }
  }

  /** The all-ones challenge 2^(2n) - 1: `to_field` yields (3 * 2^n - 1) * endo_coeff + 2^(n+1). */
  lemma OnesChallenge(n: nat)
    ensures Decode(Pow2(2 * n) - 1, n, 0) == Accumulators(3 * Pow2(n) - 1, Pow2(n + 1))
  {
    var ones := Pow2(2 * n) - 1;
    forall k | 0 <= k < 2 * n ensures Bit(ones, k) == 1 {
      AllOnesBit(2 * n, k);
    }
    DecodeAllOnes(ones, n, 0);
  }

  /**
   * A hand-traced mixed pattern over two pairs, rep = 0b1001: pair 1 (bits
   * 3, 2 = 1, 0) moves a by -1 giving (3, 4); pair 0 (bits 1, 0 = 0, 1)
   * doubles to (6, 8) and moves b by +1.
   */
  lemma MixedPatternExample()
    ensures Decode(9, 2, 0) == Accumulators(6, 9)
  {
    assert Bit(9, 2) == 0 && Bit(9, 3) == 1;
    assert Bit(9, 0) == 1 && Bit(9, 1) == 0;
    assert Decode(9, 2, 1) == Accumulators(3, 4);
  }

  // ---------------------------------------------------------------------
  // The accumulators as signed binary expansions.

  /** The digit pair i contributes to a: its sign when bit 2i+1 is set, else 0. */
  function DigitA(rep: nat, i: nat): int {
    if Bit(rep, 2 * i + 1) == 1 then Sign(rep, i) else 0
  }

  /** The digit pair i contributes to b: its sign when bit 2i+1 is clear, else 0. */
  function DigitB(rep: nat, i: nat): int {
    if Bit(rep, 2 * i + 1) == 0 then Sign(rep, i) else 0
  }

  /** The sum over pairs lo <= i < hi of digit(i) * 2^(i - lo), for a (`forA`) or b. */
  function DigitSum(rep: nat, lo: nat, hi: nat, forA: bool): int
    requires lo <= hi
    decreases hi - lo
  {
    if lo == hi then 0
    else
      var d := if forA then DigitA(rep, hi - 1) else DigitB(rep, hi - 1);
      DigitSum(rep, lo, hi - 1, forA) + d * Pow2(hi - 1 - lo)
  }

  lemma {:induction false} DigitSumPeel(rep: nat, lo: nat, hi: nat, forA: bool)
    requires lo < hi
    ensures DigitSum(rep, lo, hi, forA)
         == (if forA then DigitA(rep, lo) else DigitB(rep, lo)) + 2 * DigitSum(rep, lo + 1, hi, forA)
    decreases hi - lo
  {
    if lo + 1 < hi {
      DigitSumPeel(rep, lo, hi - 1, forA);
      var d := if forA then DigitA(rep, hi - 1) else DigitB(rep, hi - 1);
      TermDoubles(d, hi - 1 - (lo + 1));
    }
  }

  lemma TermDoubles(d: int, k: nat)
    ensures d * Pow2(k + 1) == 2 * (d * Pow2(k))
  {
    assert Pow2(k + 1) == 2 * Pow2(k);
  }

  /**
   * The accumulators are signed binary numbers: a = 2^(k+1) + sum of
   * DigitA(i) * 2^(i - lo), and likewise b, where k = hi - lo.
   */
  lemma {:induction false} DecodeIsDigitExpansion(rep: nat, hi: nat, lo: nat)
    requires lo <= hi
    ensures Decode(rep, hi, lo).a == Pow2(hi - lo + 1) + DigitSum(rep, lo, hi, true)
    ensures Decode(rep, hi, lo).b == Pow2(hi - lo + 1) + DigitSum(rep, lo, hi, false)
    decreases hi - lo
  {
    if lo < hi {
      DecodeIsDigitExpansion(rep, hi, lo + 1);
      DigitSumPeel(rep, lo, hi, true);
      DigitSumPeel(rep, lo, hi, false);
      assert Pow2(hi - lo + 1) == 2 * Pow2(hi - (lo + 1) + 1);
    }
  }
}

# Pickles helpers: scalar-challenge decoding and the group map

This project is a Dafny model of the helper code of the Pickles/Kimchi
verifier in crypto3-zk (`pickles/detail.hpp`). It covers three things.

* **`ScalarChallenge::to_field`** (`scalar_challenge.dfy`). This turns a
  128-bit verifier challenge into a scalar `a * endo_coeff + b`.
  * The two accumulators start at 2.
  * The challenge's bits are read in pairs, from pair L/2 − 1 down to pair 0.
  * Each pair doubles both accumulators. It then adds +1 or −1 (chosen by
    bit 2i) to `b` when bit 2i+1 is clear, and to `a` when it is set.
  * The method keeps the source's counting-down loop in the field. It is
    proved equal to an integer specification, `Decode`, reduced modulo p.
  * The lemmas about `Decode` give:
    * its bounds and the condition under which nothing wraps;
    * that only the scanned bits are read;
    * the all-zero and all-ones challenges in closed form;
    * a hand-traced mixed pattern;
    * the accumulators as signed binary expansions.
* **`group_map`** (`group_map.dfy`). A class with the source's precomputed
  fields.
  * `curve_eqn` evaluates by Horner's rule and is proved equal to
    x³ + a·x + b.
  * The constructor's search loop is proved to find the least u ≥ 1 with
    curve_eqn(u) ≠ 0. With a backend that inverts non-zero elements,
    3u² ≠ 0, inv_three_u_squared is its inverse, and twice
    sqrt_neg_three_u_squared_minus_u_over_2 is sqrt_neg_three_u_squared − u.
    sqrt_neg_three_u_squared itself is whatever the backend's square root
    returns.
  * The three candidate x-coordinates are proved to satisfy x1 + x2 = −u
    for every t. With a backend that inverts non-zero elements, and for
    t ≠ 0 and t² + fu ≠ 0, they also satisfy the Fouque–Tibouchi relations
    for x1 and x3.
  * `get_xy` and `to_group` are proved to return the point of the first
    candidate whose square-root check passes. Otherwise they return the
    sentinel (0, 0, 1). Any other result lies on the curve.
* **The plain records and enumerations** of the same header
  (`pickles_types.dfy`). These include gate kinds with their explicit numbers
  and a proved round trip.

Field elements are integers in [0, p) with p a parameter, and every
operation reduces modulo p (`field.dfy`). The field backend's `inversed()`
and `sqrt()` are function-valued parameters (`FieldArith.Backend`).
Inversion is assumed to invert non-zero elements only in the lemmas that
say so (`InvertsNonZero`). Nothing at all is assumed about the square root,
which is why `get_xy` has a fallback.

Three points about the code are worth stating, because a reader might
expect otherwise:

* **First-candidate coefficient.** `x1` multiplies by `t2.squared()`, that
  is t⁴ (detail.hpp line 194). With alpha = 1/((t² + fu)·t²), this gives
  c0 − t²·√(−3u²)/(t² + fu), the Fouque–Tibouchi formula.
  `FirstCandidate` proves exactly this.
* **Fallback point.** When no candidate passes the check, `get_xy` returns
  the triple (0, 0, 1) (line 221), and the model does the same.
* **All-zero challenge.** Every step of the loop doubles both accumulators,
  so with n = L/2 pairs the all-zero challenge yields a = 2^(n+1),
  b = 2^n + 1 (`ZeroChallenge`).

## Model

| member | source | states |
|---|---|---|
| ScalarChallengeDecoder.Bit | include/nil/crypto3/zk/snark/systems/plonk/pickles/detail.hpp:130 | `bit_test` yields a single bit, 0 or 1 |
| ScalarChallengeDecoder.BitIsQuotientParity | include/nil/crypto3/zk/snark/systems/plonk/pickles/detail.hpp:130 | bit k of rep is the parity of rep / 2^k, the meaning of `bit_test(rep, k)` |
| ScalarChallengeDecoder.Sign | include/nil/crypto3/zk/snark/systems/plonk/pickles/detail.hpp:130-136 | s is +1 or −1, and +1 exactly when bit 2i is set |
| ScalarChallengeDecoder.Step | include/nil/crypto3/zk/snark/systems/plonk/pickles/detail.hpp:127-141 | one step doubles both accumulators and moves exactly one by s: b stays doubled iff bit 2i+1 is set, a stays doubled iff it is clear |
| ScalarChallengeDecoder.ToField | include/nil/crypto3/zk/snark/systems/plonk/pickles/detail.hpp:116-145 | the field result is `a * endo_coeff + b` of the integer decoding of exactly L/2 pairs, taken from pair L/2 − 1 down to pair 0, reduced mod p |
| ScalarChallengeDecoder.DecodeBounds | include/nil/crypto3/zk/snark/systems/plonk/pickles/detail.hpp:120-141 | after k pairs both accumulators lie in [2^k + 1, 3·2^k − 1] |
| ScalarChallengeDecoder.NoWrap | include/nil/crypto3/zk/snark/systems/plonk/pickles/detail.hpp:120-144 | when 3·2^n ≤ p the field accumulators equal the integer ones: nothing wraps |
| ScalarChallengeDecoder.DecodeReadsLowBits | include/nil/crypto3/zk/snark/systems/plonk/pickles/detail.hpp:126-141 | challenges that agree on bits 2·lo .. 2·hi − 1 decode to the same accumulators |
| ScalarChallengeDecoder.BitOfLowPart | include/nil/crypto3/zk/snark/systems/plonk/pickles/detail.hpp:130-137 | reducing rep modulo 2^m keeps every bit below m, so `bit_test` at any k < m reads the same bit |
| ScalarChallengeDecoder.ToFieldReadsLowBits | include/nil/crypto3/zk/snark/systems/plonk/pickles/detail.hpp:117-141 | only the low L bits of the representation affect the result |
| ScalarChallengeDecoder.DecodeAllZero | include/nil/crypto3/zk/snark/systems/plonk/pickles/detail.hpp:120-141 | with every scanned bit clear, k pairs give a = 2^(k+1), b = 2^k + 1 |
| ScalarChallengeDecoder.DecodeAllOnes | include/nil/crypto3/zk/snark/systems/plonk/pickles/detail.hpp:120-141 | with every scanned bit set, k pairs give a = 3·2^k − 1, b = 2^(k+1) |
| ScalarChallengeDecoder.AllOnesBit | include/nil/crypto3/zk/snark/systems/plonk/pickles/detail.hpp:130 | every bit of 2^m − 1 below m is set |
| ScalarChallengeDecoder.ZeroChallenge | include/nil/crypto3/zk/snark/systems/plonk/pickles/detail.hpp:120-144 | the all-zero challenge decodes to a = 2^(n+1), b = 2^n + 1 |
| ScalarChallengeDecoder.OnesChallenge | include/nil/crypto3/zk/snark/systems/plonk/pickles/detail.hpp:120-144 | the challenge 2^(2n) − 1 decodes to a = 3·2^n − 1, b = 2^(n+1) |
| ScalarChallengeDecoder.MixedPatternExample | include/nil/crypto3/zk/snark/systems/plonk/pickles/detail.hpp:126-141 | the pattern 0b1001 over two pairs decodes to a = 6, b = 9 |
| ScalarChallengeDecoder.DigitSumPeel | include/nil/crypto3/zk/snark/systems/plonk/pickles/detail.hpp:126-141 | a signed digit sum splits into its lowest digit plus twice the rest |
| ScalarChallengeDecoder.DecodeIsDigitExpansion | include/nil/crypto3/zk/snark/systems/plonk/pickles/detail.hpp:120-141 | a = 2^(k+1) + Σ digitA(i)·2^i and b likewise: each pair contributes ±2^i to exactly one accumulator |
| ScalarChallengeDecoder.StepInField | include/nil/crypto3/zk/snark/systems/plonk/pickles/detail.hpp:127-141 | one field step of the loop agrees with the integer step reduced mod p |
| ScalarChallengeDecoder.CombineInField | include/nil/crypto3/zk/snark/systems/plonk/pickles/detail.hpp:144 | combining reduced accumulators gives `a * endo_coeff + b` of the integer ones |
| PicklesGroupMap.CurveEqn | include/nil/crypto3/zk/snark/systems/plonk/pickles/detail.hpp:165-172 | Horner's ((x·x + a)·x) + b equals x³ + a·x + b as the on-curve check computes it |
| PicklesGroupMap.HornerIsPolynomial | include/nil/crypto3/zk/snark/systems/plonk/pickles/detail.hpp:165-172 | the Horner chain of field operations equals the cubic of line 217 |
| PicklesGroupMap.LeastNonRootFrom | include/nil/crypto3/zk/snark/systems/plonk/pickles/detail.hpp:176-184 | the search from k stops at a non-root in [k, 4], and every value it passes is a root |
| PicklesGroupMap.LeastNonRoot | include/nil/crypto3/zk/snark/systems/plonk/pickles/detail.hpp:175-184 | u is the least value ≥ 1 with curve_eqn(u) ≠ 0 |
| PicklesGroupMap.GroupMap.constructor | include/nil/crypto3/zk/snark/systems/plonk/pickles/detail.hpp:174-191 | u is the least non-root, fu = curve_eqn(u) ≠ 0, and the other three constants are derived from u as the code derives them |
| PicklesGroupMap.DerivedConstants | include/nil/crypto3/zk/snark/systems/plonk/pickles/detail.hpp:186-189 | with a backend that inverts non-zero elements: 3u² ≠ 0, inv_three_u_squared · 3u² = 1, and 2 · sqrt_neg_three_u_squared_minus_u_over_2 = sqrt(−3u²) − u |
| PicklesGroupMap.GroupMap.PotentialXsHelper | include/nil/crypto3/zk/snark/systems/plonk/pickles/detail.hpp:193-200 | three field elements with x1 + x2 = −u |
| PicklesGroupMap.GroupMap.PotentialXs | include/nil/crypto3/zk/snark/systems/plonk/pickles/detail.hpp:202-207 | the candidates for t: three field elements with x1 + x2 = −u |
| PicklesGroupMap.AlphaInverts | include/nil/crypto3/zk/snark/systems/plonk/pickles/detail.hpp:203-204 | with a backend that inverts non-zero elements, for t ≠ 0 and t² + fu ≠ 0: alpha is the inverse of (t² + fu)·t² |
| PicklesGroupMap.FirstCandidate | include/nil/crypto3/zk/snark/systems/plonk/pickles/detail.hpp:193-207 | with a backend that inverts non-zero elements, for t ≠ 0 and t² + fu ≠ 0: (x1 − c0)·(t² + fu) = −t²·sqrt(−3u²), that is x1 = c0 − t²·sqrt(−3u²)/(t² + fu) |
| PicklesGroupMap.ThirdCandidate | include/nil/crypto3/zk/snark/systems/plonk/pickles/detail.hpp:193-207 | with a backend that inverts non-zero elements, for t ≠ 0 and t² + fu ≠ 0: (u − x3)·3u²·t² = (t² + fu)², that is x3 = u − (t² + fu)²/(3u²·t²) |
| PicklesGroupMap.GroupMap.GetY | include/nil/crypto3/zk/snark/systems/plonk/pickles/detail.hpp:209-211 | y = sqrt(curve_eqn(x)) is a field element |
| PicklesGroupMap.GroupMap.GetXY | include/nil/crypto3/zk/snark/systems/plonk/pickles/detail.hpp:213-222 | the result is the first candidate point, in order x1, x2, x3, whose check passes, or the sentinel |
| PicklesGroupMap.GroupMap.ToGroup | include/nil/crypto3/zk/snark/systems/plonk/pickles/detail.hpp:224-227 | the same point as `get_xy`; unless it is the sentinel it is on the curve, with x among the candidates |
| PicklesGroupMap.NoneAcceptedGivesSentinel | include/nil/crypto3/zk/snark/systems/plonk/pickles/detail.hpp:213-222 | when no candidate passes the check the result is (0, 0, 1) |
| PicklesGroupMap.FirstAcceptedIsChosen | include/nil/crypto3/zk/snark/systems/plonk/pickles/detail.hpp:213-222 | when candidate i is the first to pass, the result is (x_i, sqrt(curve_eqn(x_i)), 1) |
| PicklesGroupMap.FirstOnCurveIsOnCurve | include/nil/crypto3/zk/snark/systems/plonk/pickles/detail.hpp:215-219 | any result other than the sentinel satisfies y² = x³ + a·x + b with z = 1 and x a candidate |
| PicklesTypes.GateTypeCode | include/nil/crypto3/zk/snark/systems/plonk/pickles/detail.hpp:230-250 | every gate kind has a number in 0..10 |
| PicklesTypes.GateTypeOfCode | include/nil/crypto3/zk/snark/systems/plonk/pickles/detail.hpp:230-250 | a number names a gate kind iff it is at most 10 |
| PicklesTypes.GateTypeCodeRoundTrip | include/nil/crypto3/zk/snark/systems/plonk/pickles/detail.hpp:230-250 | each gate kind is recovered from its number |
| PicklesTypes.GateTypeOfCodeRoundTrip | include/nil/crypto3/zk/snark/systems/plonk/pickles/detail.hpp:230-250 | each number in 0..10 names a gate kind whose number it is |
| PicklesTypes.GateTypeCodeInjective | include/nil/crypto3/zk/snark/systems/plonk/pickles/detail.hpp:230-250 | two gate kinds have the same number iff they are the same kind |

## Left out

- Square root and inversion of the field backend are not modelled. They are parameters. Inversion is assumed correct on non-zero elements only where a lemma says `InvertsNonZero`. Nothing is assumed about the square root.
- The theorem that at least one of the three candidates always lies on the curve is not proved. It needs quadratic-residue facts about a correct square root that the backend parameter does not provide. The model proves what the code guarantees instead: the first passing candidate or (0, 0, 1).
- PicklesGroupMap.GroupMap.constructor: the source's `while(true)` search has no bound. The model requires that one of 1, 2, 3, 4 is not a root of x³ + a·x + b, and that p ≥ 5 (the code divides by 2 and by 3u²). Over a prime field with p ≥ 5 the first condition always holds, because a monic cubic has at most three roots. That fact is not proved here.
- ScalarChallengeDecoder.ToField: `CHALLENGE_LENGTH_IN_LIMBS` is defined outside `detail.hpp`. The model fixes it at 2, the reference construction. The lemmas about `Decode` hold for every number of pairs n.
- ScalarChallengeDecoder.ToField: the 32-bit loop counter is an unbounded integer. With 64 pairs it never comes near overflow.
- PicklesGroupMap.GroupMap.GetY: states only that y is a field element. Nothing is assumed about the backend's square root, so whether y² = curve_eqn(x) holds is left to the check inside `get_xy` (`Accepts`).
- The `std::cout` diagnostics at lines 190, 198 and 225 are output only and are left out.
- The group element type is reduced to its (x, y, z) triple. The curve arithmetic of `group_type` and the meaning of z as a projective coordinate are not part of this model.
- Commitments, opening proofs, curve points and field elements in the plain records are type parameters. Their internals are part of `kimchi_pedersen` and the algebra library, which are not part of this model.
- The commented-out `combine`/evaluation code at lines 41-63 is not compiled code and is not modelled. The same goes for the expression (`PolishToken`) evaluator, which does not exist in this header beyond the enumeration.
- `profiling.hpp` is not part of this model.

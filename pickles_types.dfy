/**
 * The plain records and enumerations that sit beside the scalar-challenge
 * decoder and the group map: batched evaluation proofs, the constants an
 * expression is evaluated with, gate and argument kinds, the common
 * reference string, evaluation domains, sponge parameters, linearization
 * terms and the lookup verifier index.  They carry data only; the types of
 * commitments, opening proofs, group elements and field elements are type
 * parameters, because their internals belong to other components.
 */
module PicklesTypes {

  datatype Option<T> = None | Some(value: T)

  /** The evaluations of a committed polynomial at a set of points. */
  datatype Evaluation<Commitment, Fr> = Evaluation(
    commitment: Commitment,
    evaluations: seq<seq<Fr>>,
    degreeBound: nat)

  datatype BatchEvaluationProof<Commitment, Opening, Fr> = BatchEvaluationProof(
    evaluations: seq<Evaluation<Commitment, Fr>>,
    evaluationPoints: seq<Fr>,
    xi: Fr,
    r: Fr,
    opening: Opening)

  /** The challenges and coefficients an expression is evaluated with. */
  datatype Constants<F> = Constants(
    alpha: F,
    beta: F,
    gamma: F,
    jointCombiner: F,
    endoCoefficient: F,
    mds: seq<seq<F>>)

  datatype GateType =
    | Zero | Generic | Poseidon | CompleteAdd | VarBaseMul | EndoMul
    | EndoMulScalar | ChaCha0 | ChaCha1 | ChaCha2 | ChaChaFinal

  /** The explicit numbering of `gate_type`: 0 for `Zero` through 10 for `ChaChaFinal`. */
  function GateTypeCode(g: GateType): (n: nat)
    ensures n <= 10
  {
    match g
    case Zero => 0
    case Generic => 1
    case Poseidon => 2
    case CompleteAdd => 3
    case VarBaseMul => 4
    case EndoMul => 5
    case EndoMulScalar => 6
    case ChaCha0 => 7
    case ChaCha1 => 8
    case ChaCha2 => 9
    case ChaChaFinal => 10
  }

  /** The gate kind with a given number, if any. */
  function GateTypeOfCode(n: nat): (g: Option<GateType>)
    ensures g.None? <==> n > 10
  {
    if n == 0 then Some(Zero)
    else if n == 1 then Some(Generic)
    else if n == 2 then Some(Poseidon)
    else if n == 3 then Some(CompleteAdd)
    else if n == 4 then Some(VarBaseMul)
    else if n == 5 then Some(EndoMul)
    else if n == 6 then Some(EndoMulScalar)
    else if n == 7 then Some(ChaCha0)
    else if n == 8 then Some(ChaCha1)
    else if n == 9 then Some(ChaCha2)
    else if n == 10 then Some(ChaChaFinal)
    else None
  }

  /** Every gate kind is recovered from its number. */
  lemma GateTypeCodeRoundTrip(g: GateType)
    ensures GateTypeOfCode(GateTypeCode(g)) == Some(g)
  {
  }

  /** Every number in 0..10 names exactly one gate kind, whose number it is. */
  lemma GateTypeOfCodeRoundTrip(n: nat)
    requires n <= 10
    ensures GateTypeOfCode(n).Some? && GateTypeCode(GateTypeOfCode(n).value) == n
  {
  }

  /** Distinct gate kinds have distinct numbers. */
  lemma GateTypeCodeInjective(g: GateType, h: GateType)
    ensures GateTypeCode(g) == GateTypeCode(h) <==> g == h
  {
    GateTypeCodeRoundTrip(g);
    GateTypeCodeRoundTrip(h);
  }

  /**
   * `argument_type`.  Its first enumerator, `GateType` in the source, is
   * `GateArgument` here so that it does not share the name of `GateType`.
   */
  datatype ArgumentType = GateArgument | Permutation | Lookup

  datatype CommonReferenceString<G, Fr, Fq> = CommonReferenceString(
    g: seq<G>,
    h: G,
    lagrangeBases: map<nat, seq<G>>,
    endoR: Fr,
    endoQ: Fq)

  datatype EvaluationDomain<F> = EvaluationDomain(logSizeOfGroup: nat, groupGen: F)

  datatype ArithmeticSpongeParams<F> = ArithmeticSpongeParams(
    roundConstants: seq<seq<F>>,
    mds: seq<seq<F>>)

  datatype Column =
    | Witness | Z | LookupSorted | LookupAggreg | LookupTable
    | LookupKindIndex | Index | Coefficient

  datatype PolishToken =
    | Alpha | Beta | Gamma | JointCombiner | EndoCoefficient | Mds | Literal
    | Cell | Dup | Pow | Add | Mul | Sub
    | VanishesOnLast4Rows | UnnormalizedLagrangeBasis | Store | Load

  datatype Linearization<Container> = Linearization(
    constantTerm: Container,
    indexTerm: seq<(Column, Container)>)

  datatype LookupsUsed = Single | Joint

  datatype LookupVerifierIndex<Commitment> = LookupVerifierIndex(
    lookupUsed: LookupsUsed,
    lookupTable: seq<Commitment>,
    lookupSelectors: seq<Commitment>)
}

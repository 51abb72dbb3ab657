/** The scalar type a value-graph tape computes with, reduced to what the
    tape's algorithms rely on: a quiet not-a-number that every arithmetic
    operator propagates, plus the "ad type" lattice atomic functions use to
    classify their arguments. Floating point itself is not modelled. */
module Values {

  /** A value slot: the poison `Nan`, or an ordinary number. */
  datatype Value = Nan | Num(n: int)

  /** Addition; a not-a-number operand poisons the result. */
  function Add(x: Value, y: Value): (r: Value)
    ensures r.Nan? <==> x.Nan? || y.Nan?
  {
    if x.Nan? || y.Nan? then Nan else Num(x.n + y.n)
  }

  /** Subtraction; a not-a-number operand poisons the result. */
  function Sub(x: Value, y: Value): (r: Value)
    ensures r.Nan? <==> x.Nan? || y.Nan?
  {
    if x.Nan? || y.Nan? then Nan else Num(x.n - y.n)
  }

  /** `x` carries no more information than `y`: it is the poison, or it is `y`.
      A value that is not the poison after an evaluation seeded with poison is
      below every value the same slot takes on any other evaluation. */
  predicate Below(x: Value, y: Value)
  {
    x.Nan? || x == y
  }

  /** `Below`, slot by slot, on two buffers of the same length. */
  predicate BelowSeq(s: seq<Value>, t: seq<Value>)
  {
    |s| == |t| && forall i :: 0 <= i < |s| ==> Below(s[i], t[i])
  }

  /** A buffer of `n` poisoned slots. */
  function AllNan(n: nat): (s: seq<Value>)
    ensures |s| == n && forall i :: 0 <= i < n ==> s[i].Nan?
  {
    seq(n, _ => Nan)
  }

  /** The all-poison buffer is below every buffer of its length. */
  lemma AllNanBelow(s: seq<Value>)
    ensures BelowSeq(AllNan(|s|), s)
  {
  }

  /** Addition and subtraction are monotone in the information order. */
  lemma ArithMonotone(x: Value, y: Value, x': Value, y': Value)
    requires Below(x, x') && Below(y, y')
    ensures Below(Add(x, y), Add(x', y')) && Below(Sub(x, y), Sub(x', y'))
  {
  }

  /** The kind of an argument of an atomic function, in increasing order of
      variability (CppAD's ad_type_enum). */
  datatype AdType = IdenticalZero | Constant | Dynamic | Variable

  /** Position of an ad type in the order of ad_type_enum. */
  function Rank(a: AdType): nat
  {
    match a
    case IdenticalZero => 0
    case Constant => 1
    case Dynamic => 2
    case Variable => 3
  }

  /** The more variable of two ad types (std::max on ad_type_enum). */
  function MaxType(a: AdType, b: AdType): (r: AdType)
    ensures r == a || r == b
    ensures Rank(a) <= Rank(r) && Rank(b) <= Rank(r)
  {
    if Rank(a) < Rank(b) then b else a
  }
}

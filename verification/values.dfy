/**
 * The float value the library exposes and the small total or partial
 * operations defined on it: classification, extraction, three-way
 * comparison and rounding.
 *
 * A host float is one of four things: a real number, +Infinity, -Infinity or
 * NaN.  The model keeps exactly these four cases and one NaN.
 */
module IeeeFloat {

  /** A float: a finite real, one of the two infinities, or NaN. */
  datatype Value = Finite(r: real) | PosInf | NegInf | NaN

  /** The library's `Ok`/`Error` result; the error carries nothing (Nil). */
  datatype Result<T> = Ok(value: T) | Error

  /** One element of a byte buffer (a Uint8Array entry). */
  type Byte = x: int | 0 <= x < 256

  /** The three outcomes of an ordered comparison. */
  datatype Order = Lt | Eq | Gt

  /** `Number.isFinite`: neither infinity and not NaN. */
  predicate IsFinite(f: Value): (b: bool)
    ensures b <==> f != PosInf && f != NegInf && f != NaN
  {
    f.Finite?
  }

  /** `Number.isNaN`: the one value that is neither finite nor an infinity. */
  predicate IsNan(f: Value): (b: bool)
    ensures b <==> !IsFinite(f) && f != PosInf && f != NegInf
  {
    f.NaN?
  }

  /** `to_finite`: the underlying number of a finite value, an error otherwise. */
  function ToFinite(f: Value): (r: Result<real>)
    ensures r.Ok? <==> IsFinite(f)
    ensures r.Ok? ==> f == Finite(r.value)
  {
    if IsFinite(f) then Ok(f.r) else Error
  }

  /** to_finite succeeds with exactly the number a finite value holds, and
      fails on both infinities and on NaN. */
  lemma ToFiniteExact(f: Value, x: real)
    ensures ToFinite(f) == Ok(x) <==> f == Finite(x)
    ensures ToFinite(f) == Error <==> f in {PosInf, NegInf, NaN}
  {
  }

  /** Every value is exactly one of: finite, NaN, an infinity. In particular
      is_finite and is_nan never hold together. */
  lemma ClassificationExclusive(f: Value)
    ensures !(IsFinite(f) && IsNan(f))
    ensures IsFinite(f) || IsNan(f) || f == PosInf || f == NegInf
    ensures (f == PosInf || f == NegInf) ==> !IsFinite(f) && !IsNan(f)
  {
  }

  /** The host's `<` on numbers: false whenever NaN is involved, and the
      infinities lie below and above every finite number. */
  predicate LessThan(a: Value, b: Value): (lt: bool)
    ensures lt ==> !IsNan(a) && !IsNan(b) && a != b
    ensures !IsNan(a) && !IsNan(b) ==> (lt <==> RankBelow(Rank(a), Rank(b)))
  {
    match (a, b)
    case (NegInf, Finite(_)) => true
    case (NegInf, PosInf) => true
    case (Finite(x), Finite(y)) => x < y
    case (Finite(_), PosInf) => true
    case _ => false
  }

  /** `compare`: fails when either operand is NaN; otherwise Eq on equal
      values, Lt when a < b, and Gt in every other case. */
  function Compare(a: Value, b: Value): (r: Result<Order>)
    ensures r == Error <==> IsNan(a) || IsNan(b)
    ensures r == Ok(Eq) <==> !IsNan(a) && a == b
  {
    if IsNan(a) || IsNan(b) then Error
    else if a == b then Ok(Eq)
    else if LessThan(a, b) then Ok(Lt)
    else Ok(Gt)
  }

  /** An ordering rank independent of LessThan: -Infinity, then the finite
      numbers by their real value, then +Infinity. */
  function Rank(a: Value): (int, real)
    requires !IsNan(a)
  {
    match a
    case NegInf => (0, 0.0)
    case Finite(x) => (1, x)
    case PosInf => (2, 0.0)
  }

  /** Lexicographic order on ranks. */
  predicate RankBelow(p: (int, real), q: (int, real))
  {
    p.0 < q.0 || (p.0 == q.0 && p.1 < q.1)
  }

  /** On ordered operands compare agrees with the rank order: Lt exactly when
      a ranks below b, Gt exactly when b ranks below a. */
  lemma CompareMatchesRank(a: Value, b: Value)
    requires !IsNan(a) && !IsNan(b)
    ensures Compare(a, b) == Ok(Lt) <==> RankBelow(Rank(a), Rank(b))
    ensures Compare(a, b) == Ok(Gt) <==> RankBelow(Rank(b), Rank(a))
  {
  }

  /** Swapping the operands swaps Lt and Gt, keeps Eq, and keeps the failure. */
  lemma CompareAntisymmetric(a: Value, b: Value)
    ensures Compare(a, b) == Ok(Lt) <==> Compare(b, a) == Ok(Gt)
    ensures Compare(a, b) == Ok(Eq) <==> Compare(b, a) == Ok(Eq)
    ensures Compare(a, b) == Error <==> Compare(b, a) == Error
  {
    if !IsNan(a) && !IsNan(b) {
      CompareMatchesRank(a, b);
      CompareMatchesRank(b, a);
    }
  }

  /** Lt is transitive, so compare is a strict total order off NaN. */
  lemma CompareTransitive(a: Value, b: Value, c: Value)
    requires Compare(a, b) == Ok(Lt) && Compare(b, c) == Ok(Lt)
    ensures Compare(a, c) == Ok(Lt)
  {
    CompareMatchesRank(a, b);
    CompareMatchesRank(b, c);
    CompareMatchesRank(a, c);
  }

  /** On finite operands compare is the order of the reals, and the
      infinities sit at the two ends. */
  lemma CompareFinite(x: real, y: real)
    ensures Compare(Finite(x), Finite(y)) == Ok(Lt) <==> x < y
    ensures Compare(Finite(x), Finite(y)) == Ok(Gt) <==> x > y
    ensures Compare(NegInf, Finite(x)) == Ok(Lt)
    ensures Compare(Finite(x), PosInf) == Ok(Lt)
    ensures Compare(NegInf, PosInf) == Ok(Lt)
  {
  }

  /** `Math.round`: the nearest integer, a tie going toward +Infinity. */
  function MathRound(y: real): (n: int)
    ensures n as real - 0.5 <= y < n as real + 0.5
  {
    (y + 0.5).Floor
  }

  /** The characterisation of MathRound picks out a single integer. */
  lemma MathRoundUnique(y: real, n: int)
    requires n as real - 0.5 <= y < n as real + 0.5
    ensures MathRound(y) == n
  {
    var m := MathRound(y);
    assert m as real - n as real < 1.0 && n as real - m as real < 1.0;
  }

  /** `round`: fails on a non-finite value; rounds the magnitude with
      Math.round and restores the sign, so halves go away from zero. */
  function Round(f: Value): (r: Result<real>)
    ensures r.Error? <==> !IsFinite(f)
    ensures r.Ok? ==> r.value == r.value.Floor as real
    ensures r.Ok? ==> -0.5 <= r.value - f.r <= 0.5
  {
    if !IsFinite(f) then Error
    else if f.r >= 0.0 then
      var n := MathRound(f.r);
      IntegerFloor(n);
      Ok(n as real)
    else
      var n := MathRound(-f.r);
      IntegerFloor(-n);
      Ok(-(n as real))
  }

  /** A whole number is its own floor. */
  lemma IntegerFloor(n: int)
    ensures (n as real).Floor == n
  {
  }

  /** For a finite f the result is the integer nearest to f, and on a tie the
      one farther from zero. */
  lemma RoundHalfAwayFromZero(f: real, n: int)
    ensures f >= 0.0 ==> (Round(Finite(f)) == Ok(n as real) <==> n as real - 0.5 <= f < n as real + 0.5)
    ensures f < 0.0 ==> (Round(Finite(f)) == Ok(n as real) <==> n as real - 0.5 < f <= n as real + 0.5)
  {
    if f >= 0.0 {
      if n as real - 0.5 <= f < n as real + 0.5 { MathRoundUnique(f, n); }
    } else {
      if n as real - 0.5 < f <= n as real + 0.5 { MathRoundUnique(-f, -n); }
    }
  }

  /** round commutes with negation: round(-f) == -round(f). */
  lemma RoundOdd(f: real)
    ensures Round(Finite(-f)).Ok? && Round(Finite(-f)).value == -Round(Finite(f)).value
  {
    if f < 0.0 {
      assert -(-f) == f;
    }
  }

  /** round(2.5) == 3, round(-2.5) == -3, round(Infinity) fails. */
  lemma RoundExamples()
    ensures Round(Finite(2.5)) == Ok(3.0)
    ensures Round(Finite(-2.5)) == Ok(-3.0)
    ensures Round(Finite(-2.4)) == Ok(-2.0)
    ensures Round(PosInf) == Error && Round(NegInf) == Error && Round(NaN) == Error
  {
    RoundHalfAwayFromZero(2.5, 3);
    RoundHalfAwayFromZero(-2.5, -3);
    RoundHalfAwayFromZero(-2.4, -2);
  }
}

/** Shared vocabulary of the TOPSIS model: optional values, results,
    impact directions and the square root the scorer is parameterised by. */
module Common {

  datatype Option<+T> = None | Some(value: T)

  datatype Result<+T, +E> = Ok(value: T) | Err(error: E)

  /** Direction of a criterion: "+" (higher is better) or "-" (lower is better). */
  datatype Impact = Benefit | Cost

  /** The token the source uses for an impact direction. */
  function Symbol(d: Impact): (s: string)
    ensures |s| == 1
  {
    if d == Benefit then "+" else "-"
  }

  /** Reads an already stripped impact token; only "+" and "-" are directions. */
  function ToImpact(tok: string): (r: Option<Impact>)
    ensures r.Some? <==> tok == "+" || tok == "-"
    ensures r.Some? ==> Symbol(r.value) == tok
  {
    if tok == "+" then Some(Benefit) else if tok == "-" then Some(Cost) else None
  }

  /** Every entry is strictly positive. */
  predicate AllPositive(v: seq<real>)
  {
    forall k :: 0 <= k < |v| ==> v[k] > 0.0
  }

  /** What the scorer assumes of the square root it is given: on the
      non-negative reals it is non-negative and vanishes exactly at zero.
      Its numeric value is not otherwise constrained. */
  ghost predicate IsSqrt(sqrt: real -> real)
  {
    forall x :: 0.0 <= x ==> 0.0 <= sqrt(x) && (sqrt(x) == 0.0 <==> x == 0.0)
  }

  /** The square of a real; the model never squares a value any other way. */
  function Sq(r: real): real
  {
    r * r
  }

  /** A square is never negative. */
  lemma SqNonNegative(r: real)
    ensures 0.0 <= Sq(r)
  {
    calc {
      Sq(r);
    ==
      r * r;
    >=
      0.0;
    }
  }

  /** A square vanishes exactly at zero. */
  lemma SqZeroIff(r: real)
    ensures Sq(r) == 0.0 <==> r == 0.0
  {
    if r != 0.0 {
      calc {
        Sq(r);
      ==
        r * r;
      >
        0.0;
      }
    }
  }
}

/** Floating-point values as the source's numpy arrays hold them: a finite
    real or NaN. Division by zero yields NaN (numpy's 0/0); numpy's ±inf
    for x/0 with x != 0 is folded into NaN as well. */
module Numbers {

  datatype Number = Num(val: real) | NaN

  /** Ways the band-averaging code and the conversion scripts fail (numpy and astropy raise). */
  datatype Failure =
    | EmptyData            // np.interp with no sample points
    | DataShapeMismatch    // sample wavelengths and values differ in length
    | ResponseShapeMismatch // band wavelengths and weights differ in length
    | EmptyBatch           // a batch of zero spectra cannot be integrated along axis 1
    | LengthMismatch       // element-wise arithmetic on arrays whose lengths do not broadcast
    | Unparsable           // `float()` of text that is not a number
    | MissingColumn        // a table column looked up, renamed or removed is absent
    | DuplicateColumn      // renaming a column onto a name the table already has

  datatype Result<+T> = Ok(value: T) | Err(error: Failure)

  datatype Option<+T> = None | Some(value: T)

  /** Rewrites the value inside `Some`. Kept as a lemma of its own so that a
      caller's equation between two reals is solved without the caller's
      other definitions in view. */
  lemma SameValue(o: Option<real>, x: real, y: real)
    requires o == Some(x) && x == y
    ensures o == Some(y)
  {
  }

  function Abs(x: real): (r: real)
    ensures r >= 0.0
    ensures r == x || r == -x
  {
    if x < 0.0 then -x else x
  }

  /** `a - b` with NaN propagation. */
  function Sub(a: Number, b: Number): (r: Number)
    ensures r.Num? <==> a.Num? && b.Num?
    ensures r.Num? ==> r.val + b.val == a.val
  {
    if a.Num? && b.Num? then Num(a.val - b.val) else NaN
  }

  /** `a / b`; NaN when either side is NaN or the divisor is zero. */
  function Div(a: Number, b: Number): (r: Number)
    ensures r.Num? <==> a.Num? && b.Num? && b.val != 0.0
    ensures r.Num? ==> r.val * b.val == a.val
  {
    if a.Num? && b.Num? && b.val != 0.0 then Num(a.val / b.val) else NaN
  }

  /** `k * a` for a finite scalar `k`. */
  function Times(k: real, a: Number): (r: Number)
    ensures r.Num? <==> a.Num?
    ensures r.Num? ==> r.val == k * a.val
  {
    if a.Num? then Num(k * a.val) else NaN
  }

  /** `a * b` with NaN propagation. */
  function Mul(a: Number, b: Number): (r: Number)
    ensures r.Num? <==> a.Num? && b.Num?
    ensures r.Num? ==> r.val == a.val * b.val
  {
    if a.Num? && b.Num? then Num(a.val * b.val) else NaN
  }

  /** `np.abs`, NaN staying NaN. */
  function AbsNumber(a: Number): (r: Number)
    ensures r.Num? <==> a.Num?
    ensures r.Num? ==> r.val >= 0.0 && (r.val == a.val || r.val == -a.val)
  {
    if a.Num? then Num(Abs(a.val)) else NaN
  }
}

/** Small shared vocabulary: optional values, results, and the rounding rules of the
    interpreter (`round` to even, `int` toward zero, `%` with a non-negative result). */
module Common {
  datatype Option<+T> = None | Some(value: T)

  datatype Result<+T, +E> = Ok(value: T) | Err(error: E)

  function MinInt(a: int, b: int): int {
    if a <= b then a else b
  }

  function MaxInt(a: int, b: int): int {
    if a >= b then a else b
  }

  function MinReal(a: real, b: real): real {
    if a <= b then a else b
  }

  function MaxReal(a: real, b: real): real {
    if a >= b then a else b
  }

  function AbsReal(x: real): real {
    if x >= 0.0 then x else -x
  }

  function Map<A, B>(f: A -> B, s: seq<A>): (r: seq<B>)
    ensures |r| == |s| && forall i :: 0 <= i < |s| ==> r[i] == f(s[i])
  {
    seq(|s|, i requires 0 <= i < |s| => f(s[i]))
  }

  predicate IsDigit(c: char) {
    '0' <= c <= '9'
  }

  /** Python's `round(x)`: to the nearest integer, a tie goes to the even one. */
  function RoundHalfEven(x: real): int {
    var low := x.Floor;
    var rest := x - low as real;
    if rest < 0.5 then low
    else if rest > 0.5 then low + 1
    else if low % 2 == 0 then low
    else low + 1
  }

  lemma RoundHalfEvenWithinHalf(x: real)
    ensures -0.5 <= RoundHalfEven(x) as real - x <= 0.5
  {
  }

  /** Halfway between two integers the even one is taken. */
  lemma RoundHalfEvenTies(k: int)
    ensures RoundHalfEven(k as real + 0.5) % 2 == 0 && RoundHalfEven(k as real) == k
  {
    assert (k as real + 0.5).Floor == k;
  }

  lemma RoundHalfEvenMonotone(x: real, y: real)
    requires x <= y
    ensures RoundHalfEven(x) <= RoundHalfEven(y)
  {
  }

  /** Python's `int(x)` on a float: truncation toward zero. */
  function Trunc(x: real): int {
    if x >= 0.0 then x.Floor else -((-x).Floor)
  }

  /** `a % m` on floats with a positive modulus. */
  function ModReal(a: real, m: real): real
    requires m > 0.0
  {
    a - (a / m).Floor as real * m
  }

  /** It differs from `a` by a whole number of `m` and lies in [0, m), and is the only such number. */
  lemma ModRealBounds(a: real, m: real)
    requires m > 0.0
    ensures 0.0 <= ModReal(a, m) < m
  {
    var q := (a / m).Floor as real;
    var x := a / m;
    assert x * m == a;
    MulMonotone(q, x, m);
    MulStrict(x, q + 1.0, m);
    assert (q + 1.0) * m == q * m + m;
    assert ModReal(a, m) == a - q * m;
  }

  lemma MulMonotone(x: real, y: real, m: real)
    requires x <= y && m > 0.0
    ensures x * m <= y * m
  {
  }

  lemma MulStrict(x: real, y: real, m: real)
    requires x < y && m > 0.0
    ensures x * m < y * m
  {
  }
}

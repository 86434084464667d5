/** The optional value Python code expresses with `None`. */
module Wrappers {

  datatype Option<+T> = None | Some(value: T) {

    /** The value held, or `default` when there is none (Python's `x if x is not None else default`). */
    function GetOr(default: T): T
    {
      match this
      case Some(v) => v
      case None => default
    }
  }
}

/** Integer helpers standing for Python's built-in `min` and `max`. */
module Ints {

  function Min(a: int, b: int): int
  {
    if a <= b then a else b
  }

  function Max(a: int, b: int): int
  {
    if a >= b then a else b
  }

  /** `v` moved into the interval [lo, hi]. */
  function Clamp(v: int, lo: int, hi: int): int
    requires lo <= hi
  {
    if v < lo then lo else if v > hi then hi else v
  }

  lemma NonNegativeProduct(a: nat, b: int)
    requires b >= 0
    ensures a * b >= 0
  {
  }

  lemma MulAtLeast(d: int, m: int)
    requires d >= 1 && m >= 1
    ensures d * m >= m
  {
  }

  /** A multiple of a positive m strictly between -m and m is 0 times m. */
  lemma SmallMultiple(d: int, m: int)
    requires m >= 1 && -m < d * m < m
    ensures d == 0
  {
    if d >= 1 {
      MulAtLeast(d, m);
    } else if d <= -1 {
      MulAtLeast(-d, m);
    }
  }

  /** Python's `(n * m) // m` for a positive m. */
  lemma MulDiv(n: nat, m: int)
    requires m >= 1
    ensures (n * m) / m == n
  {
    var q := (n * m) / m;
    assert (n - q) * m == (n * m) % m;
    SmallMultiple(n - q, m);
  }

  /** Floor division by a positive number keeps order. */
  lemma DivIsMonotonic(a: int, b: int, m: int)
    requires 0 <= a <= b && m >= 1
    ensures a / m <= b / m
  {
    var qa, qb := a / m, b / m;
    assert a == qa * m + a % m && b == qb * m + b % m;
    if qa > qb {
      MulAtLeast(qa - qb, m);
    }
  }
}

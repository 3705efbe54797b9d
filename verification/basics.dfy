/** What several parts of the model share. */
module Basics {
  datatype Option<+T> = None | Some(value: T)

  /** Byte order, as Go and a database compare text: the first difference decides, and a prefix
      comes first. */
  predicate TextBelow(a: string, b: string) {
    b != [] && (a == [] || a[0] < b[0] || (a[0] == b[0] && TextBelow(a[1..], b[1..])))
  }

  lemma ProductMonotonic(a: int, b: int, c: int)
    requires a <= b && 0 <= c
    ensures a * c <= b * c
  {
    assert (b - a) * c >= 0;
  }

  lemma QuotientAtLeast(x: int, divisor: int, q: int)
    requires 0 < divisor && q * divisor <= x
    ensures q <= x / divisor
  {
    var r := x / divisor;
    assert x < (r + 1) * divisor;
    if r < q { ProductMonotonic(r + 1, q, divisor); }
  }

  lemma QuotientTimes(x: int, divisor: int)
    requires 0 < divisor
    ensures (x / divisor) * divisor <= x
  {
  }

  lemma QuotientAtMost(x: int, divisor: int, q: int)
    requires 0 < divisor && x <= q * divisor
    ensures x / divisor <= q
  {
    var r := x / divisor;
    assert r * divisor <= x;
    assert (q + 1) * divisor == q * divisor + divisor;
    if q < r { ProductMonotonic(q + 1, r, divisor); }
  }
}

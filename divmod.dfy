/** Facts about Dafny's `/` and `%` for a positive divisor, where they agree with
    Python's floor division and with JavaScript's `Math.floor(a / n)` and `%` on
    non-negative operands. */
module DivMod {

  lemma MulMonotonic(x: int, y: int, n: nat)
    requires x <= y
    ensures x * n <= y * n
  {
    var d := y - x;
    assert y * n == x * n + d * n;
  }

  /** Quotient and remainder are determined by `a == q * n + r` with `0 <= r < n`. */
  lemma DivModUnique(a: int, n: int, q: int, r: int)
    requires n > 0 && a == q * n + r && 0 <= r < n
    ensures a % n == r && a / n == q
  {
    var q', r' := a / n, a % n;
    assert a == q' * n + r';
    if q > q' {
      MulMonotonic(q' + 1, q, n);
    } else if q < q' {
      MulMonotonic(q + 1, q', n);
    }
  }
}

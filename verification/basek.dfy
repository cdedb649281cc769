/**
 * Base-k digit arithmetic behind the block partition: a number below k * k
 * is a pair of base-k digits, and reading the digits back gives it again.
 */
module BaseK {

  lemma DivModUnique(q: int, m: int, k: int)
    requires k > 0 && 0 <= m < k
    ensures (q * k + m) / k == q && (q * k + m) % k == m
  {
    var a := q * k + m;
    var d := a / k;
    assert (q - d) * k == a % k - m;
    // |a % k - m| < k, so neither sign of q - d is possible
    if q - d >= 1 {
    } else if q - d <= -1 {
    }
  }

  /** Two digits below k, read in base k, stay below k * k. */
  lemma MulBelow(a: int, b: int, k: int)
    requires k > 0 && 0 <= a < k && 0 <= b < k
    ensures 0 <= a * k <= (k - 1) * k
    ensures 0 <= a * k + b < k * k
  {
    assert (k - 1 - a) * k >= 0;
    assert (k - 1) * k + (k - 1) == k * k - 1;
  }

  lemma QuotientBelowSide(k: int, x: int)
    requires k > 0 && 0 <= x < k * k
    ensures 0 <= x / k < k
  {
    var q := x / k;
    assert x == q * k + x % k;
    assert (q - k) * k == q * k - k * k;
  }

  /** Reading (row, col) as block index and offset: the two base-k digits come back out. */
  lemma BlockDigits(k: int, row: int, col: int)
    requires k > 0 && 0 <= row < k * k && 0 <= col < k * k
    ensures 0 <= (row / k) * k + col / k < k * k
    ensures ((row / k) * k + col / k) / k == row / k && ((row / k) * k + col / k) % k == col / k
    ensures 0 <= (col % k) * k + row % k < k * k
    ensures ((col % k) * k + row % k) / k == col % k && ((col % k) * k + row % k) % k == row % k
  {
    QuotientBelowSide(k, row);
    QuotientBelowSide(k, col);
    MulBelow(row / k, col / k, k);
    MulBelow(col % k, row % k, k);
    DivModUnique(row / k, col / k, k);
    DivModUnique(col % k, row % k, k);
  }

  /**
   * Cell t of block b has row (b / k) * k + t % k and column
   * (b % k) * k + t / k; its high row and column digits give b back.
   */
  lemma CellDigits(k: int, b: int, t: int)
    requires k > 0 && 0 <= b < k * k && 0 <= t < k * k
    ensures (t % k + (b / k) * k) / k == b / k
    ensures (t / k + (b % k) * k) / k == b % k
    ensures ((t % k + (b / k) * k) / k) * k + (t / k + (b % k) * k) / k == b
  {
    QuotientBelowSide(k, t);
    QuotientBelowSide(k, b);
    DivModUnique(b / k, t % k, k);
    DivModUnique(b % k, t / k, k);
    assert t % k + (b / k) * k == (b / k) * k + t % k;
    assert t / k + (b % k) * k == (b % k) * k + t / k;
  }
}

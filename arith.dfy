/** Integer facts shared by the bucket index of the hash table and the byte
    offsets of the record stream. */
module Arith {
  /** Euclidean division is unique: a quotient and a remainder in `[0, n)`
      that rebuild `h` are Dafny's `h / n` and `h % n`. */
  lemma DivModUnique(h: int, q: int, r: int, n: int)
    requires n > 0 && 0 <= r < n && q * n + r == h
    ensures h / n == q && h % n == r
  {
    var q0, r0 := h / n, h % n;
    assert q0 * n + r0 == h;
    var d := q - q0;
    assert d * n == q * n - q0 * n;
    assert d * n == r0 - r;
    if d >= 1 {
      MulAtLeast(d, n);
    } else if d <= -1 {
      MulAtLeast(-d, n);
    }
  }

  lemma MulAtLeast(d: int, n: int)
    requires d >= 1 && n > 0
    ensures d * n >= n
  {
  }
}

/** Quotient and remainder are unique. */
module Division {

  lemma AtLeastOnce(n: nat, d: int)
    requires d > 0
    ensures n * d >= n
  {
  }

  lemma DivModUnique(x: int, n: nat, q: int, r: nat)
    requires r < n && x == n * q + r
    ensures q == x / n && r == x % n
  {
    var d := q - x / n;
    assert n * d == x % n - r;
    if d > 0 {
      AtLeastOnce(n, d);
    } else if d < 0 {
      assert n * -d == r - x % n;
      AtLeastOnce(n, -d);
    }
  }
}

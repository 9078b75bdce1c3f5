/** Products and remainders with a divisor that is not a constant. */
module NatArithmetic {
  lemma DivMod(a: nat, n: nat)
    requires n != 0
    ensures a == n * (a / n) + a % n
  {}

  lemma MultipleMonotone(n: nat, x: int, y: int)
    requires x < y
    ensures n * x + n <= n * y
  {
    assert n * (y - x - 1) >= 0;
    assert n * (y - x - 1) == n * y - n * x - n;
  }

  lemma MultipleOrder(x: nat, y: nat, n: nat, r: nat)
    requires n * x <= n * y + r && r < n
    ensures n * x <= n * y
  {
    if x < y {
      MultipleMonotone(n, x, y);
    } else if y < x {
      MultipleMonotone(n, y, x);
    }
  }

  lemma MultipleMod(n: nat, k: nat)
    requires n != 0
    ensures (n * k) % n == 0
  {
    var q := (n * k) / n;
    DivMod(n * k, n);
    if q < k {
      MultipleMonotone(n, q, k);
    } else if k < q {
      MultipleMonotone(n, k, q);
    }
  }
}

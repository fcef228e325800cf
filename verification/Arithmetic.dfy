// Products and quotients of variables, which the verifier has to be led through.

module Arithmetic {
  predicate IsWord32(n: nat) {
    n < 0x1_0000_0000
  }

  lemma MulSign(a: int, b: int)
    requires 0 < a
    ensures 1 <= b ==> a <= a * b
    ensures b <= -1 ==> a * b <= -a
  {
    if 1 <= b {
      assert a * b == a * (b - 1) + a;
      assert 0 <= a * (b - 1);
    }
    if b <= -1 {
      assert a * -b == a * (-b - 1) + a;
      assert 0 <= a * (-b - 1);
      assert a * b == -(a * -b);
    }
  }

  lemma MulSubtract(a: int, b: int, c: int)
    ensures a * (b - c) == a * b - a * c
  {
  }

  lemma DivisionLaw(x: nat, d: nat)
    requires 0 < d
    ensures x == d * (x / d) + x % d
    ensures 0 <= x / d && 0 <= x % d < d
  {
  }

  // The quotient and the remainder are the only ones there are.
  lemma DivisionUnique(x: nat, d: nat, q: int, r: int)
    requires 0 < d && x == d * q + r && 0 <= r < d
    ensures q == x / d && r == x % d
  {
    DivisionLaw(x, d);
    MulSubtract(d, q, x / d);
    MulSign(d, q - x / d);
  }

  lemma Quotient(d: nat, q: nat)
    requires 0 < d
    ensures d * q / d == q
  {
    DivisionUnique(d * q, d, q, 0);
  }

  lemma ProductOrder(d: nat, a: nat, b: nat)
    requires a <= b
    ensures d * a <= d * b
  {
    assert d * b == d * a + d * (b - a);
  }

  // How many items of d bytes it takes to cover n bytes.
  lemma ItemsLeft(n: nat, d: nat, count: nat)
    requires 0 < d
    ensures d == 1 ==> (n + d - 1) / d == n
    ensures d * count <= n ==> count <= (n + d - 1) / d
  {
    DivisionLaw(n + d - 1, d);
    MulSubtract(d, count, (n + d - 1) / d);
    MulSign(d, count - (n + d - 1) / d);
  }
}

/** Nonlinear facts used by the arithmetic proofs. */
module Arith {

  lemma MulMono(a: int, b: int, c: nat)
    requires a <= b
    ensures a * c <= b * c
  {
    assert (b - a) * c >= 0;
  }

  lemma Distribute(a: int, b: int, c: int)
    ensures (a + b) * c == a * c + b * c && (a - b) * c == a * c - b * c
  {
  }

  lemma DivMod(t: nat, n: nat)
    requires n > 0
    ensures t == t / n * n + t % n
  {
  }

  lemma RemainderIs(a: nat, q: int, n: nat, r: nat)
    requires n > 0 && a == q * n + r && r < n
    ensures a % n == r
  {
    var p := a / n;
    DivMod(a, n);
    Distribute(p, q, n);
    if p > q { MulMono(1, p - q, n); }
    if p < q { MulMono(1, q - p, n); Distribute(q, p, n); }
  }

  lemma NextRemainder(a: nat, n: nat)
    requires n > 0
    ensures (a + 1) % n == if a % n + 1 == n then 0 else a % n + 1
  {
    var q := a / n;
    DivMod(a, n);
    if a % n + 1 == n {
      Distribute(q, 1, n);
      RemainderIs(a + 1, q + 1, n, 0);
    } else {
      RemainderIs(a + 1, q, n, a % n + 1);
    }
  }
}

/** Division facts that the solver does not find by itself. */
module Arithmetic {

  lemma MulMono(a: int, b: int, k: nat)
    ensures a <= b ==> a * k <= b * k
  {}

  lemma MulAssoc(a: int, b: int, c: int)
    ensures a * b * c == a * (b * c)
  {}

  lemma MulSum(a: int, b: int, k: int)
    ensures (a + b) * k == a * k + b * k && k * (a + b) == k * a + k * b
  {}

  lemma DivUnique(x: int, q: int, r: int, k: int)
    requires k > 0 && x == q * k + r && 0 <= r < k
    ensures x / k == q && x % k == r
  {
    var d := x / k - q;
    assert x == x / k * k + x % k;
    assert d * k == x / k * k - q * k;
    MulMono(1, d, k);
    MulMono(d, -1, k);
  }

  lemma Multiple(q: int, k: nat)
    requires k > 0
    ensures q * k % k == 0
  {
    DivUnique(q * k, q, 0, k);
  }

  /** Adding multiples of `k` changes no remainder. */
  lemma ModShift(x: int, q: int, k: nat)
    requires k > 0
    ensures (x + q * k) % k == x % k
  {
    assert x == x / k * k + x % k;
    assert (x / k + q) * k == x / k * k + q * k;
    DivUnique(x + q * k, x / k + q, x % k, k);
  }

  /** Numbers with the same remainder are at least `k` apart. */
  lemma SameRemainder(x: int, y: int, k: nat)
    requires k > 0
    ensures x % k == y % k && x < y ==> x + k <= y
  {
    var p, q := x / k, y / k;
    assert x == p * k + x % k && y == q * k + y % k;
    MulMono(q, p, k);
    MulMono(p + 1, q, k);
    assert (p + 1) * k == p * k + k;
  }
}

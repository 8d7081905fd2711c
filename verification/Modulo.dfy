/** Division with remainder by a variable divisor. */
module Modulo {

  lemma {:induction false} MultipleApart(d: int, n: int)
    requires n > 0
    ensures d > 0 ==> d * n >= n
    ensures d < 0 ==> d * n <= -n
  {
    if d > 0 { assert d * n == n + (d - 1) * n; }
    if d < 0 { assert d * n == -n - (-d - 1) * n; }
  }

  lemma {:induction false} ModUnique(q: int, n: int, r: int)
    requires 0 <= r < n
    ensures (q * n + r) % n == r
  {
    var x := q * n + r;
    var d := q - x / n;
    assert d * n == x % n - r;
    MultipleApart(d, n);
  }

  lemma {:induction false} ModNext(n: int, d: int)
    requires d > 0
    ensures (n + 1) % d == if n % d + 1 == d then 0 else n % d + 1
  {
    var q, r := n / d, n % d;
    if r + 1 == d {
      assert (q + 1) * d == q * d + d;
      ModUnique(q + 1, d, 0);
    } else {
      ModUnique(q, d, r + 1);
    }
  }
}

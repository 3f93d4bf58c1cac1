/**
 The remainder facts that rings and rotating counters need.
 */
module Modulo {

  lemma {:induction false} ModOnce(x: int, n: int)
    requires 0 <= x < 2 * n
    ensures x % n == if x < n then x else x - n
  {
  }

  lemma {:induction false} MulAtLeast(d: int, n: int)
    requires n > 0 && d >= 1
    ensures d * n >= n
  {
  }

  lemma {:induction false} MulAtMost(d: int, n: int)
    requires n > 0 && d <= -1
    ensures d * n <= -n
  {
  }

  lemma {:induction false} RemainderUnique(x: int, n: int, q: int, r: int)
    requires 0 <= r < n && x == q * n + r
    ensures x % n == r && x / n == q
  {
    var q', r' := x / n, x % n;
    var d := q - q';
    assert x == q' * n + r';
    assert d * n == q * n - q' * n == r' - r;
    if d >= 1 {
      MulAtLeast(d, n);
    } else if d <= -1 {
      MulAtMost(d, n);
    }
    assert d == 0;
  }

  lemma {:induction false} NextRemainder(x: int, n: int)
    requires 0 < n && x >= 0
    ensures (x + 1) % n == if x % n + 1 == n then 0 else x % n + 1
  {
    var q, r := x / n, x % n;
    assert x == q * n + r;
    if r + 1 == n {
      assert (q + 1) * n == q * n + n;
      RemainderUnique(x + 1, n, q + 1, 0);
    } else {
      RemainderUnique(x + 1, n, q, r + 1);
    }
  }
}

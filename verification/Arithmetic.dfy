/** Counting and division facts used across the stages. */
module Arithmetic {
  lemma SmallMod(a: nat, d: nat)
    requires a < d
    ensures a % d == a
  {
  }

  lemma MulMono(d: nat, a: nat, b: nat)
    requires a <= b
    ensures d * a <= d * b
  {
  }

  lemma Distribute(k: int, p: int)
    ensures k * (p + 1) == k * p + k
  {
  }

  lemma DivLower(n: nat, k: nat, p: nat)
    requires 1 <= k && k * p <= n
    ensures p <= n / k
  {
    var q := n / k;
    assert n == k * q + n % k;
    if p > q {
      MulMono(k, q + 1, p);
      Distribute(k, q);
    }
  }

  /** Quotient and remainder of an index that is given as a pair. */
  lemma DivModOf(d: nat, q: nat, r: nat)
    requires r < d
    ensures (q * d + r) / d == q && (q * d + r) % d == r
  {
    var x := q * d + r;
    var q', r' := x / d, x % d;
    assert x == d * q' + r';
    assert d * q == q * d;
    if q' < q { MulMono(d, q' + 1, q); Distribute(d, q'); }
    if q < q' { MulMono(d, q + 1, q'); Distribute(d, q); }
  }

  /** An index below d * n has a quotient below n. */
  lemma DivBound(d: nat, n: nat, i: nat)
    requires 1 <= d && i < n * d
    ensures i / d < n && i % d < d && i == (i / d) * d + i % d
  {
    var q := i / d;
    assert i == d * q + i % d && d * q == q * d;
    if q >= n { MulMono(d, n, q); }
  }

  /** Counting up by one: the remainder grows until it wraps. */
  lemma DivModSucc(t: nat, k: nat)
    requires 1 <= k
    ensures if t % k + 1 < k then (t + 1) % k == t % k + 1 && (t + 1) / k == t / k
            else (t + 1) % k == 0 && (t + 1) / k == t / k + 1
  {
    var q, r := t / k, t % k;
    assert t == k * q + r;
    if r + 1 < k {
      DivModOf(k, q, r + 1);
    } else {
      Distribute(k, q);
      DivModOf(k, q + 1, 0);
    }
  }

  lemma {:induction false} SetBound(s: set<int>, n: nat)
    requires forall c :: c in s ==> 0 <= c < n
    ensures |s| <= n
    ensures |s| == n <==> forall c :: 0 <= c < n ==> c in s
  {
    if n == 0 {
      assert forall c :: c !in s;
      assert s == {};
    } else {
      var s' := s - {n - 1};
      SetBound(s', n - 1);
      assert |s| == |s'| + if n - 1 in s then 1 else 0;
    }
  }

  /** A map whose keys lie in [0, n) has at most n entries, and n of them only if it has them all. */
  lemma KeysBound<T>(m: map<int, T>, n: nat)
    requires forall c :: c in m ==> 0 <= c < n
    ensures |m| <= n
    ensures |m| == n <==> forall c :: 0 <= c < n ==> c in m
  {
    SetBound(m.Keys, n);
    assert |m.Keys| == |m|;
  }
}

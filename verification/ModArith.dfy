/** Facts about remainders by an unknown modulus, proved once for the ring. */
module ModArith {

  /** Counters less than one lap apart never share a remainder. */
  lemma DistinctWithinLap(i: nat, j: nat, n: nat)
    requires 0 < n && i < j < i + n
    ensures i % n != j % n
  {
    var q := j / n - i / n;
    ProductSign(n, q);
    assert j - i == n * q + (j % n - i % n) by {
      assert i == n * (i / n) + i % n;
      assert j == n * (j / n) + j % n;
    }
  }

  /** Adding one to a counter moves its remainder to the next ring index. */
  lemma SuccessorIndex(x: nat, n: nat)
    requires 0 < n
    ensures (x + 1) % n == if x % n + 1 == n then 0 else x % n + 1
  {
    var q, m := x / n, x % n;
    assert x == n * q + m;
    if m + 1 == n {
      assert x + 1 == n * (q + 1);
      MultipleHasNoRemainder(q + 1, n);
    } else {
      RemainderOf(q, m + 1, n);
    }
  }

  /** A divider that counts to n has wrapped once more exactly when the remainder returns to zero. */
  lemma SuccessorQuotient(x: nat, n: nat)
    requires 0 < n
    ensures (x + 1) / n == x / n + (if x % n + 1 == n then 1 else 0)
  {
    var q, m := x / n, x % n;
    assert x == n * q + m;
    if m + 1 == n {
      assert x + 1 == n * (q + 1) + 0;
      RemainderOf(q + 1, 0, n);
    } else {
      RemainderOf(q, m + 1, n);
    }
  }

  /** A multiple of a multiple is a multiple. */
  lemma DivisibilityIsTransitive(x: nat, a: nat, b: nat)
    requires 0 < a && 0 < b && b % a == 0 && x % b == 0
    ensures x % a == 0
  {
    var p, q := b / a, x / b;
    assert b == a * p && x == b * q;
    assert x == a * (p * q) by {
      assert a * p * q == a * (p * q);
    }
    MultipleHasNoRemainder(p * q, a);
  }

  lemma RemainderOf(q: nat, m: nat, n: nat)
    requires m < n
    ensures (n * q + m) % n == m && (n * q + m) / n == q
  {
    var x := n * q + m;
    assert x == n * (x / n) + x % n;
    var d := x / n - q;
    ProductSign(n, d);
    assert n * d == m - x % n;
  }

  lemma ProductSign(n: int, d: int)
    requires 0 <= n
    ensures d <= 0 ==> n * d <= 0
    ensures d < 0 ==> n * d <= -n
    ensures d > 0 ==> n * d >= n
  {
  }

  lemma MultipleHasNoRemainder(q: nat, n: nat)
    requires 0 < n
    ensures (n * q) % n == 0
  {
    RemainderOf(q, 0, n);
  }

  /** Dividing twice is dividing by the product. */
  lemma QuotientOfQuotient(x: nat, a: nat, b: nat)
    requires 0 < a && 0 < b
    ensures a * b > 0 && x / a / b == x / (a * b)
  {
    var q, m := x / a, x % a;
    var p, k := q / b, q % b;
    ProductPositive(a, b);
    assert a * k + m < a * b by {
      ProductOrder(a, k, b - 1);
      assert a * (b - 1) == a * b - a;
    }
    assert x == (a * b) * p + (a * k + m) by {
      assert x == a * q + m && q == b * p + k;
      assert a * (b * p + k) == (a * b) * p + a * k;
    }
    RemainderOf(p, a * k + m, a * b);
  }

  lemma ProductOrder(a: nat, x: nat, y: nat)
    requires x <= y
    ensures a * x <= a * y
  {
  }

  lemma ProductPositive(a: nat, b: nat)
    requires 0 < a && 0 < b
    ensures a * b > 0
  {
  }
}

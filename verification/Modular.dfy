/** The remainder arithmetic behind circular indexing. */
module Modular {

  lemma Product(a: int, q: int, n: int)
    requires n > 0
    ensures q > 0 ==> q * n >= n
    ensures q < 0 ==> q * n <= -n
  {
  }

  /** Quotient and remainder are unique. */
  lemma RemainderIs(a: int, n: int, q: int, r: int)
    requires 0 <= r < n && a == q * n + r
    ensures a % n == r && a / n == q
  {
    var d := a / n - q;
    assert d * n == r - a % n by {
      assert a == a / n * n + a % n;
      assert (a / n - q) * n == a / n * n - q * n;
    }
    Product(a, d, n);
  }

  lemma Shifted(a: int, n: int, q: int)
    requires n > 0
    ensures (a + q * n) % n == a % n
  {
    assert a == a / n * n + a % n;
    assert (a / n + q) * n == a / n * n + q * n;
    RemainderIs(a + q * n, n, a / n + q, a % n);
  }

  /** Index `i` of a circle of `n` lies `d` steps after the index of `start` exactly when it is the index
      of `start + d`. */
  lemma StepsFrom(start: int, n: int, i: int, d: int)
    requires 0 <= i < n && 0 <= d < n
    ensures (i - start) % n == d <==> i == (start + d) % n
  {
    if (i - start) % n == d {
      var q := (i - start) / n;
      assert start + d == -q * n + i;
      RemainderIs(start + d, n, -q, i);
    }
    if i == (start + d) % n {
      var q := (start + d) / n;
      assert i - start == -q * n + d;
      RemainderIs(i - start, n, -q, d);
    }
  }

  /** Two numbers less than `n` apart with the same remainder are equal. */
  lemma CloseAndCongruent(a: int, b: int, n: int)
    requires n > 0 && -n < a - b < n && a % n == b % n
    ensures a == b
  {
    var d := a / n - b / n;
    assert d * n == a - b by {
      assert a == a / n * n + a % n && b == b / n * n + b % n;
      assert (a / n - b / n) * n == a / n * n - b / n * n;
    }
    Product(a, d, n);
  }

  /** Reducing modulo a multiple of `n` first does not change the remainder. */
  lemma ReduceFirst(a: int, m: int, n: int)
    requires n > 0 && m > 0 && m % n == 0
    ensures (a % m) % n == a % n
  {
    var k := m / n;
    assert m == k * n;
    var q := a / m;
    assert a == q * m + a % m;
    assert q * m == (q * k) * n;
    Shifted(a % m, n, q * k);
  }

  /** Equal remainders stay equal under a shift. */
  lemma SameShift(a: int, b: int, c: int, n: int)
    requires n > 0 && a % n == b % n
    ensures (a + c) % n == (b + c) % n
  {
    var q := a / n - b / n;
    assert a == b + q * n by {
      assert a == a / n * n + a % n && b == b / n * n + b % n;
      assert (a / n - b / n) * n == a / n * n - b / n * n;
    }
    assert a + c == b + c + q * n;
    Shifted(b + c, n, q);
  }
}

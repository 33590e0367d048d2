/** Trial division and prime search of src/core/dfs_math.c, over unbounded naturals. */
module Primes {

  ghost predicate Divides(d: nat, n: nat) {
    exists q: nat :: n == d * q
  }

  ghost predicate Prime(n: nat) {
    n >= 2 && forall d: nat :: 2 <= d < n ==> !Divides(d, n)
  }

  lemma DividesByRemainder(d: nat, n: nat)
    requires d >= 1
    ensures Divides(d, n) <==> n % d == 0
  {
    if n % d == 0 {
      assert n == d * (n / d);
    }
    if Divides(d, n) {
      var q: nat :| n == d * q;
      RemainderUnique(n, d, q);
    }
  }

  lemma RemainderUnique(n: nat, d: nat, q: nat)
    requires d >= 1 && n == d * q
    ensures n % d == 0
  {
    var k, r := n / d, n % d;
    assert n == d * k + r;
    if k < q {
      MulGap(d, k, q);
    } else if k > q {
      MulGap(d, q, k);
    }
  }

  lemma {:induction false} MulGap(d: nat, a: nat, b: nat)
    requires a < b
    ensures d * a + d <= d * b
    decreases b
  {
    assert d * b == d * (b - 1) + d;
    if a < b - 1 {
      MulGap(d, a, b - 1);
    }
  }

  lemma MulSquare(i: nat, d: nat, q: nat)
    ensures i <= d && i <= q ==> i * i <= d * q
    ensures q <= 1 ==> d * q <= d
  {
    if i <= d && i <= q {
      assert i * i <= i * q;
      assert i * q <= d * q;
    }
  }

  // A divisor above the square root has its cofactor below it.
  lemma SmallDivisor(x: nat, i: nat, d: nat)
    requires 2 <= d < x && Divides(d, x) && i * i > x
    ensures exists e: nat :: 2 <= e < i && Divides(e, x)
  {
    var q: nat :| x == d * q;
    MulSquare(i, d, q);
    if d >= i {
      assert 2 <= q < i;
      assert x == q * d;
      assert Divides(q, x);
    }
  }

  /** dfs_math_is_prime */
  method IsPrime(x: nat) returns (prime: bool)
    ensures prime <==> Prime(x)
  {
    if x <= 1 {
      return false;
    }
    var i := 2;
    while i * i <= x
      invariant i >= 2 && forall d: nat :: 2 <= d < i ==> !Divides(d, x)
      decreases x + 1 - i
    {
      DividesByRemainder(i, x);
      assert i * 2 <= i * i;
      if x % i == 0 {
        return false;
      }
      i := i + 1;
    }
    forall d: nat | 2 <= d < x
      ensures !Divides(d, x)
    {
      if Divides(d, x) {
        SmallDivisor(x, i, d);
        assert false;
      }
    }
    return true;
  }

  // ---- there is always a next prime ----

  function Factorial(n: nat): (r: nat)
    ensures r >= 1
  {
    if n == 0 then 1 else n * Factorial(n - 1)
  }

  lemma {:induction false} DividesFactorial(k: nat, n: nat)
    requires 1 <= k <= n
    ensures Divides(k, Factorial(n))
  {
    if k < n {
      DividesFactorial(k, n - 1);
      var q: nat :| Factorial(n - 1) == k * q;
      assert n * (k * q) == k * (n * q);
      assert Factorial(n) == k * (n * q);
    } else {
      assert Factorial(n) == k * Factorial(n - 1);
    }
  }

  // The least divisor above one is prime.
  lemma {:induction false} PrimeFactor(n: nat, from: nat) returns (p: nat)
    requires 2 <= from <= n && forall d: nat :: 2 <= d < from ==> !Divides(d, n)
    ensures Prime(p) && Divides(p, n)
    decreases n - from
  {
    if Divides(from, n) {
      p := from;
      forall d: nat | 2 <= d < p
        ensures !Divides(d, p)
      {
        if Divides(d, p) {
          DividesTransitive(d, p, n);
          assert false;
        }
      }
    } else {
      DividesItself(n);
      p := PrimeFactor(n, from + 1);
    }
  }

  lemma DividesItself(n: nat)
    ensures Divides(n, n)
  {
    assert n == n * 1;
  }

  lemma DividesTransitive(a: nat, b: nat, c: nat)
    requires Divides(a, b) && Divides(b, c)
    ensures Divides(a, c)
  {
    var q: nat :| b == a * q;
    var r: nat :| c == b * r;
    assert c == a * (q * r);
  }

  /** Euclid: a prime above every number. */
  lemma PrimeAbove(n: nat) returns (p: nat)
    ensures p > n && Prime(p)
  {
    var f := Factorial(n);
    p := PrimeFactor(f + 1, 2);
    if p <= n {
      DividesFactorial(p, n);
      NotBoth(p, f);
      assert false;
    }
  }

  lemma NotBoth(p: nat, f: nat)
    requires p >= 2 && Divides(p, f)
    ensures !Divides(p, f + 1)
  {
    if Divides(p, f + 1) {
      var a: nat :| f == p * a;
      var b: nat :| f + 1 == p * b;
      if a < b {
        MulGap(p, a, b);
      } else if b < a {
        MulGap(p, b, a);
      }
      assert false;
    }
  }

  /** dfs_math_find_prime: the least prime not below x. */
  method FindPrime(x: nat) returns (p: nat)
    ensures p >= x && Prime(p) && forall q: nat :: x <= q < p ==> !Prime(q)
  {
    ghost var bound := PrimeAbove(x);
    p := x;
    while true
      invariant x <= p <= bound && forall q: nat :: x <= q < p ==> !Prime(q)
      decreases bound - p
    {
      var found := IsPrime(p);
      if found {
        return p;
      }
      p := p + 1;
    }
  }
}

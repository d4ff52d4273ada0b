/** The prime search that sizes the hash table (`janus_workload/hash/gen_prime.cpp`), over
    unbounded integers. */
module PrimeSearch {
  import opened Wrappers

  ghost predicate Prime(n: int) {
    n >= 2 && forall d :: 2 <= d < n ==> n % d != 0
  }

  /** A proper divisor brings one that is at most the square root. */
  lemma SmallDivisor(n: nat, d: nat)
    requires 2 <= d < n && n % d == 0
    ensures exists e :: 2 <= e <= d && e * e <= n && n % e == 0
  {
    var q := Quotient(n, d);
    if d * d <= n {
      assert n % d == 0;
    } else {
      Cofactor(n, d, q);
      DividesBack(n, d, q);
    }
  }

  lemma Cofactor(n: nat, d: nat, q: nat)
    requires 2 <= d < n && n == d * q && d * d > n
    ensures 2 <= q < d && q * q <= n
  {
    if q >= d { MulMono(d, q, d); }
    if q < 2 { MulMono(q, 1, d); }
    MulMono(q, d, q);
  }

  lemma MulMono(x: nat, y: nat, z: nat)
    requires x <= y
    ensures z * x <= z * y && x * z <= y * z
  {}

  lemma DividesBack(n: nat, d: nat, q: nat)
    requires q > 0 && n == d * q
    ensures n % q == 0
  {
    RemainderOfProduct(d, q);
  }

  lemma {:induction false} RemainderOfProduct(k: nat, m: nat)
    requires m > 0
    ensures (k * m) % m == 0
    decreases k
  {
    if k > 0 {
      RemainderOfProduct(k - 1, m);
      assert k * m == (k - 1) * m + m;
      AddModulus((k - 1) * m, m);
    }
  }

  lemma AddModulus(x: nat, m: nat)
    requires m > 0 && x % m == 0
    ensures (x + m) % m == 0
  {
    var q := Quotient(x, m);
    assert (q + 1) * m == q * m + m;
    Remainder(x + m, q + 1, 0, m);
  }

  // ------------------------------------------------------------------------ isPrime

  /** `isPrime`: trial division by 2 and the odd numbers up to the square root. */
  method IsPrime(number: int) returns (prime: bool)
    ensures prime <==> Prime(number)
  {
    if number < 2 { return false; }
    if number == 2 { return true; }
    if number % 2 == 0 {
      Composite(number, 2);
      return false;
    }
    var i := 3;
    while i * i <= number
      invariant i >= 3 && i % 2 == 1 && Undivided(number, i)
      decreases number - i
    {
      SquareLarger(i, number);
      if number % i == 0 {
        Composite(number, i);
        return false;
      }
      UndividedNext(number, i);
      i := i + 2;
    }
    NoDivisor(number, i);
    return true;
  }

  ghost predicate Undivided(n: nat, i: nat) {
    forall d :: 2 <= d < i ==> n % d != 0
  }

  lemma Composite(n: nat, d: nat)
    requires 2 <= d < n && n % d == 0
    ensures !Prime(n)
  {}

  lemma UndividedNext(n: nat, i: nat)
    requires i > 0 && Undivided(n, i) && n % i != 0 && n % 2 == 1 && i % 2 == 1
    ensures Undivided(n, i + 2)
  {
    OddNext(n, i);
  }

  lemma SquareLarger(i: nat, n: nat)
    requires i >= 3 && i * i <= n
    ensures i + 2 <= n
  {
    MulMono(3, i, i);
  }

  /** An odd number has no even divisor. */
  lemma OddNext(n: nat, i: nat)
    requires n % 2 == 1 && i % 2 == 1
    ensures n % (i + 1) != 0
  {
    var h := Half(i + 1);
    var q := Quotient(n, i + 1);
    EvenProduct(i + 1, h, q);
    OddRemainder(n, h * q, n % (i + 1));
  }

  lemma Half(e: nat) returns (h: nat)
    requires e % 2 == 0
    ensures e == 2 * h
  {
    h := e / 2;
  }

  lemma Quotient(n: nat, d: nat) returns (q: nat)
    requires d > 0
    ensures n == d * q + n % d
  {
    q := n / d;
  }

  lemma EvenProduct(e: nat, h: nat, q: nat)
    requires e == 2 * h
    ensures e * q == 2 * (h * q)
  {}

  lemma OddRemainder(n: nat, k: nat, r: nat)
    requires n == 2 * k + r && n % 2 == 1
    ensures r % 2 == 1
  {}

  lemma NoDivisor(n: nat, i: nat)
    requires n >= 2 && i * i > n && Undivided(n, i)
    ensures Prime(n)
  {
    forall d | 2 <= d < n
      ensures n % d != 0
    {
      if n % d == 0 {
        SmallDivisor(n, d);
        var e :| 2 <= e <= d && e * e <= n && n % e == 0;
        if e >= i { MulMono(i, e, i); MulMono(i, e, e); }
      }
    }
  }

  // ---------------------------------------------------- there is always a larger prime

  function Factorial(n: nat): (f: nat)
    ensures f >= 1
  {
    if n == 0 then 1 else n * Factorial(n - 1)
  }

  lemma {:induction false} FactorialDivisible(n: nat, d: nat)
    requires 1 <= d <= n
    ensures Factorial(n) % d == 0
    decreases n
  {
    if d == n {
      assert Factorial(n) == Factorial(n - 1) * n;
      RemainderOfProduct(Factorial(n - 1), n);
    } else {
      FactorialDivisible(n - 1, d);
      var q := Factorial(n - 1) / d;
      assert Factorial(n - 1) == q * d;
      assert Factorial(n) == (n * q) * d;
      RemainderOfProduct(n * q, d);
    }
  }

  lemma DividesThrough(n: nat, d: nat, e: nat)
    requires d > 0 && e > 0 && n % d == 0 && d % e == 0
    ensures n % e == 0
  {
    var q := Quotient(n, d);
    var r := Quotient(d, e);
    Regroup(e, r, q);
    RemainderOfProduct(q * r, e);
  }

  lemma Regroup(e: nat, r: nat, q: nat)
    ensures e * r * q == q * r * e
  {}

  /** Every number from 2 on has a prime divisor. */
  lemma {:induction false} PrimeDivisor(n: nat, d: nat) returns (p: nat)
    requires 2 <= d <= n && n % d == 0 && forall e :: 2 <= e < d ==> n % e != 0
    ensures Prime(p) && n % p == 0
  {
    p := d;
    forall e | 2 <= e < d
      ensures d % e != 0
    {
      if d % e == 0 {
        DividesThrough(n, d, e);
      }
    }
  }

  lemma {:induction false} LeastDivisor(n: nat, d: nat) returns (p: nat)
    requires 2 <= d <= n && forall e :: 2 <= e < d ==> n % e != 0
    ensures Prime(p) && n % p == 0
    decreases n - d
  {
    if n % d == 0 {
      p := PrimeDivisor(n, d);
    } else {
      p := LeastDivisor(n, d + 1);
    }
  }

  /** Euclid: a prime divisor of `n! + 1` is larger than `n`. */
  lemma LargerPrime(n: nat) returns (p: nat)
    ensures Prime(p) && p > n
  {
    var m := Factorial(n) + 1;
    p := LeastDivisor(m, 2);
    if p <= n {
      FactorialDivisible(n, p);
      Remainder(m, Factorial(n) / p, 1, p);
    }
  }

  /** The search of `main`: it ends, at the least prime not below the start. */
  method NextPrime(start: int) returns (p: int)
    ensures Prime(p) && p >= start && (forall q :: start <= q < p ==> !Prime(q)) && (p > start <==> !Prime(start))
  {
    ghost var bound := LargerPrime(if start < 0 then 0 else start);
    p := start;
    var found := IsPrime(p);
    while !found
      invariant start <= p <= bound && (found <==> Prime(p)) && forall q :: start <= q < p ==> !Prime(q)
      decreases bound - p, !found
    {
      p := p + 1;
      found := IsPrime(p);
    }
  }
}

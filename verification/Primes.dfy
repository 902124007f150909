/** FindPrime of fasthash.cpp, which sizes the hash tables, over unbounded integers. */
module Primes {

  ghost predicate Divides(d: nat, n: nat)
    requires d > 0
  {
    n % d == 0
  }

  ghost predicate IsPrime(n: nat) {
    n >= 2 && forall d :: 2 <= d < n ==> !Divides(d, n)
  }

  /** The whole part of the square root. */
  function Sqrt(n: nat): (r: nat)
    ensures r * r <= n < (r + 1) * (r + 1)
  {
    if n == 0 then 0
    else
      var r := Sqrt(n - 1);
      if (r + 1) * (r + 1) <= n then r + 1 else r
  }

  lemma {:induction false} MulMonotone(a: nat, b: nat, c: nat, d: nat)
    requires a <= c && b <= d
    ensures a * b <= c * d
  {
    assert a * b <= c * b;
    assert c * b <= c * d;
  }

  lemma Quotient(d: nat, n: nat) returns (e: nat)
    requires d > 0 && Divides(d, n)
    ensures n == d * e && (n > 0 && d < n ==> e >= 2)
  {
    e := n / d;
  }

  lemma DividesProduct(d: nat, e: nat)
    requires d > 0
    ensures Divides(d, d * e)
  {
    var q, r := (d * e) / d, (d * e) % d;
    assert d * (e - q) == r;
    if e < q {
      MulMonotone(d, 1, d, q - e);
    } else if e > q {
      MulMonotone(d, 1, d, e - q);
    }
  }

  /** An odd number with no divisor from 3 to a little over its square root is prime. */
  lemma TrialDivisionSuffices(n: nat)
    requires n >= 5 && n % 2 == 1
    requires forall d :: 3 <= d <= Sqrt(n) + 1 ==> !Divides(d, n)
    ensures IsPrime(n)
  {
    forall d | 2 <= d < n ensures !Divides(d, n) {
      if Divides(d, n) {
        var e := Quotient(d, n);
        if d == 2 {
          assert false;
        } else if e == 2 {
          assert false;
        } else {
          var s := Sqrt(n);
          if d > s && e > s {
            MulMonotone(s + 1, s + 1, d, e);
            assert false;
          } else if d <= s {
            assert false;
          } else {
            assert n == e * d;
            DividesProduct(e, d);
            assert false;
          }
        }
      }
    }
  }

  // ---- there is always a next prime ------------------------------------------------

  function Factorial(n: nat): (r: nat)
    ensures r >= 1
  {
    if n == 0 then 1 else n * Factorial(n - 1)
  }

  lemma {:induction false} DividesFactorial(d: nat, n: nat)
    requires 1 <= d <= n
    ensures Divides(d, Factorial(n))
    decreases n
  {
    if d == n {
      DividesProduct(d, Factorial(n - 1));
    } else {
      DividesFactorial(d, n - 1);
      var e := Quotient(d, Factorial(n - 1));
      assert Factorial(n) == n * (d * e) == d * (n * e);
      DividesProduct(d, n * e);
    }
  }

  /** Every number above one has a divisor that is prime. */
  lemma {:induction false} PrimeDivisor(n: nat) returns (p: nat)
    requires n >= 2
    ensures IsPrime(p) && Divides(p, n) && p <= n
    decreases n
  {
    if d :| 2 <= d < n && Divides(d, n) {
      p := PrimeDivisor(d);
      var e := Quotient(d, n);
      var f := Quotient(p, d);
      assert n == (p * f) * e == p * (f * e);
      DividesProduct(p, f * e);
    } else {
      p := n;
    }
  }

  /** Euclid: some prime is at least n, found below n! + 1. */
  lemma PrimeAbove(n: nat) returns (p: nat)
    ensures IsPrime(p) && n <= p <= Factorial(n) + 1
  {
    p := PrimeDivisor(Factorial(n) + 1);
    if p < n {
      DividesFactorial(p, n);
      var a := Quotient(p, Factorial(n));
      var b := Quotient(p, Factorial(n) + 1);
      NoUnit(p, a, b);
      assert false;
    }
  }

  lemma NoUnit(p: nat, a: nat, b: nat)
    requires p >= 2
    ensures p * b != p * a + 1
  {
    if b <= a {
      MulMonotone(p, b, p, a);
    } else {
      MulMonotone(p, a + 1, p, b);
    }
  }

  // ---- the search --------------------------------------------------------------------

  /** The inner loop: does some x from 3 to the rounded square root plus one divide n? */
  method PassesTrialDivision(n: nat) returns (prime: bool)
    requires n >= 5 && n % 2 == 1
    ensures prime <==> IsPrime(n)
  {
    var stop := Sqrt(n) + 1;
    for x := 3 to stop + 1
      invariant forall d :: 3 <= d < x ==> !Divides(d, n)
    {
      if n % x == 0 {
        assert Divides(x, n);
        if x >= n {
          MulMonotone(n - 1, 3, stop - 1, stop - 1);
          assert false;
        }
        return false;
      }
    }
    TrialDivisionSuffices(n);
    return true;
  }

  /** The least prime that is at least val; two for the values below two. */
  method FindPrime(val: nat) returns (result: nat)
    ensures IsPrime(result) && result >= val
    ensures forall q: nat :: IsPrime(q) && q >= val ==> result <= q
  {
    if val <= 2 {
      return 2;
    }
    if val == 3 {
      return 3;
    }
    result := val;
    if result % 2 == 0 {
      assert Divides(2, result);
      result := result + 1;
    }
    ghost var bound := PrimeAbove(val);
    while true
      invariant result >= 5 && result % 2 == 1 && val <= result <= bound
      invariant forall q: nat :: IsPrime(q) && q >= val ==> result <= q
      decreases bound - result
    {
      var prime := PassesTrialDivision(result);
      if prime {
        return;
      }
      assert Divides(2, result + 1);
      assert !IsPrime(result + 1);
      forall q: nat | IsPrime(q) && q >= val ensures result + 2 <= q {}
      result := result + 2;
    }
  }
}

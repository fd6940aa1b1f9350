/**
 * The arithmetic behind the stride walk of the disjoint-set forest: a prime
 * that does not divide `n` has an inverse modulo `n`, so stepping through
 * `0 .. n-1` by that prime visits every index exactly once.
 */
module Numbers {

  /** Division with remainder is unique. */
  lemma ModUnique(a: int, n: int, q: int, r: int)
    requires n > 0 && 0 <= r < n && a == n * q + r
    ensures a % n == r && a / n == q
  {
    var d := q - a / n;
    assert n * d == a % n - r by {
      assert n * q - n * (a / n) == n * d;
    }
  }

  /** Multiplication distributes over adding one to either factor. */
  lemma Distribute(m: int, x: int)
    ensures m * (x + 1) == m * x + m && (m + 1) * x == m * x + x
  {
  }

  /** Multiplying by a non-negative factor keeps the order. */
  lemma MultiplyBelow(a: int, b: int, c: int)
    requires a <= b && c >= 0
    ensures a * c <= b * c
  {
  }

  lemma ModAddMultiple(a: int, c: int, n: int)
    requires n > 0
    ensures (a + n * c) % n == a % n
  {
    ModUnique(a + n * c, n, a / n + c, a % n);
  }

  /** Reducing a summand first does not change the remainder. */
  lemma ModAddReduced(a: int, b: int, n: int)
    requires n > 0
    ensures (a % n + b) % n == (a + b) % n
  {
    ModAddMultiple(a % n + b, a / n, n);
  }

  function Gcd(a: nat, b: nat): nat
    decreases b
  {
    if b == 0 then a else Gcd(b, a % b)
  }

  /** Bezout's identity, by the extended Euclidean algorithm. */
  lemma {:induction false} Bezout(a: nat, b: nat) returns (x: int, y: int)
    ensures x * a + y * b == Gcd(a, b)
    decreases b
  {
    if b == 0 {
      x, y := 1, 0;
    } else {
      var x', y' := Bezout(b, a % b);
      var q := a / b;
      assert a % b == a - q * b;
      x, y := y', x' - y' * q;
      calc {
        x * a + y * b;
        y' * a + x' * b - y' * q * b;
        x' * b + y' * (a - q * b);
        Gcd(b, a % b);
      }
    }
  }

  ghost predicate Divides(d: int, a: int)
  {
    exists k :: a == d * k
  }

  /** The greatest common divisor divides both arguments and is positive unless both are 0. */
  lemma {:induction false} GcdDivides(a: nat, b: nat)
    ensures Divides(Gcd(a, b), a) && Divides(Gcd(a, b), b)
    ensures a > 0 || b > 0 ==> Gcd(a, b) > 0
    decreases b
  {
    if b == 0 {
      assert a == a * 1 && 0 == a * 0;
    } else {
      GcdDivides(b, a % b);
      var g := Gcd(b, a % b);
      var kb :| b == g * kb;
      var kr :| a % b == g * kr;
      var q := a / b;
      assert a == g * (q * kb + kr) by {
        assert a == q * b + a % b;
        assert q * b == g * (q * kb);
      }
    }
  }

  /** No divisor strictly between 1 and `p`. */
  predicate Prime(p: int)
  {
    p >= 2 && forall d :: 2 <= d < p ==> p % d != 0
  }

  /** A multiple of a number from 2 to 10 is a multiple of 2, 3, 5 or 7. */
  lemma SmallFactor(p: int, e: int, q: int)
    requires 2 <= e <= 10 && p == e * q
    ensures p % 2 == 0 || p % 3 == 0 || p % 5 == 0 || p % 7 == 0
  {
    if e == 2 {
      ModUnique(p, 2, q, 0);
    } else if e == 3 {
      ModUnique(p, 3, q, 0);
    } else if e == 4 {
      ModUnique(p, 2, 2 * q, 0);
    } else if e == 5 {
      ModUnique(p, 5, q, 0);
    } else if e == 6 {
      ModUnique(p, 2, 3 * q, 0);
    } else if e == 7 {
      ModUnique(p, 7, q, 0);
    } else if e == 8 {
      ModUnique(p, 2, 4 * q, 0);
    } else if e == 9 {
      ModUnique(p, 3, 3 * q, 0);
    } else {
      ModUnique(p, 2, 5 * q, 0);
    }
  }

  /**
   * A number from 11 to 120 with no factor 2, 3, 5 or 7 is prime: a proper
   * factorisation of it would have a factor of at most 10.
   */
  lemma SmallPrime(p: int)
    requires 11 <= p < 121 && p % 2 != 0 && p % 3 != 0 && p % 5 != 0 && p % 7 != 0
    ensures Prime(p)
  {
    forall d | 2 <= d < p ensures p % d != 0 {
      NotDivisor(p, d);
    }
  }

  lemma NotDivisor(p: int, d: int)
    requires 11 <= p < 121 && p % 2 != 0 && p % 3 != 0 && p % 5 != 0 && p % 7 != 0
    requires 2 <= d < p
    ensures p % d != 0
  {
    if p % d == 0 {
      var k := p / d;
      assert p == d * k;
      if d <= 10 {
        SmallFactor(p, d, k);
      } else {
        SmallFactor(p, k, d);
      }
    }
  }

  /** A prime has no divisors but 1 and itself. */
  lemma DividesPrime(d: int, p: int)
    requires Prime(p) && d >= 1 && Divides(d, p)
    ensures d == 1 || d == p
  {
    var k :| p == d * k;
    if 2 <= d < p {
      ModUnique(p, d, k, 0);
    }
  }

  /** A prime that does not divide `n` has an inverse modulo `n`. */
  lemma Inverse(p: int, n: int) returns (x: int)
    requires Prime(p) && n >= 1 && n % p != 0
    ensures (x * p) % n == 1 % n
  {
    GcdDivides(p, n);
    var g := Gcd(p, n);
    DividesPrime(g, p);
    if g == p {
      var k :| n == p * k;
      ModUnique(n, p, k, 0);
    }
    var y;
    x, y := Bezout(p, n);
    assert x * p == 1 + n * -y;
    ModAddMultiple(1, -y, n);
  }

  /** The index the stride walk reads on pass `i`: it starts at `2p mod n`. */
  function Stride(p: int, n: int, i: int): (j: int)
    requires n >= 1
    ensures 0 <= j < n
  {
    ((i + 2) * p) % n
  }

  /** One pass of the walk: `j <- (j + p) mod n`. */
  lemma StrideStep(p: int, n: int, i: int)
    requires n >= 1
    ensures (Stride(p, n, i) + p) % n == Stride(p, n, i + 1)
  {
    ModAddReduced((i + 2) * p, p, n);
    assert (i + 2) * p + p == (i + 3) * p;
  }

  /** The two ring identities the walk needs, on plain variables. */
  lemma CoversAlgebra(s: int, x: int, t: int, n: int, m: int, p: int, c: int)
    requires s == x * t + n * m && x * p == 1 + n * c
    ensures s * p == t + n * (t * c + m * p)
  {
    calc {
      s * p;
      (x * t) * p + (n * m) * p;
      t * (x * p) + n * (m * p);
      t * (1 + n * c) + n * (m * p);
    }
  }

  lemma InjectiveAlgebra(d: int, x: int, p: int, n: int, e: int, c: int)
    requires d * p == n * e && x * p == 1 + n * c
    ensures d == n * (x * e - d * c)
  {
    calc {
      d;
      d * (x * p) - n * (d * c);
      x * (d * p) - n * (d * c);
      x * (n * e) - n * (d * c);
    }
  }

  /** An inverse in the form the identities use. */
  lemma InverseWitness(p: int, n: int) returns (x: int, c: int)
    requires Prime(p) && n >= 2 && n % p != 0
    ensures x * p == 1 + n * c
  {
    x := Inverse(p, n);
    c := (x * p) / n;
    assert 1 % n == 1;
  }

  /** Every index `t` of `0 .. n-1` is read on some pass of the walk. */
  lemma StrideCovers(p: int, n: int, t: int) returns (i: int)
    requires Prime(p) && n >= 1 && n % p != 0 && 0 <= t < n
    ensures 0 <= i < n && Stride(p, n, i) == t
  {
    if n == 1 {
      i := 0;
    } else {
      var x, c := InverseWitness(p, n);
      i := (x * t - 2) % n;
      var m := (x * t - 2) / n;
      CoversAlgebra(i + 2, x, t, n, -m, p, c);
      ModUnique((i + 2) * p, n, t * c + -m * p, t);
    }
  }

  /** No index is read twice in `n` passes. */
  lemma StrideInjective(p: int, n: int, a: int, b: int)
    requires Prime(p) && n >= 1 && n % p != 0 && 0 <= a < b < n
    ensures Stride(p, n, a) != Stride(p, n, b)
  {
    var qa, qb := ((a + 2) * p) / n, ((b + 2) * p) / n;
    if Stride(p, n, a) == Stride(p, n, b) {
      var x, c := InverseWitness(p, n);
      assert (b - a) * p == n * (qb - qa) by {
        assert (b + 2) * p - (a + 2) * p == (b - a) * p;
      }
      InjectiveAlgebra(b - a, x, p, n, qb - qa, c);
      ModUnique(b - a, n, x * (qb - qa) - (b - a) * c, 0);
      ModUnique(b - a, n, 0, b - a);
    }
  }
}

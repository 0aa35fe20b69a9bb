/** Elementary number theory behind textbook RSA: powers, residues, binomial
    coefficients, Fermat's little theorem and the Chinese remainder step for
    two distinct primes.  Everything here is on unbounded naturals. */
module NumberTheory {

  /** b to the k-th power, by repeated multiplication. */
  function Pow(b: nat, k: nat): nat
  {
    if k == 0 then 1 else b * Pow(b, k - 1)
  }

  // ---------------------------------------------------------------------------
  // Residues

  /** The quotient-remainder decomposition is unique. */
  lemma ModUnique(a: int, m: int, q: int, r: int)
    requires m > 0 && 0 <= r < m && a == m * q + r
    ensures a % m == r
  {
    var q', r' := a / m, a % m;
    assert a == m * q' + r';
    var d := q - q';
    assert m * d == r' - r;
    if d > 0 {
      MulAtLeast(m, d);
    } else if d < 0 {
      MulAtLeast(m, -d);
    }
  }

  lemma MulAtLeast(m: int, d: int)
    requires m > 0 && d >= 1
    ensures m * d >= m
  {
  }

  lemma ModAddMultiple(x: int, m: int, z: int)
    requires m > 0
    ensures (x + m * z) % m == x % m
  {
    ModUnique(x + m * z, m, x / m + z, x % m);
  }

  lemma ModMultiple(m: int, z: int)
    requires m > 0
    ensures (m * z) % m == 0
  {
    ModUnique(m * z, m, z, 0);
  }

  /** Only the residue of an addend matters. */
  lemma ModAdd(x: int, y: int, m: int)
    requires m > 0
    ensures (x + y) % m == (x % m + y) % m
  {
    ModAddMultiple(x % m + y, m, x / m);
  }

  /** Only the residue of a factor matters. */
  lemma MulMod(x: int, y: int, m: int)
    requires m > 0
    ensures (x * y) % m == ((x % m) * y) % m
  {
    var q := x / m;
    assert x * y == (x % m) * y + m * (q * y);
    ModAddMultiple((x % m) * y, m, q * y);
  }

  // ---------------------------------------------------------------------------
  // Powers

  lemma {:induction false} PowAdd(b: nat, i: nat, j: nat)
    ensures Pow(b, i + j) == Pow(b, i) * Pow(b, j)
  {
    if i > 0 {
      PowAdd(b, i - 1, j);
      assert Pow(b, i + j) == b * Pow(b, (i - 1) + j);
    }
  }

  lemma {:induction false} PowMul(b: nat, i: nat, j: nat)
    ensures Pow(Pow(b, i), j) == Pow(b, i * j)
  {
    if j > 0 {
      PowMul(b, i, j - 1);
      PowAdd(b, i, i * (j - 1));
      assert i + i * (j - 1) == i * j;
    }
  }

  /** Every power of 1 is 1. */
  lemma {:induction false} PowOne(k: nat)
    ensures Pow(1, k) == 1
  {
    if k > 0 {
      PowOne(k - 1);
    }
  }

  /** Squaring the base halves the exponent. */
  lemma PowSquare(b: nat, h: nat)
    ensures Pow(b * b, h) == Pow(b, 2 * h)
  {
    assert Pow(b, 1) == b;
    assert Pow(b, 2) == b * b;
    PowMul(b, 2, h);
  }

  /** Reducing the base modulo m does not change the power modulo m. */
  lemma {:induction false} PowModBase(b: nat, k: nat, m: nat)
    requires m > 0
    ensures Pow(b % m, k) % m == Pow(b, k) % m
  {
    if k > 0 {
      PowModBase(b, k - 1, m);
      calc {
        Pow(b % m, k) % m;
        ((b % m) * Pow(b % m, k - 1)) % m;
        { MulMod(Pow(b % m, k - 1), b % m, m); }
        ((Pow(b % m, k - 1) % m) * (b % m)) % m;
        ((Pow(b, k - 1) % m) * (b % m)) % m;
        { MulMod(Pow(b, k - 1), b % m, m); }
        (Pow(b, k - 1) * (b % m)) % m;
        { MulMod(b, Pow(b, k - 1), m); }
        (b * Pow(b, k - 1)) % m;
        Pow(b, k) % m;
      }
    }
  }

  // ---------------------------------------------------------------------------
  // Binomial coefficients

  /** Pascal's triangle; zero to the right of the diagonal. */
  function Binom(n: nat, k: nat): nat
  {
    if k == 0 then 1 else if n == 0 then 0 else Binom(n - 1, k - 1) + Binom(n - 1, k)
  }

  lemma {:induction false} BinomBeyond(n: nat, k: nat)
    requires k > n
    ensures Binom(n, k) == 0
  {
    if n > 0 {
      BinomBeyond(n - 1, k - 1);
      BinomBeyond(n - 1, k);
    }
  }

  lemma {:induction false} BinomDiagonal(n: nat)
    ensures Binom(n, n) == 1
  {
    if n > 0 {
      BinomDiagonal(n - 1);
      BinomBeyond(n - 1, n);
    }
  }

  /** The absorption identity k C(n, k) = n C(n - 1, k - 1). */
  lemma {:induction false} BinomAbsorb(n: nat, k: nat)
    requires 1 <= k <= n
    ensures k * Binom(n, k) == n * Binom(n - 1, k - 1)
  {
    if n == 1 {
      assert Binom(1, 1) == Binom(0, 0) + Binom(0, 1);
    } else if k == 1 {
      BinomAbsorb(n - 1, 1);
    } else {
      BinomAbsorb(n - 1, k - 1);
      if k <= n - 1 {
        BinomAbsorb(n - 1, k);
      } else {
        BinomBeyond(n - 1, k);
        BinomBeyond(n - 2, k - 1);
      }
      AbsorbStep(n, k, Binom(n - 1, k - 1), Binom(n - 1, k), Binom(n - 2, k - 2), Binom(n - 2, k - 1));
    }
  }

  /** The arithmetic of one step of BinomAbsorb, with the coefficients named. */
  lemma AbsorbStep(n: int, k: int, a: int, b: int, c: int, d: int)
    requires a == c + d && (k - 1) * a == (n - 1) * c && k * b == (n - 1) * d
    ensures k * (a + b) == n * a
  {
    calc {
      k * (a + b);
      (k - 1) * a + a + k * b;
      (n - 1) * c + a + (n - 1) * d;
      (n - 1) * (c + d) + a;
      n * a;
    }
  }

  /** The first j terms of the binomial expansion of (a + 1)^n. */
  function Partial(a: nat, n: nat, j: nat): nat
  {
    if j == 0 then 0 else Partial(a, n, j - 1) + Binom(n, j - 1) * Pow(a, j - 1)
  }

  /** Pascal's rule, summed term by term. */
  lemma {:induction false} PartialPascal(a: nat, n: nat, j: nat)
    requires n >= 1
    ensures Partial(a, n, j + 1) == a * Partial(a, n - 1, j) + Partial(a, n - 1, j + 1)
  {
    if j > 0 {
      PartialPascal(a, n, j - 1);
      assert Binom(n, j) == Binom(n - 1, j - 1) + Binom(n - 1, j);
      PascalStep(a, Partial(a, n, j), Partial(a, n - 1, j - 1), Partial(a, n - 1, j), Partial(a, n - 1, j + 1),
                 Binom(n - 1, j - 1), Binom(n - 1, j), Pow(a, j - 1), Pow(a, j));
    }
  }

  /** The arithmetic of one step of PartialPascal, with the sums named. */
  lemma PascalStep(a: int, q1: int, p0: int, p1: int, p2: int, c0: int, c1: int, w: int, w': int)
    requires q1 == a * p0 + p1 && p1 == p0 + c0 * w && p2 == p1 + c1 * w' && w' == a * w
    ensures q1 + (c0 + c1) * w' == a * p1 + p2
  {
    calc {
      q1 + (c0 + c1) * w';
      a * p0 + p1 + c0 * (a * w) + c1 * w';
      a * (p0 + c0 * w) + p2;
    }
  }

  /** The binomial theorem for (a + 1)^n. */
  lemma {:induction false} BinomialTheorem(a: nat, n: nat)
    ensures Pow(a + 1, n) == Partial(a, n, n + 1)
  {
    if n > 0 {
      var x := Partial(a, n - 1, n);
      calc {
        Pow(a + 1, n);
        (a + 1) * Pow(a + 1, n - 1);
        { BinomialTheorem(a, n - 1); }
        (a + 1) * x;
        a * x + x;
        { BinomBeyond(n - 1, n);
          assert Partial(a, n - 1, n + 1) == x + Binom(n - 1, n) * Pow(a, n); }
        a * x + Partial(a, n - 1, n + 1);
        { PartialPascal(a, n, n); }
        Partial(a, n, n + 1);
      }
    }
  }

  // ---------------------------------------------------------------------------
  // Primes

  ghost predicate IsPrime(p: nat)
  {
    p > 1 && forall k :: 1 < k < p ==> p % k != 0
  }

  /** The arithmetic of one descent step of Euclid's lemma: with p = q k + r
      and k c = p t, r c is a multiple of p. */
  lemma EuclidStep(p: int, k: int, c: int, q: int, r: int, t: int)
    requires p == q * k + r && k * c == p * t
    ensures r * c == p * (c - q * t)
  {
    calc {
      r * c;
      (p - q * k) * c;
      p * c - q * (k * c);
      p * c - q * (p * t);
      p * (c - q * t);
    }
  }

  /** Euclid's lemma, in the form needed here: a prime that divides k c with
      0 < k < p divides c.  By descent on k through p mod k. */
  lemma {:induction false} Euclid(p: nat, k: nat, c: int)
    requires IsPrime(p) && 0 < k < p && (k * c) % p == 0
    ensures c % p == 0
    decreases k
  {
    if k > 1 {
      var q, r := p / k, p % k;
      assert p == q * k + r && 0 < r < k;
      var t := (k * c) / p;
      assert k * c == p * t;
      EuclidStep(p, k, c, q, r, t);
      ModMultiple(p, c - q * t);
      Euclid(p, r, c);
    }
  }

  /** A prime p divides every inner coefficient of row p. */
  lemma BinomPrime(p: nat, k: nat)
    requires IsPrime(p) && 0 < k < p
    ensures Binom(p, k) % p == 0
  {
    BinomAbsorb(p, k);
    ModMultiple(p, Binom(p - 1, k - 1));
    Euclid(p, k, Binom(p, k));
  }

  /** All inner terms of the expansion of (a + 1)^p vanish modulo p. */
  lemma {:induction false} PartialModPrime(a: nat, p: nat, j: nat)
    requires IsPrime(p) && 1 <= j <= p
    ensures Partial(a, p, j) % p == 1
  {
    if j == 1 {
      assert Partial(a, p, 1) == 1 by {
        assert Partial(a, p, 1) == Partial(a, p, 0) + Binom(p, 0) * Pow(a, 0);
      }
      ModUnique(1, p, 0, 1);
    } else {
      PartialModPrime(a, p, j - 1);
      BinomPrime(p, j - 1);
      var y, c, w := Partial(a, p, j - 1), Binom(p, j - 1), Pow(a, j - 1);
      assert Partial(a, p, j) == y + c * w;
      InnerTermVanishes(y, c, w, p);
    }
  }

  lemma InnerTermVanishes(y: int, c: int, w: int, p: int)
    requires p > 0 && c % p == 0
    ensures (y + c * w) % p == y % p
  {
    var t := c / p;
    assert c == p * t;
    assert c * w == p * (t * w);
    ModAddMultiple(y, p, t * w);
  }

  /** (a + 1)^p and a^p + 1 agree modulo a prime p. */
  lemma FreshmansDream(a: nat, p: nat)
    requires IsPrime(p)
    ensures Pow(a + 1, p) % p == (Pow(a, p) + 1) % p
  {
    BinomialTheorem(a, p);
    PartialModPrime(a, p, p);
    BinomDiagonal(p);
    var s := Partial(a, p, p);
    assert Pow(a + 1, p) == s + Pow(a, p);
    assert s == p * (s / p) + 1;
    ModAddMultiple(Pow(a, p) + 1, p, s / p);
  }

  /** Fermat's little theorem: a^p and a agree modulo a prime p. */
  lemma {:induction false} Fermat(a: nat, p: nat)
    requires IsPrime(p)
    ensures Pow(a, p) % p == a % p
  {
    if a == 0 {
      assert Pow(0, p) == 0 * Pow(0, p - 1);
    } else {
      Fermat(a - 1, p);
      FreshmansDream(a - 1, p);
      ModAdd(Pow(a - 1, p), 1, p);
      ModAdd(a - 1, 1, p);
    }
  }

  /** Exponents congruent to 1 modulo p - 1 act as the identity modulo p. */
  lemma {:induction false} FermatPower(a: nat, p: nat, k: nat, x: nat)
    requires IsPrime(p) && x == 1 + k * (p - 1)
    ensures Pow(a, x) % p == a % p
  {
    if k > 0 {
      var x' := x - (p - 1);
      assert x' == 1 + (k - 1) * (p - 1);
      FermatPower(a, p, k - 1, x');
      PowAdd(a, x', p - 1);
      var u, w := Pow(a, x'), Pow(a, p - 1);
      assert Pow(a, x) == u * w;
      MulMod(u, w, p);
      MulMod(a, w, p);
      assert Pow(a, p) == a * w;
      Fermat(a, p);
    }
  }

  /** Two numbers that agree modulo two distinct primes agree modulo their product. */
  lemma ChineseRemainder(x: nat, y: nat, p: nat, q: nat)
    requires IsPrime(p) && IsPrime(q) && p != q
    requires x % p == y % p && x % q == y % q
    ensures x % (p * q) == y % (p * q)
  {
    var z: int := x - y;
    assert z == p * (x / p - y / p);
    var t := x / p - y / p;
    assert z % q == 0 by {
      assert z == q * (x / q - y / q);
      ModMultiple(q, x / q - y / q);
    }
    assert 0 < p % q < q by {
      if p < q { ModUnique(p, q, 0, p); }
    }
    MulMod(p, t, q);
    Euclid(q, p % q, t);
    var s := t / q;
    assert x == y + (p * q) * s;
    ModAddMultiple(y, p * q, s);
  }

  /** Textbook RSA is correct: for distinct primes p, q, the modulus n = p q,
      phi = (p - 1)(q - 1) and exponents with e d = 1 modulo phi, raising m to e
      and then to d modulo n gives back m reduced modulo n. */
  lemma RsaCorrect(p: nat, q: nat, n: nat, phi: nat, e: nat, d: nat, m: nat)
    requires IsPrime(p) && IsPrime(q) && p != q && n == p * q && phi == (p - 1) * (q - 1)
    requires (e * d) % phi == 1
    ensures Pow(Pow(m, e) % n, d) % n == m % n
  {
    var c := Pow(m, e);
    var j := ExponentSplit(e * d, p - 1, q - 1);
    var x := Pow(m, e * d);
    assert Pow(c % n, d) % n == x % n by {
      PowModBase(c, d, n);
      PowMul(m, e, d);
    }
    assert x % p == m % p by {
      FermatPower(m, p, j * (q - 1), e * d);
    }
    assert x % q == m % q by {
      FermatPower(m, q, j * (p - 1), e * d);
    }
    ChineseRemainder(x, m, p, q);
  }

  /** An exponent that is 1 modulo u v is 1 modulo u and 1 modulo v. */
  lemma ExponentSplit(x: nat, u: nat, v: nat) returns (j: nat)
    requires u * v > 0 && x % (u * v) == 1
    ensures x == 1 + (j * v) * u && x == 1 + (j * u) * v
  {
    j := x / (u * v);
    assert x == 1 + (u * v) * j;
  }

  lemma Prime61()
    ensures IsPrime(61)
  {
    forall k | 1 < k < 61
      ensures 61 % k != 0
    {
      if k < 8 {
        assert k == 2 || k == 3 || k == 4 || k == 5 || k == 6 || k == 7;
      }
    }
  }

  lemma Prime53()
    ensures IsPrime(53)
  {
    forall k | 1 < k < 53
      ensures 53 % k != 0
    {
      if k < 8 {
        assert k == 2 || k == 3 || k == 4 || k == 5 || k == 6 || k == 7;
      }
    }
  }
}

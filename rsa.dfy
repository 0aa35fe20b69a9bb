/** The chat's cipher: textbook RSA with the fixed primes 61 and 53 and public
    exponent 17, applied to a string one UTF-16 code unit at a time. */
module Rsa {
  import opened NumberTheory
  import opened JsText

  datatype PublicKey = PublicKey(e: nat, n: nat)
  datatype PrivateKey = PrivateKey(d: nat, n: nat)
  datatype KeyPair = KeyPair(publicKey: PublicKey, privateKey: PrivateKey)

  /** The parameters generateKeys fixes. */
  const P: nat := 61
  const Q: nat := 53
  const E: nat := 17
  const N: nat := P * Q
  const Phi: nat := (P - 1) * (Q - 1)

  /** The pair generateKeys returns: n = 3233, e = 17 and d = 2753. */
  const GeneratedKeys := KeyPair(PublicKey(17, 3233), PrivateKey(2753, 3233))

  // ---------------------------------------------------------------------------
  // Modular exponentiation

  /** What modPow(b, x, m) returns: b^x reduced modulo m, except that an
      exponent of 0 gives an unreduced 1 because the loop never runs. */
  function ModPowValue(b: nat, x: nat, m: nat): nat
    requires m > 0
  {
    if x == 0 then 1 else Pow(b, x) % m
  }

  /** modPow: right-to-left binary square-and-multiply.  The base is reduced
      first; each round multiplies the result in when the low bit of the
      exponent is set, then halves the exponent and squares the base. */
  method ModPow(base: nat, exp: nat, mod: nat) returns (result: nat)
    requires mod > 0
    ensures exp == 0 ==> result == 1
    ensures exp > 0 ==> result == Pow(base, exp) % mod && result < mod
  {
    result := 1;
    var b: nat := base % mod;
    var x: nat := exp;
    PowModBase(base, exp, mod);
    while x > 0
      invariant x <= exp && b < mod
      invariant (result * Pow(b, x)) % mod == Pow(base, exp) % mod
      invariant x == exp ==> result == 1
      invariant result == 1 || result < mod
      invariant x == 0 && exp > 0 ==> result < mod
      decreases x
    {
      SquareMultiplyStep(result, b, x, mod);
      if x % 2 == 1 {
        result := (result * b) % mod;
      }
      x := x / 2;
      b := (b * b) % mod;
    }
    if exp > 0 {
      assert result * Pow(b, 0) == result;
      ModUnique(result, mod, 0, result);
    }
  }

  /** One round of ModPow keeps result * base^exp fixed modulo m. */
  lemma SquareMultiplyStep(r: nat, b: nat, x: nat, m: nat)
    requires m > 0 && x > 0
    ensures (r * Pow(b, x)) % m
         == ((if x % 2 == 1 then (r * b) % m else r) * Pow((b * b) % m, x / 2)) % m
  {
    var h := x / 2;
    var sq, sq' := Pow(b * b, h), Pow((b * b) % m, h);
    PowSquare(b, h);
    PowModBase(b * b, h, m);
    if x % 2 == 1 {
      assert Pow(b, x) == b * Pow(b, 2 * h);
      calc {
        (r * Pow(b, x)) % m;
        { assert r * Pow(b, x) == sq * (r * b); }
        (sq * (r * b)) % m;
        { MulMod(sq, r * b, m); MulMod(sq', r * b, m); }
        (sq' * (r * b)) % m;
        { MulMod(r * b, sq', m); }
        (((r * b) % m) * sq') % m;
      }
    } else {
      assert Pow(b, x) == sq;
      calc {
        (r * sq) % m;
        { MulMod(sq, r, m); MulMod(sq', r, m); }
        (r * sq') % m;
      }
    }
  }

  // ---------------------------------------------------------------------------
  // Key generation

  /** generateKeys: n = p q, phi = (p - 1)(q - 1), e = 17, and d found by a
      linear search from 1 for the first d with d e mod phi = 1. */
  method GenerateKeys() returns (keys: KeyPair)
    ensures keys.publicKey == PublicKey(E, N) && keys.privateKey.n == N
    ensures keys.privateKey.d >= 1 && (keys.privateKey.d * E) % Phi == 1
    ensures forall d' :: 1 <= d' < keys.privateKey.d ==> (d' * E) % Phi != 1
    ensures keys == GeneratedKeys
  {
    var p, q := 61, 53;
    var n := p * q;
    var phi := (p - 1) * (q - 1);
    var e := 17;
    var d := 1;
    // The search ends by 2753 at the latest, an inverse of 17 modulo 3120
    // (gcd(17, 3120) = 1).
    while (d * e) % phi != 1
      invariant 1 <= d <= 2753
      invariant forall d' :: 1 <= d' < d ==> (d' * e) % phi != 1
      decreases 2753 - d
    {
      d := d + 1;
    }
    InverseOf17(d);
    keys := KeyPair(PublicKey(e, n), PrivateKey(d, n));
  }

  /** 2753 is the only inverse of 17 modulo 3120 in 1..2753. */
  lemma InverseOf17(d: nat)
    requires 1 <= d <= 2753 && (d * 17) % 3120 == 1
    ensures d == 2753
  {
    var k := 2753 - d;
    var a := (d * 17) / 3120;
    assert d * 17 == 3120 * a + 1;
    var j := 15 - a;
    assert 17 * k == 3120 * j;
    assert k * 46801 == 3120 * (2753 * j) by {
      calc {
        k * 46801;
        2753 * (17 * k);
        2753 * (3120 * j);
        3120 * (2753 * j);
      }
    }
    assert k == 3120 * (2753 * j - 15 * k);
    ModUnique(k, 3120, 2753 * j - 15 * k, 0);
    ModUnique(k, 3120, 0, k);
  }

  // ---------------------------------------------------------------------------
  // The cipher

  /** encrypt: each code unit m of the message, in order, becomes modPow(m, e, n). */
  function Encrypt(message: JsString, key: PublicKey): (cipher: seq<nat>)
    requires key.n > 0
    ensures |cipher| == |message|
    ensures key.e > 0 ==> forall i :: 0 <= i < |cipher| ==> cipher[i] < key.n
  {
    seq(|message|, i requires 0 <= i < |message| => ModPowValue(message[i], key.e, key.n))
  }

  /** decrypt: each number c, in order, becomes the code unit
      String.fromCharCode(modPow(c, d, n)). */
  function Decrypt(cipher: seq<nat>, key: PrivateKey): (text: JsString)
    requires key.n > 0
    ensures |text| == |cipher|
  {
    seq(|cipher|, i requires 0 <= i < |cipher| => FromCharCode(ModPowValue(cipher[i], key.d, key.n)))
  }

  /** Both directions work position by position: the cipher of a concatenation
      is the concatenation of the ciphers, and likewise for decryption. */
  lemma CipherConcat(a: JsString, b: JsString, c1: seq<nat>, c2: seq<nat>, kp: KeyPair)
    requires kp.publicKey.n > 0 && kp.privateKey.n > 0
    ensures Encrypt(a + b, kp.publicKey) == Encrypt(a, kp.publicKey) + Encrypt(b, kp.publicKey)
    ensures Decrypt(c1 + c2, kp.privateKey) == Decrypt(c1, kp.privateKey) + Decrypt(c2, kp.privateKey)
  {
    var x, y := Encrypt(a + b, kp.publicKey), Encrypt(a, kp.publicKey) + Encrypt(b, kp.publicKey);
    assert forall i :: 0 <= i < |x| ==> x[i] == y[i] by {
      forall i | 0 <= i < |x| ensures x[i] == y[i] {
        if i < |a| { assert (a + b)[i] == a[i]; } else { assert (a + b)[i] == b[i - |a|]; }
      }
    }
    var u, v := Decrypt(c1 + c2, kp.privateKey), Decrypt(c1, kp.privateKey) + Decrypt(c2, kp.privateKey);
    assert forall i :: 0 <= i < |u| ==> u[i] == v[i] by {
      forall i | 0 <= i < |u| ensures u[i] == v[i] {
        if i < |c1| { assert (c1 + c2)[i] == c1[i]; } else { assert (c1 + c2)[i] == c2[i - |c1|]; }
      }
    }
  }

  // ---------------------------------------------------------------------------
  // Correctness of the cipher

  /** A textbook RSA pair over the distinct primes p and q: both keys carry
      n = p q, and e d = 1 modulo (p - 1)(q - 1). */
  ghost predicate FromPrimes(kp: KeyPair, p: nat, q: nat)
  {
    IsPrime(p) && IsPrime(q) && p != q &&
    kp.publicKey.n == p * q && kp.privateKey.n == p * q &&
    (kp.publicKey.e * kp.privateKey.d) % ((p - 1) * (q - 1)) == 1
  }

  lemma GeneratedFromPrimes()
    ensures FromPrimes(GeneratedKeys, P, Q)
  {
    Prime61();
    Prime53();
  }

  /** Decryption undoes encryption code unit by code unit, up to the silent
      reduction of the code unit modulo n. */
  lemma RoundTrip(t: JsString, kp: KeyPair, p: nat, q: nat)
    requires FromPrimes(kp, p, q)
    ensures kp.publicKey.n > 0
    ensures var r := Decrypt(Encrypt(t, kp.publicKey), kp.privateKey);
      |r| == |t| && forall i :: 0 <= i < |t| ==> r[i] == t[i] % kp.publicKey.n
  {
    ExponentsPositive(kp, p, q);
    var c := Encrypt(t, kp.publicKey);
    var r := Decrypt(c, kp.privateKey);
    forall i | 0 <= i < |t|
      ensures r[i] == t[i] % kp.publicKey.n
    {
      RoundTripUnit(t[i], kp, p, q);
    }
  }

  lemma ExponentsPositive(kp: KeyPair, p: nat, q: nat)
    requires FromPrimes(kp, p, q)
    ensures kp.publicKey.n > 0 && kp.publicKey.e > 0 && kp.privateKey.d > 0
  {
    var e, d, phi := kp.publicKey.e, kp.privateKey.d, (p - 1) * (q - 1);
    if e == 0 || d == 0 {
      assert e * d == 0;
      ModUnique(0, phi, 0, 0);
    }
  }

  /** The round trip of a single code unit. */
  lemma RoundTripUnit(u: CodeUnit, kp: KeyPair, p: nat, q: nat)
    requires FromPrimes(kp, p, q)
    ensures kp.publicKey.n > 0
    ensures FromCharCode(ModPowValue(ModPowValue(u, kp.publicKey.e, kp.publicKey.n), kp.privateKey.d, kp.privateKey.n))
         == u % kp.publicKey.n
  {
    ExponentsPositive(kp, p, q);
    ModPowRoundTrip(p, q, kp.publicKey.n, kp.publicKey.e, kp.privateKey.d, u);
    ModAtMost(u, kp.publicKey.n);
  }

  lemma ModPowRoundTrip(p: nat, q: nat, n: nat, e: nat, d: nat, u: nat)
    requires IsPrime(p) && IsPrime(q) && p != q && n == p * q
    requires (e * d) % ((p - 1) * (q - 1)) == 1 && e > 0 && d > 0
    ensures n > 0 && ModPowValue(ModPowValue(u, e, n), d, n) == u % n
  {
    var phi := (p - 1) * (q - 1);
    RsaCorrect(p, q, n, phi, e, d, u);
    MulAtLeast(p, q);
    var c := Pow(u, e) % n;
    assert ModPowValue(u, e, n) == c;
    assert ModPowValue(c, d, n) == Pow(c, d) % n;
  }

  lemma ModAtMost(u: nat, n: nat)
    requires n > 0
    ensures u % n <= u
  {
    if u < n { ModUnique(u, n, 0, u); }
  }

  /** For the generated pair, decrypt(encrypt(t)) gives back t exactly when
      every code unit of t is below n = 3233. */
  lemma GeneratedRoundTrip(t: JsString)
    ensures Decrypt(Encrypt(t, GeneratedKeys.publicKey), GeneratedKeys.privateKey) == t
        <==> forall i :: 0 <= i < |t| ==> t[i] < 3233
  {
    GeneratedFromPrimes();
    RoundTrip(t, GeneratedKeys, P, Q);
    var r := Decrypt(Encrypt(t, GeneratedKeys.publicKey), GeneratedKeys.privateKey);
    if forall i :: 0 <= i < |t| ==> t[i] < 3233 {
      assert forall i :: 0 <= i < |t| ==> r[i] == t[i];
    }
  }

  /** Encryption under the generated public key loses no information on code
      units below n: distinct messages give distinct ciphers. */
  lemma GeneratedEncryptInjective(s: JsString, t: JsString)
    requires forall i :: 0 <= i < |s| ==> s[i] < 3233
    requires forall i :: 0 <= i < |t| ==> t[i] < 3233
    requires Encrypt(s, GeneratedKeys.publicKey) == Encrypt(t, GeneratedKeys.publicKey)
    ensures s == t
  {
    GeneratedRoundTrip(s);
    GeneratedRoundTrip(t);
  }
}

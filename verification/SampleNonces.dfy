/** Two nonces: one that the search finds, since trial division splits off two primes just
    below its limit, and one that it misses, since the opened value holds a prime beyond
    the limit twice, of which the nonce takes one. */
module SampleNonces {
  import opened ModArith
  import opened Primes
  import opened Shamir
  import opened Factorize
  import opened KeyRecovery
  import opened ProthPrimes

  /** 2^40 */
  const SMALL_PART := 0x100_0000_0000

  /** A nonce of 64 bits, and the product that is opened if the mask is the other prime. */
  const FOUND_NONCE := SMALL_PART * LAST_PRIME
  const FOUND_OPENED := FOUND_NONCE * NEXT_PRIME

  /** A nonce of 68 bits, and the product that is opened if the mask is the large prime. */
  const NONCE := SMALL_PART * LARGE_PRIME
  const OPENED := NONCE * LARGE_PRIME

  lemma {:induction false} PrimeOfPower(p: Prime, n: nat)
    requires Divides(p, Pow(2, n))
    ensures p == 2
  {
    if n == 0 {
      DividesAtMost(p, 1);
    } else {
      CongZeroDivides(Pow(2, n), p);
      NoZeroDivisors(2, Pow(2, n - 1), p);
      CongZeroDivides(2, p);
      CongZeroDivides(Pow(2, n - 1), p);
      if Divides(p, 2) {
        DividesAtMost(p, 2);
      } else {
        PrimeOfPower(p, n - 1);
      }
    }
  }

  lemma SmallPartIsPower()
    ensures SMALL_PART == Pow(2, 40)
  {
    PowAdd(2, 20, 20);
    PowAdd(2, 10, 10);
    PowAdd(2, 5, 5);
    assert Pow(2, 1) == 2 && Pow(2, 2) == 4 && Pow(2, 3) == 8 && Pow(2, 4) == 16 && Pow(2, 5) == 32;
  }

  // ---- Found --------------------------------------------------------------------------------

  /** The primes in the opened value are 2 and the two below the limit. */
  lemma PrimeOfFound(p: Prime)
    requires Divides(p, FOUND_OPENED)
    ensures p == 2 || p == LAST_PRIME || p == NEXT_PRIME
  {
    hide IsPrime, Pow;
    LastPrimeIsPrime();
    NextPrimeIsPrime();
    SmallPartIsPower();
    CongZeroDivides(FOUND_OPENED, p);
    NoZeroDivisors(SMALL_PART, LAST_PRIME * NEXT_PRIME, p);
    CongZeroDivides(SMALL_PART, p);
    CongZeroDivides(LAST_PRIME * NEXT_PRIME, p);
    if Divides(p, SMALL_PART) {
      PrimeOfPower(p, 40);
    } else {
      PrimeDividesProduct(p, LAST_PRIME, NEXT_PRIME);
    }
  }

  lemma NoTwoBeyond(a: int, b: int)
    requires IsPrime(a) && IsPrime(b) && a > 16777217 && b > 16777217
    ensures !Divides(a * b, FOUND_OPENED)
  {
    hide IsPrime;
    if Divides(a * b, FOUND_OPENED) {
      DividesByWitness(a, a * b, b);
      DividesTransitive(a, a * b, FOUND_OPENED);
      PrimeOfFound(a);
    }
  }

  /** The nonce divides what is opened, and the search returns it. */
  method SearchFinds(q: Prime) returns (ok: bool, value: int)
    requires q >= Pow(2, 74)
    ensures Divides(FOUND_NONCE, FOUND_OPENED) && IsPrime(LAST_PRIME) && IsPrime(NEXT_PRIME)
    ensures ok && value == FOUND_NONCE
  {
    hide Accepted, Separated, LargePart, Divides, IsLogarithm, IsPrime;
    LastPrimeIsPrime();
    NextPrimeIsPrime();
    var target := Times(FOUND_NONCE, G(q), q);
    DividesByWitness(FOUND_NONCE, FOUND_OPENED, NEXT_PRIME);
    AcceptedExactly(FOUND_NONCE, target, q);
    AcceptedIsLogarithm(FOUND_NONCE, target, q);
    OnlyLogarithm(FOUND_NONCE, target, q);
    forall a, b | IsPrime(a) && IsPrime(b) && a > 16777217 && b > 16777217
      ensures !Divides(a * b, FOUND_OPENED)
    {
      NoTwoBeyond(a, b);
    }
    var count;
    count, ok, value := TestFactorize(FOUND_OPENED, target, q);
  }

  // ---- Missed -------------------------------------------------------------------------------

  /** The part beyond the limit is the square of the large prime. */
  lemma LargePartOfOpened()
    ensures LargePart(OPENED, LARGE_PRIME * LARGE_PRIME)
  {
    var a, u := LARGE_PRIME, LARGE_PRIME * LARGE_PRIME;
    LargePrimeIsPrime();
    SmallPartIsPower();
    DividesByWitness(u, OPENED, SMALL_PART);
    ModIsRemainder(OPENED, u, SMALL_PART, 0);
    forall d | 2 <= d < 16777218
      ensures !Divides(d, u)
    {
      if Divides(d, u) {
        var p := PrimeDivisor(d);
        DividesTransitive(p, d, u);
        DividesAtMost(p, d);
        PrimeDividesProduct(p, a, a);
      }
    }
    forall p | IsPrime(p) && Divides(p, OPENED / u)
      ensures p <= 16777217
    {
      PrimeOfPower(p, 40);
    }
  }

  lemma NonceNotSeparated()
    ensures !Separated(LARGE_PRIME * LARGE_PRIME, NONCE)
  {
    DividesByWitness(LARGE_PRIME, LARGE_PRIME * LARGE_PRIME, LARGE_PRIME);
    DividesByWitness(LARGE_PRIME, NONCE, SMALL_PART);
    assert NONCE % (LARGE_PRIME * LARGE_PRIME) != 0;
  }

  /** Whatever trial division returns, no choice of its factors makes up the nonce. */
  lemma NonceNeverTried(factors: seq<int>)
    requires TrialFactors(factors, OPENED)
    ensures Divides(NONCE, OPENED) && !Tried(factors, NONCE)
  {
    hide TrialFactors, Separated, LargePart, Tried;
    DividesByWitness(NONCE, OPENED, LARGE_PRIME);
    LargePartOfOpened();
    NonceNotSeparated();
    NotTried(factors, OPENED, LARGE_PRIME * LARGE_PRIME, NONCE);
  }

  lemma NotTried(factors: seq<int>, kr: int, u: int, d: int)
    requires TrialFactors(factors, kr) && LargePart(kr, u) && Divides(d, kr) && !Separated(u, d)
    ensures !Tried(factors, d)
  {
    hide Separated, LargePart, Tried, AllPrime, LastFactor;
    SeparatedSame(factors, kr, u, d);
    TriedExactly(factors, kr, d);
  }

  /** The nonce divides what is opened and is accepted for its point; the search does not
      find it, nor anything else. */
  method SearchMisses(q: Prime) returns (ok: bool)
    requires q >= Pow(2, 74)
    ensures Divides(NONCE, OPENED) && Accepted(NONCE, Times(NONCE, G(q), q), q)
    ensures !ok
  {
    hide Accepted, Separated, LargePart, Divides, IsLogarithm;
    var target := Times(NONCE, G(q), q);
    NonceAccepted(q);
    LargePartOfOpened();
    NonceNotSeparated();
    AcceptedIsLogarithm(NONCE, target, q);
    OnlyLogarithm(NONCE, target, q);
    var count, value;
    count, ok, value := TestFactorize(OPENED, target, q);
  }

  lemma NonceAccepted(q: Prime)
    ensures Divides(NONCE, OPENED) && Accepted(NONCE, Times(NONCE, G(q), q), q)
  {
    AcceptedExactly(NONCE, Times(NONCE, G(q), q), q);
    DividesByWitness(NONCE, OPENED, LARGE_PRIME);
  }
}

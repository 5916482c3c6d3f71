/** Recovering a signature's nonce from the opened product of nonce and mask: trial
    division, then a search through the divisors that the factors make up. */
module Factorize {
  import opened ModArith
  import opened Primes
  import opened Shamir

  /** Trial division goes no further than the first factor above this, which is 16777217. */
  const FACTOR_LIMIT := 0x100_0000

  // ---- Trial division -----------------------------------------------------------

  /** n has no divisor from 2 up to, but not including, b. */
  ghost predicate NoDivisorBelow(n: int, b: int) {
    forall d :: 2 <= d < b ==> !Divides(d, n)
  }

  /** What trial division promises of its last entry. */
  ghost predicate LastFactor(n: int) {
    n == 1 || IsPrime(n) || NoDivisorBelow(n, 16777218)
  }

  /** What trial division returns for kr: primes up to the limit, and last what was
      left of kr. */
  ghost predicate TrialFactors(factors: seq<int>, kr: int) {
    && factors != [] && Product(factors) == kr >= 1
    && AllPrime(factors[..|factors| - 1])
    && (forall i :: 0 <= i < |factors| - 1 ==> factors[i] <= 16777217)
    && factors[|factors| - 1] >= 1 && LastFactor(factors[|factors| - 1])
  }

  method TrialDivision(kr: nat) returns (factors: seq<int>)
    ensures kr >= 1 ==> TrialFactors(factors, kr)
    ensures kr == 0 ==> factors == [0]
    ensures factors != [] && forall i :: 0 <= i < |factors| - 1 ==> 2 <= factors[i] <= 16777217
    ensures var last := factors[|factors| - 1];
            last <= 1 || IsPrime(last) || forall d :: 2 <= d <= 16777217 ==> !Divides(d, last)
  {
    factors := [];
    var remaining := kr;
    var factor := 2;
    var stop := false;
    while factor < kr && !stop
      invariant 2 <= factor && (kr >= 2 ==> factor <= kr)
      invariant kr >= 1 ==> 1 <= remaining <= kr
      invariant kr == 0 ==> remaining == 0 && factors == []
      invariant Product(factors) * remaining == kr && AllPrime(factors)
      invariant factor <= 16777217 && forall i :: 0 <= i < |factors| ==> factors[i] <= 16777217
      invariant if stop then LastFactor(remaining) else NoDivisorBelow(remaining, factor)
      decreases kr - factor, !stop
    {
      if factor * factor > remaining {
        SquareBeyond(remaining, factor);
        stop := true;
      } else {
        while remaining % factor == 0
          invariant 1 <= remaining <= kr
          invariant Product(factors) * remaining == kr && AllPrime(factors)
          invariant forall i :: 0 <= i < |factors| ==> factors[i] <= 16777217
          invariant NoDivisorBelow(remaining, factor)
          decreases remaining
        {
          SmallestDivisorPrime(remaining, factor);
          DivideOut(factors, remaining, factor, kr);
          factors := factors + [factor];
          remaining := remaining / factor;
        }
        assert NoDivisorBelow(remaining, factor + 1);
        if factor > FACTOR_LIMIT {
          stop := true;
        } else {
          factor := factor + 1;
        }
      }
    }
    if !stop && kr >= 1 {
      NoDivisorsLeft(remaining, factor);
    }
    ProductSnoc(factors, remaining);
    factors := factors + [remaining];
    assert factors[..|factors| - 1] + [remaining] == factors;
  }

  lemma DivideOut(factors: seq<int>, remaining: int, factor: int, kr: int)
    requires factor >= 2 && remaining >= 1 && remaining % factor == 0 && Product(factors) * remaining == kr
    ensures 1 <= remaining / factor < remaining
    ensures Product(factors + [factor]) * (remaining / factor) == kr
    ensures forall d :: Divides(d, remaining / factor) ==> Divides(d, remaining)
  {
    var k := DividesWitness(factor, remaining);
    ModIsRemainder(remaining, factor, k, 0);
    QuotientSmaller(k, factor);
    ProductSnoc(factors, factor);
    MulAssoc(Product(factors), factor, k);
    MulComm(k, factor);
    DividesByWitness(k, remaining, factor);
    forall d | Divides(d, k)
      ensures Divides(d, remaining)
    {
      DividesTransitive(d, k, remaining);
    }
  }

  lemma QuotientSmaller(k: int, f: int)
    requires f >= 2 && k * f >= 1
    ensures 1 <= k < k * f
  {
    ScaleBound(k, f);
    assert k * 1 < k * f;
  }

  /** The smallest divisor from 2 on is prime. */
  lemma SmallestDivisorPrime(n: int, f: int)
    requires n >= 1 && f >= 2 && n % f == 0 && NoDivisorBelow(n, f)
    ensures IsPrime(f)
  {
    forall d | 2 <= d < f
      ensures !Divides(d, f)
    {
      if Divides(d, f) {
        DividesTransitive(d, f, n);
      }
    }
  }

  /** Once the square of the next factor exceeds it, what remains is 1 or prime. */
  lemma SquareBeyond(n: int, f: int)
    requires n >= 1 && f >= 2 && f * f > n && NoDivisorBelow(n, f)
    ensures n == 1 || IsPrime(n)
  {
    forall d | 2 <= d < n
      ensures !Divides(d, n)
    {
      if Divides(d, n) {
        var e := DividesWitness(d, n);
        CofactorBounds(d, e, n);
        DividesByWitness(e, n, d);
        SquareAtMost(f, d, e);
      }
    }
  }

  lemma CofactorBounds(d: int, e: int, n: int)
    requires 2 <= d < n && n == e * d
    ensures 2 <= e < n && n == d * e
  {
    ScaleBound(e, d);
    assert e * 1 < e * d;
  }

  lemma SquareAtMost(f: int, d: int, e: int)
    requires f >= 0
    ensures f <= d && f <= e ==> f * f <= e * d
  {
    if f <= d && f <= e {
      assert f * f <= e * f;
      assert e * f <= e * d;
    }
  }

  lemma NoDivisorsLeft(n: int, b: int)
    requires 1 <= n && NoDivisorBelow(n, b) && n <= b
    ensures n == 1 || IsPrime(n)
  {
  }

  // ---- Divisors as choices of factors ---------------------------------------------

  /** The product of the chosen factors. */
  function Chosen(factors: seq<int>, choice: seq<bool>): int
    requires |choice| == |factors|
  {
    if factors == [] then 1
    else (if choice[0] then factors[0] else 1) * Chosen(factors[1..], choice[1..])
  }

  lemma {:induction false} ChosenDivides(factors: seq<int>, choice: seq<bool>) returns (k: int)
    requires |choice| == |factors|
    ensures Product(factors) == k * Chosen(factors, choice)
  {
    if factors == [] {
      k := 1;
    } else {
      var l := ChosenDivides(factors[1..], choice[1..]);
      var c, f := Chosen(factors[1..], choice[1..]), factors[0];
      if choice[0] {
        k := l;
        assert f * (l * c) == l * (f * c);
      } else {
        k := f * l;
        assert f * (l * c) == (f * l) * c;
      }
    }
  }

  /** If all factors are primes or 1, every divisor of their product is the product
      of some of them. */
  lemma {:induction false} DivisorIsChosen(factors: seq<int>, d: int) returns (choice: seq<bool>)
    requires forall i :: 0 <= i < |factors| ==> factors[i] == 1 || IsPrime(factors[i])
    requires Divides(d, Product(factors))
    ensures |choice| == |factors| && Chosen(factors, choice) == d
  {
    if factors == [] {
      DividesAtMost(d, 1);
      choice := [];
    } else {
      var f, rest := factors[0], factors[1..];
      if f != 1 && Divides(f, d) {
        DivisorQuotient(f, d, Product(rest));
        var c := DivisorIsChosen(rest, d / f);
        choice := [true] + c;
      } else {
        if f != 1 {
          CoprimeDivisor(f, d, Product(rest));
        }
        var c := DivisorIsChosen(rest, d);
        choice := [false] + c;
        assert Chosen(factors, choice) == 1 * Chosen(rest, c);
      }
    }
  }

  // ---- The search -------------------------------------------------------------------

  function BitLength(v: nat): nat {
    if v == 0 then 0 else 1 + BitLength(v / 2)
  }

  /** The t-th choice in the order of itertools.product: the last varies fastest. */
  function Choice(t: nat, n: nat): (c: seq<bool>)
    ensures |c| == n
  {
    if n == 0 then [] else Choice(t / 2, n - 1) + [t % 2 == 1]
  }

  function ChoiceIndex(c: seq<bool>): nat {
    if c == [] then 0 else 2 * ChoiceIndex(c[..|c| - 1]) + if c[|c| - 1] then 1 else 0
  }

  /** Every choice is tried. */
  lemma {:induction false} ChoicesCovered(c: seq<bool>)
    ensures ChoiceIndex(c) < Pow(2, |c|) && Choice(ChoiceIndex(c), |c|) == c
  {
    if c != [] {
      var d := c[..|c| - 1];
      ChoicesCovered(d);
      assert ChoiceIndex(c) / 2 == ChoiceIndex(d);
      assert c == d + [c[|c| - 1]];
    }
  }

  lemma {:induction false} BitLengthAtLeast(v: nat, n: nat)
    ensures BitLength(v) >= n <==> n == 0 || v >= Pow(2, n - 1)
    decreases n
  {
    if n == 1 {
      assert Pow(2, 0) == 1;
    } else if n > 1 {
      BitLengthAtLeast(v / 2, n - 1);
      PowerOrder(n - 2, 0);
    }
  }

  lemma SearchBounds()
    ensures Pow(2, 61) == 0x2000_0000_0000_0000 && Pow(2, 74) == 0x400_0000_0000_0000_0000
  {
    PowAdd(2, 4, 4);
    PowAdd(2, 8, 8);
    PowAdd(2, 16, 16);
    PowAdd(2, 32, 16);
    PowAdd(2, 48, 8);
    PowAdd(2, 56, 5);
    PowAdd(2, 61, 8);
    PowAdd(2, 69, 5);
    assert Pow(2, 1) == 2 && Pow(2, 2) == 4 && Pow(2, 3) == 8 && Pow(2, 4) == 16 && Pow(2, 5) == 32;
  }

  /** A divisor that the search accepts. */
  ghost predicate Accepted(v: int, target: Point, q: Prime) {
    v >= 0 && 62 <= BitLength(v) <= 74 && target == Times(v, G(q), q)
  }

  lemma AcceptedExactly(v: int, target: Point, q: Prime)
    ensures Accepted(v, target, q) <==>
              0x2000_0000_0000_0000 <= v < 0x400_0000_0000_0000_0000 && target == Times(v, G(q), q)
  {
    hide Times, G, BitLength, Pow;
    SearchBounds();
    if v >= 0 {
      BitLengthAtLeast(v, 62);
      BitLengthAtLeast(v, 75);
    }
  }

  method SearchDivisor(factors: seq<int>, target: Point, q: Prime) returns (ok: bool, value: int)
    requires forall i :: 0 <= i < |factors| ==> factors[i] >= 0
    ensures ok <==> exists c :: |c| == |factors| && Accepted(Chosen(factors, c), target, q)
    ensures ok ==> Accepted(value, target, q) && Divides(value, Product(factors))
  {
    var n := |factors|;
    var t := 0;
    var total := Pow(2, n);
    while t < total
      invariant 0 <= t
      invariant forall u :: 0 <= u < t ==> !Accepted(Chosen(factors, Choice(u, n)), target, q)
    {
      var c := Choice(t, n);
      var v := MultiplyChosen(factors, c);
      var bits := BitLength(v);
      if 62 <= bits <= 74 {
        var k := ChosenDivides(factors, c);
        DividesByWitness(v, Product(factors), k);
        if target == Times(v, G(q), q) {
          assert Accepted(Chosen(factors, c), target, q);
          return true, v;
        }
      }
      t := t + 1;
    }
    ok, value := false, 0;
    forall c | |c| == n
      ensures !Accepted(Chosen(factors, c), target, q)
    {
      ChoicesCovered(c);
    }
  }

  method MultiplyChosen(factors: seq<int>, choice: seq<bool>) returns (value: nat)
    requires |choice| == |factors|
    requires forall i :: 0 <= i < |factors| ==> factors[i] >= 0
    ensures value == Chosen(factors, choice)
  {
    value := 1;
    var i := 0;
    assert factors[0..] == factors && choice[0..] == choice;
    while i < |factors|
      invariant 0 <= i <= |factors|
      invariant value * Chosen(factors[i..], choice[i..]) == Chosen(factors, choice)
    {
      assert factors[i..][1..] == factors[i + 1..] && choice[i..][1..] == choice[i + 1..];
      if choice[i] {
        MulAssoc(value, factors[i], Chosen(factors[i + 1..], choice[i + 1..]));
        ProductNotNegative(value, factors[i]);
        value := value * factors[i];
      }
      i := i + 1;
    }
    assert factors[i..] == [];
    assert value * 1 == value;
  }

  lemma ProductNotNegative(a: nat, b: nat)
    ensures a * b >= 0
  {
  }

  method TestFactorize(kr: nat, target: Point, q: Prime) returns (count: nat, ok: bool, value: int)
    ensures ok ==> Accepted(value, target, q) && Divides(value, kr)
    ensures kr == 0 ==> !ok
    ensures kr >= 1 ==> exists u :: LargePart(kr, u)
    ensures forall u :: LargePart(kr, u) ==>
              (ok <==> exists d :: Divides(d, kr) && Separated(u, d) && Accepted(d, target, q))
    ensures CompletelyFactored(kr) ==> (ok <==> exists d :: Divides(d, kr) && Accepted(d, target, q))
    ensures kr >= 1 && (forall a, b :: IsPrime(a) && IsPrime(b) && a > 16777217 && b > 16777217 ==> !Divides(a * b, kr))
            ==> (ok <==> exists d :: Divides(d, kr) && Accepted(d, target, q))
  {
    var factors := TrialDivision(kr);
    count := |factors|;
    FactorsNotNegative(factors, kr);
    ok, value := SearchDivisor(factors, target, q);
    if kr == 0 {
      ZeroRefused(target, q);
    } else {
      var u := LargePartExists(factors, kr);
      forall u | LargePart(kr, u)
        ensures ok <==> exists d :: Divides(d, kr) && Separated(u, d) && Accepted(d, target, q)
      {
        SearchedExactly(factors, kr, u, target, q);
      }
      FactoredExactly(factors, kr);
      forall d | Divides(d, kr) && Accepted(d, target, q) && CompletelyFactored(kr)
        ensures ok
      {
        PrimeSeparates(factors[|factors| - 1], d);
        SeparatedSame(factors, kr, u, d);
      }
    }
  }

  lemma FactorsNotNegative(factors: seq<int>, kr: nat)
    requires if kr == 0 then factors == [0] else TrialFactors(factors, kr)
    ensures Product(factors) == kr
    ensures forall i :: 0 <= i < |factors| ==> factors[i] >= 0
  {
    if kr == 0 {
      assert factors[1..] == [];
    } else {
      forall i | 0 <= i < |factors| - 1
        ensures factors[i] >= 0
      {
        assert IsPrime(factors[..|factors| - 1][i]);
      }
    }
  }

  /** Nothing is found for an opened value of 0. */
  lemma ZeroRefused(target: Point, q: Prime)
    ensures forall c :: |c| == 1 ==> !Accepted(Chosen([0], c), target, q)
  {
    forall c: seq<bool> | |c| == 1
      ensures !Accepted(Chosen([0], c), target, q)
    {
      assert c[1..] == [] && [0][1..] == [];
      assert Chosen([0], c) == 0 || Chosen([0], c) == 1;
      assert BitLength(1) == 1 + BitLength(0);
    }
  }

  // ---- Which divisors are tried -----------------------------------------------------

  /** a and b have no common divisor. */
  ghost predicate Coprime(a: int, b: int) {
    forall e :: e >= 2 && Divides(e, a) ==> !Divides(e, b)
  }

  /** d takes all of u or nothing of it. */
  ghost predicate Separated(u: int, d: int) {
    Divides(u, d) || Coprime(u, d)
  }

  /** d is the product of some choice of the factors. */
  ghost predicate Tried(factors: seq<int>, d: int) {
    exists c :: |c| == |factors| && Chosen(factors, c) == d
  }

  /** A number that shares no prime with m, and that divides m*n, divides n. */
  lemma {:induction false} CoprimeDivides(d: int, m: int, n: int)
    requires d > 0 && m >= 1 && Divides(d, m * n)
    requires forall p :: IsPrime(p) && Divides(p, m) ==> !Divides(p, d)
    ensures Divides(d, n)
    decreases m
  {
    if m == 1 {
      assert 1 * n == n;
    } else {
      var p := PrimeDivisor(m);
      var k := DividesWitness(p, m);
      QuotientSmaller(k, p);
      MulComm(k, p);
      MulAssoc(p, k, n);
      assert !Divides(p, d);
      CoprimeDivisor(p, d, k * n);
      forall r | IsPrime(r) && Divides(r, k)
        ensures !Divides(r, d)
      {
        DividesByWitness(k, m, p);
        DividesTransitive(r, k, m);
      }
      CoprimeDivides(d, k, n);
    }
  }

  lemma {:induction false} ChosenLast(s: seq<int>, last: int, c: seq<bool>, b: bool)
    requires |c| == |s|
    ensures Chosen(s + [last], c + [b]) == Chosen(s, c) * if b then last else 1
  {
    if s == [] {
      assert s + [last] == [last] && c + [b] == [b];
      assert [last][1..] == [] && [b][1..] == [];
    } else {
      assert (s + [last])[1..] == s[1..] + [last] && (c + [b])[1..] == c[1..] + [b];
      ChosenLast(s[1..], last, c[1..], b);
      MulAssoc(if c[0] then s[0] else 1, Chosen(s[1..], c[1..]), if b then last else 1);
    }
  }

  lemma {:induction false} ChosenPositive(factors: seq<int>, c: seq<bool>)
    requires |c| == |factors| && forall i :: 0 <= i < |factors| ==> factors[i] >= 1
    ensures Chosen(factors, c) >= 1
  {
    if factors != [] {
      ChosenPositive(factors[1..], c[1..]);
      ScaleBound(if c[0] then factors[0] else 1, Chosen(factors[1..], c[1..]));
    }
  }

  /** A common divisor of the last factor and of a product of the others exists only
      if the last factor is one of these. */
  lemma LastIsSeparate(s: seq<int>, last: int, d: int)
    requires AllPrime(s) && forall p :: p in s ==> p <= 16777217
    requires last >= 1 && LastFactor(last) && Divides(d, Product(s))
    ensures Separated(last, d)
  {
    if !Divides(last, d) {
      forall e | e >= 2 && Divides(e, last)
        ensures !Divides(e, d)
      {
        if Divides(e, d) {
          DividesAtMost(e, last);
          if !IsPrime(last) {
            var p := PrimeDivisor(e);
            DividesTransitive(p, e, last);
            DividesTransitive(p, e, d);
            DividesTransitive(p, d, Product(s));
            PrimeInProduct(p, s);
          }
        }
      }
    }
  }

  lemma SplitLast(factors: seq<int>, kr: int)
    requires TrialFactors(factors, kr)
    ensures var s, last := factors[..|factors| - 1], factors[|factors| - 1];
            factors == s + [last] && Product(s) >= 1 && Product(s) * last == kr
  {
    var s, last := factors[..|factors| - 1], factors[|factors| - 1];
    assert factors == s + [last];
    ProductSnoc(s, last);
    PrimesMultiplyUp(s);
  }

  lemma TriedIsSeparated(factors: seq<int>, kr: int, c: seq<bool>)
    requires TrialFactors(factors, kr) && |c| == |factors|
    ensures Divides(Chosen(factors, c), kr) && Separated(factors[|factors| - 1], Chosen(factors, c))
  {
    var s, last := factors[..|factors| - 1], factors[|factors| - 1];
    SplitLast(factors, kr);
    FactorsNotNegative(factors, kr);
    forall i | 0 <= i < |factors|
      ensures factors[i] >= 1
    {
      assert i < |s| ==> IsPrime(s[i]);
    }
    ChosenPositive(factors, c);
    var d := Chosen(factors, c);
    var k := ChosenDivides(factors, c);
    DividesByWitness(d, kr, k);
    var c0, b := c[..|s|], c[|s|];
    assert c == c0 + [b];
    ChosenLast(s, last, c0, b);
    if b {
      DividesByWitness(last, d, Chosen(s, c0));
    } else {
      var l := ChosenDivides(s, c0);
      DividesByWitness(d, Product(s), l);
      forall p | p in s
        ensures p <= 16777217
      {
        var i :| 0 <= i < |s| && s[i] == p;
        assert factors[i] == p;
      }
      LastIsSeparate(s, last, d);
    }
  }

  lemma SeparatedIsTried(factors: seq<int>, kr: int, d: int)
    requires TrialFactors(factors, kr) && Divides(d, kr) && Separated(factors[|factors| - 1], d)
    ensures Tried(factors, d)
  {
    var s, last := factors[..|factors| - 1], factors[|factors| - 1];
    SplitLast(factors, kr);
    if Divides(last, d) {
      var e := DividesWitness(last, d);
      ScaleBound(e, last);
      var k := DividesWitness(d, kr);
      MulComm(last, Product(s));
      assert k * (e * last) == last * (k * e);
      CancelFactor(last, Product(s), k * e);
      DividesByWitness(e, Product(s), k);
      var c := DivisorIsChosen(s, e);
      ChosenLast(s, last, c, true);
      assert |c + [true]| == |factors|;
    } else {
      MulComm(Product(s), last);
      CoprimeDivides(d, last, Product(s));
      var c := DivisorIsChosen(s, d);
      ChosenLast(s, last, c, false);
      assert |c + [false]| == |factors|;
    }
  }

  /** Exactly those divisors of kr are tried that take all or nothing of what trial
      division has left over. */
  lemma TriedExactly(factors: seq<int>, kr: int, d: int)
    requires TrialFactors(factors, kr)
    ensures Tried(factors, d) <==> Divides(d, kr) && Separated(factors[|factors| - 1], d)
  {
    hide Separated, Divides, LastFactor, AllPrime;
    if c :| |c| == |factors| && Chosen(factors, c) == d {
      TriedIsSeparated(factors, kr, c);
    }
    if Divides(d, kr) && Separated(factors[|factors| - 1], d) {
      SeparatedIsTried(factors, kr, d);
    }
  }

  // ---- In terms of the opened value --------------------------------------------------

  /** u collects the prime factors of kr beyond the limit. */
  ghost predicate LargePart(kr: int, u: int) {
    && kr >= 1 && Divides(u, kr) && NoDivisorBelow(u, 16777218)
    && forall p :: IsPrime(p) && Divides(p, kr / u) ==> p <= 16777217
  }

  lemma LargePartExists(factors: seq<int>, kr: int) returns (u: int)
    requires TrialFactors(factors, kr)
    ensures LargePart(kr, u)
  {
    var s, last := factors[..|factors| - 1], factors[|factors| - 1];
    SplitLast(factors, kr);
    if NoDivisorBelow(last, 16777218) {
      u := last;
      ModIsRemainder(kr, last, Product(s), 0);
      forall p | IsPrime(p) && Divides(p, kr / u)
        ensures p <= 16777217
      {
        PrimeInProduct(p, s);
        var i :| 0 <= i < |s| && s[i] == p;
        assert factors[i] == p;
      }
    } else {
      u := 1;
      SmallPrimesOnly(factors, kr);
    }
  }

  /** If what is left over is not free of divisors up to the limit, all is factored. */
  lemma SmallPrimesOnly(factors: seq<int>, kr: int)
    requires TrialFactors(factors, kr) && !NoDivisorBelow(factors[|factors| - 1], 16777218)
    ensures forall p :: IsPrime(p) && Divides(p, kr) ==> p <= 16777217
  {
    var s, last := factors[..|factors| - 1], factors[|factors| - 1];
    SplitLast(factors, kr);
    var d :| 2 <= d < 16777218 && Divides(d, last);
    DividesAtMost(d, last);
    assert IsPrime(last) && last == d;
    assert AllPrime(factors) by {
      forall i | 0 <= i < |factors|
        ensures IsPrime(factors[i])
      {
        assert i < |s| ==> factors[i] == s[i];
      }
    }
    forall p | IsPrime(p) && Divides(p, kr)
      ensures p <= 16777217
    {
      PrimeInProduct(p, factors);
    }
  }

  lemma LargePartDivides(kr: int, u: int, v: int)
    requires LargePart(kr, u) && v >= 1 && Divides(v, kr) && NoDivisorBelow(v, 16777218)
    ensures Divides(v, u)
  {
    var k := DividesWitness(u, kr);
    ScaleBound(k, u);
    ModIsRemainder(kr, u, k, 0);
    forall p | IsPrime(p) && Divides(p, k)
      ensures !Divides(p, v)
    {
    }
    CoprimeDivides(v, k, u);
  }

  /** Whatever trial division leaves over separates the same divisors as the part of
      kr beyond the limit. */
  lemma SeparatedSame(factors: seq<int>, kr: int, u: int, d: int)
    requires TrialFactors(factors, kr) && LargePart(kr, u) && Divides(d, kr)
    ensures Separated(factors[|factors| - 1], d) <==> Separated(u, d)
  {
    var s, last := factors[..|factors| - 1], factors[|factors| - 1];
    SplitLast(factors, kr);
    DividesByWitness(last, kr, Product(s));
    if NoDivisorBelow(last, 16777218) {
      var v := LargePartExists(factors, kr);
      LargePartDivides(kr, u, last);
      forall p | p in s
        ensures !Divides(p, u)
      {
        var i :| 0 <= i < |s| && s[i] == p;
        assert factors[i] == p && IsPrime(p);
      }
      DividesRest(u, s, last);
      DividesAtMost(u, last);
      DividesAtMost(last, u);
    } else {
      SmallPrimesOnly(factors, kr);
      LargePartIsOne(kr, u);
      assert Divides(1, d);
      PrimeSeparates(last, d);
    }
  }

  lemma LargePartIsOne(kr: int, u: int)
    requires LargePart(kr, u) && forall p :: IsPrime(p) && Divides(p, kr) ==> p <= 16777217
    ensures u == 1
  {
    if u >= 2 {
      var p := PrimeDivisor(u);
      DividesTransitive(p, u, kr);
      assert false;
    }
  }

  lemma PrimeSeparates(p: int, d: int)
    requires p == 1 || IsPrime(p)
    ensures Separated(p, d)
  {
    if p == 1 {
      forall e | e >= 2
        ensures !Divides(e, p)
      {
        if Divides(e, p) {
          DividesAtMost(e, p);
        }
      }
    } else if !Divides(p, d) {
      forall e | e >= 2 && Divides(e, p)
        ensures !Divides(e, d)
      {
        DividesAtMost(e, p);
        assert e == p;
      }
    }
  }

  lemma SearchedExactly(factors: seq<int>, kr: int, u: int, target: Point, q: Prime)
    requires TrialFactors(factors, kr) && LargePart(kr, u)
    ensures (exists c :: |c| == |factors| && Accepted(Chosen(factors, c), target, q))
       <==> exists d :: Divides(d, kr) && Separated(u, d) && Accepted(d, target, q)
  {
    hide LargePart, Separated, Divides, Accepted, LastFactor, AllPrime;
    if c :| |c| == |factors| && Accepted(Chosen(factors, c), target, q) {
      TriedIsSeparated(factors, kr, c);
      SeparatedSame(factors, kr, u, Chosen(factors, c));
    }
    if d :| Divides(d, kr) && Separated(u, d) && Accepted(d, target, q) {
      SeparatedSame(factors, kr, u, d);
      SeparatedIsTried(factors, kr, d);
    }
  }

  // ---- When every divisor is tried ----------------------------------------------------

  /** At most one prime factor of kr, counted with multiplicity, lies beyond the
      limit of trial division. */
  ghost predicate CompletelyFactored(kr: int) {
    kr >= 1 && forall a, b :: IsPrime(a) && IsPrime(b) && Divides(a * b, kr) ==>
                 a <= 16777217 || b <= 16777217
  }

  /** Trial division factors a number into primes exactly when at most one of its
      prime factors lies beyond the limit. */
  lemma FactoredExactly(factors: seq<int>, kr: int)
    requires TrialFactors(factors, kr)
    ensures CompletelyFactored(kr) <==> factors[|factors| - 1] == 1 || IsPrime(factors[|factors| - 1])
  {
    var s, last := factors[..|factors| - 1], factors[|factors| - 1];
    SplitLast(factors, kr);
    if last == 1 || IsPrime(last) {
      LargePrimesInLast(s, last, kr);
    } else {
      TwoLargePrimes(s, last, kr);
    }
  }

  /** Every divisor of kr is tried exactly when at most one of its prime factors lies
      beyond the limit. */
  lemma AllTriedExactly(factors: seq<int>, kr: int)
    requires TrialFactors(factors, kr)
    ensures CompletelyFactored(kr) <==> forall d :: Divides(d, kr) ==> Tried(factors, d)
  {
    hide CompletelyFactored, Tried, LastFactor, AllPrime;
    var last := factors[|factors| - 1];
    FactoredExactly(factors, kr);
    if CompletelyFactored(kr) {
      forall d | Divides(d, kr)
        ensures Tried(factors, d)
      {
        PrimeSeparates(last, d);
        TriedExactly(factors, kr, d);
      }
    } else {
      var a := PrimeLeftOver(factors, kr);
      TriedExactly(factors, kr, a);
    }
  }

  lemma PrimeLeftOver(factors: seq<int>, kr: int) returns (a: Prime)
    requires TrialFactors(factors, kr)
    requires factors[|factors| - 1] != 1 && !IsPrime(factors[|factors| - 1])
    ensures Divides(a, kr) && !Separated(factors[|factors| - 1], a)
  {
    var last := factors[|factors| - 1];
    SplitLast(factors, kr);
    a := PrimeDivisor(last);
    DividesByWitness(last, kr, Product(factors[..|factors| - 1]));
    DividesTransitive(a, last, kr);
    DividesAtMost(a, last);
    if Divides(last, a) {
      DividesAtMost(last, a);
    }
    DividesByWitness(a, a, 1);
  }

  lemma LargePrimesInLast(s: seq<int>, last: int, kr: int)
    requires AllPrime(s) && Product(s) * last == kr && kr >= 1
    requires forall i :: 0 <= i < |s| ==> s[i] <= 16777217
    requires last == 1 || IsPrime(last)
    ensures CompletelyFactored(kr)
  {
    forall a, b | IsPrime(a) && IsPrime(b) && Divides(a * b, kr)
      ensures a <= 16777217 || b <= 16777217
    {
      if a > 16777217 && b > 16777217 {
        forall p | p in s
          ensures !Divides(p, a * b)
        {
          var i :| 0 <= i < |s| && s[i] == p;
          if Divides(p, a * b) {
            PrimeDividesProduct(p, a, b);
          }
        }
        DividesRest(a * b, s, last);
        NotProductOfTwo(a, b, last);
      }
    }
  }

  lemma NotProductOfTwo(a: int, b: int, n: int)
    requires a >= 2 && b >= 2 && n >= 1 && Divides(a * b, n)
    ensures n != 1 && !IsPrime(n)
  {
    var k := DividesWitness(a * b, n);
    DividesAtMost(a * b, n);
    assert a * 2 <= a * b;
    assert n == (k * b) * a;
    DividesByWitness(a, n, k * b);
  }

  lemma TwoLargePrimes(s: seq<int>, last: int, kr: int)
    requires AllPrime(s) && Product(s) * last == kr && last >= 2 && !IsPrime(last)
    requires NoDivisorBelow(last, 16777218)
    ensures !CompletelyFactored(kr)
  {
    var a, b := TwoPrimeDivisors(last);
    DividesByWitness(last, kr, Product(s));
    DividesTransitive(a * b, last, kr);
    assert a > 16777217 && b > 16777217;
    hide Divides, IsPrime, NoDivisorBelow, Product;
    TooManyPrimes(a, b, kr);
  }

  lemma TooManyPrimes(a: int, b: int, kr: int)
    requires IsPrime(a) && IsPrime(b) && a > 16777217 && b > 16777217 && Divides(a * b, kr)
    ensures !CompletelyFactored(kr)
  {
  }

  lemma TwoPrimeDivisors(n: int) returns (a: int, b: int)
    requires n >= 2 && !IsPrime(n)
    ensures IsPrime(a) && IsPrime(b) && Divides(a * b, n) && Divides(a, n) && Divides(b, n)
  {
    a := PrimeDivisor(n);
    var e := DividesWitness(a, n);
    ScaleBound(e, a);
    assert e != 1;
    b := PrimeDivisor(e);
    ProductDivides(a, b, e, n);
    DividesByWitness(e, n, a);
    DividesTransitive(b, e, n);
  }
}

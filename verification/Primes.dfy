/** Divisibility by primes: Euclid's lemma for divisors, unique factorisation, and
    the divisors of a product of primes. */
module Primes {
  import opened ModArith

  ghost predicate AllPrime(s: seq<int>) {
    forall i :: 0 <= i < |s| ==> IsPrime(s[i])
  }

  lemma {:induction false} ProductPositive(s: seq<int>)
    requires forall i :: 0 <= i < |s| ==> s[i] >= 1
    ensures Product(s) >= 1
  {
    if s != [] {
      ProductPositive(s[1..]);
      ScaleBound(s[0], Product(s[1..]));
    }
  }

  lemma {:induction false} ProductWithout(s: seq<int>, i: nat)
    requires i < |s|
    ensures Product(s) == s[i] * Product(s[..i] + s[i + 1..])
  {
    if i == 0 {
      assert s[..0] + s[1..] == s[1..];
    } else {
      var t := s[1..];
      ProductWithout(t, i - 1);
      assert t[..i - 1] == s[1..i] && t[i..] == s[i + 1..];
      var u := s[..i] + s[i + 1..];
      assert u[0] == s[0] && u[1..] == s[1..i] + s[i + 1..];
      MulAssoc(s[0], s[i], Product(u[1..]));
      MulAssoc(s[i], s[0], Product(u[1..]));
      MulComm(s[0], s[i]);
    }
  }

  lemma DividesTransitive(a: int, b: int, c: int)
    requires Divides(a, b) && Divides(b, c)
    ensures Divides(a, c)
  {
    var k := DividesWitness(a, b);
    var l := DividesWitness(b, c);
    MulAssoc(l, k, a);
    DividesByWitness(a, c, l * k);
  }

  /** Euclid's lemma: a prime that divides a product of primes is one of them. */
  lemma {:induction false} PrimeInProduct(p: Prime, s: seq<int>)
    requires AllPrime(s) && Divides(p, Product(s))
    ensures p in s
  {
    if s == [] {
      DividesAtMost(p, 1);
    } else {
      CongZeroDivides(Product(s), p);
      NoZeroDivisors(s[0], Product(s[1..]), p);
      CongZeroDivides(s[0], p);
      CongZeroDivides(Product(s[1..]), p);
      if Divides(p, s[0]) {
        DividesAtMost(p, s[0]);
        assert IsPrime(s[0]);
      } else {
        PrimeInProduct(p, s[1..]);
      }
    }
  }

  lemma PrimesMultiplyUp(s: seq<int>)
    requires AllPrime(s)
    ensures Product(s) >= 1 && (s != [] ==> Product(s) >= 2)
  {
    forall i | 0 <= i < |s|
      ensures s[i] >= 2
    {
      assert IsPrime(s[i]);
    }
    if s != [] {
      ProductPositive(s[1..]);
      assert s[0] * Product(s[1..]) >= s[0] * 1;
    }
  }

  /** Unique factorisation: primes with the same product are the same primes, each
      as often. */
  lemma {:induction false} UniqueFactorisation(s: seq<int>, t: seq<int>)
    requires AllPrime(s) && AllPrime(t) && Product(s) == Product(t)
    ensures multiset(s) == multiset(t)
  {
    if s == [] {
      PrimesMultiplyUp(t);
    } else {
      var p: Prime := s[0];
      MulComm(p, Product(s[1..]));
      DividesByWitness(p, Product(t), Product(s[1..]));
      PrimeInProduct(p, t);
      var i :| 0 <= i < |t| && t[i] == p;
      var t' := t[..i] + t[i + 1..];
      ProductWithout(t, i);
      CancelFactor(p, Product(s[1..]), Product(t'));
      UniqueFactorisation(s[1..], t');
      hide Product, IsPrime;
      SameWithOneMore(s, t, i);
    }
  }

  lemma SameWithOneMore(s: seq<int>, t: seq<int>, i: nat)
    requires s != [] && i < |t| && t[i] == s[0]
    requires multiset(s[1..]) == multiset(t[..i] + t[i + 1..])
    ensures multiset(s) == multiset(t)
  {
    assert s == [s[0]] + s[1..] && t == t[..i] + ([t[i]] + t[i + 1..]);
  }

  lemma CancelFactor(c: int, a: int, b: int)
    requires c != 0 && c * a == c * b
    ensures a == b
  {
    assert c * (a - b) == 0;
  }

  /** A divisor of p*n that the prime p does not divide is a divisor of n. */
  lemma CoprimeDivisor(p: Prime, d: int, n: int)
    requires d > 0 && !Divides(p, d) && Divides(d, p * n)
    ensures Divides(d, n)
  {
    CongZeroDivides(d, p);
    InvCorrect(d, p);
    var w := Inv(d, p);
    var t := CongDifference(d * w, 1, p);
    var k := DividesWitness(d, p * n);
    BezoutCombination(d, w, t, p, k, n);
    DividesByWitness(d, n, w * n - t * k);
  }

  lemma BezoutCombination(d: int, w: int, t: int, p: int, k: int, n: int)
    requires d * w == 1 + t * p && p * n == k * d
    ensures n == (w * n - t * k) * d
  {
    assert (d * w) * n == n + t * (p * n) by {
      assert (1 + t * p) * n == n + (t * p) * n;
      MulAssoc(t, p, n);
    }
    assert t * (k * d) == (t * k) * d;
    assert (d * w) * n == (w * n) * d;
    assert (w * n - t * k) * d == (w * n) * d - (t * k) * d;
  }

  lemma DivisorQuotient(p: int, d: int, n: int)
    requires p > 0 && Divides(p, d) && d > 0 && Divides(d, p * n)
    ensures d / p > 0 && d == p * (d / p) && Divides(d / p, n)
  {
    var e := DividesWitness(p, d);
    ModIsRemainder(d, p, e, 0);
    ScaleBound(e, p);
    var k := DividesWitness(d, p * n);
    assert k * (e * p) == p * (k * e);
    CancelFactor(p, n, k * e);
    DividesByWitness(e, n, k);
  }

  /** Every number from 2 on has a prime divisor. */
  lemma {:induction false} PrimeDivisor(n: int) returns (p: Prime)
    requires n >= 2
    ensures Divides(p, n)
    decreases n
  {
    if IsPrime(n) {
      p := n;
      DividesByWitness(n, n, 1);
    } else {
      var d :| 2 <= d < n && Divides(d, n);
      p := PrimeDivisor(d);
      DividesTransitive(p, d, n);
    }
  }

  /** A prime divides another prime only if it is that prime. */
  lemma PrimeDividesPrime(p: Prime, r: Prime)
    requires Divides(p, r)
    ensures p == r
  {
    DividesAtMost(p, r);
    assert IsPrime(r);
  }

  lemma PrimeDividesProduct(p: Prime, a: Prime, b: Prime)
    requires Divides(p, a * b)
    ensures p == a || p == b
  {
    CongZeroDivides(a * b, p);
    NoZeroDivisors(a, b, p);
    CongZeroDivides(a, p);
    CongZeroDivides(b, p);
    if Divides(p, a) {
      PrimeDividesPrime(p, a);
    } else {
      PrimeDividesPrime(p, b);
    }
  }

  lemma ProductDivides(a: int, b: int, e: int, n: int)
    requires a > 0 && b > 0 && n == e * a && Divides(b, e)
    ensures Divides(a * b, n)
  {
    var k := DividesWitness(b, e);
    assert n == k * (a * b);
    ScaleBound(a, b);
    DividesByWitness(a * b, n, k);
  }

  /** A number that no prime in s divides, and that divides their product times n,
      divides n. */
  lemma {:induction false} DividesRest(d: int, s: seq<int>, n: int)
    requires d > 0 && AllPrime(s) && Divides(d, Product(s) * n)
    requires forall p :: p in s ==> !Divides(p, d)
    ensures Divides(d, n)
  {
    if s == [] {
      assert 1 * n == n;
    } else {
      assert s[0] in s;
      MulAssoc(s[0], Product(s[1..]), n);
      CoprimeDivisor(s[0], d, Product(s[1..]) * n);
      DividesRest(d, s[1..], n);
    }
  }

  // ---- Lists with the same members -------------------------------------------------

  /** The order of the factors does not matter. */
  lemma {:induction false} SameProduct(s: seq<int>, t: seq<int>)
    requires multiset(s) == multiset(t)
    ensures Product(s) == Product(t)
  {
    if s == [] {
      assert |multiset(t)| == 0;
      assert t == [];
    } else {
      assert s[0] in multiset(s);
      var i :| 0 <= i < |t| && t[i] == s[0];
      ProductWithout(t, i);
      var t' := t[..i] + t[i + 1..];
      assert t == t[..i] + ([t[i]] + t[i + 1..]);
      assert s == [s[0]] + s[1..];
      assert multiset(s[1..]) == multiset(s) - multiset{s[0]};
      assert multiset(t') == multiset(t) - multiset{s[0]};
      SameProduct(s[1..], t');
    }
  }

  /** Different values that a list of their number holds are all of the list. */
  lemma {:induction false} HoldsEach(s: seq<int>, t: seq<int>)
    requires |s| == |t|
    requires forall i, j :: 0 <= i < j < |t| ==> t[i] != t[j]
    requires forall j :: 0 <= j < |t| ==> t[j] in s
    ensures multiset(s) == multiset(t)
  {
    if t != [] {
      var i :| 0 <= i < |s| && s[i] == t[0];
      var s' := s[..i] + s[i + 1..];
      forall j | 0 <= j < |t| - 1
        ensures t[1..][j] in s'
      {
        assert t[j + 1] in s && t[j + 1] != t[0];
        var n :| 0 <= n < |s| && s[n] == t[j + 1];
        assert s'[if n < i then n else n - 1] == s[n];
      }
      HoldsEach(s', t[1..]);
      assert s == s[..i] + ([s[i]] + s[i + 1..]);
      assert t == [t[0]] + t[1..];
    }
  }
}

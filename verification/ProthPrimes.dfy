/** Primes above and below the limit of trial division, proved prime by Proth's criterion. */
module ProthPrimes {
  import opened ModArith
  import opened Primes

  /** 5 * 2^25 + 1, beyond the limit of trial division. */
  const LARGE_PRIME := 167772161

  /** 1023 * 2^14 + 1 and 2043 * 2^13 + 1, just below 2^24. */
  const LAST_PRIME := 16760833
  const NEXT_PRIME := 16736257

  // ---- Fermat's little theorem --------------------------------------------------------

  /** The residues from 1 to n. */
  function Residues(n: nat): (s: seq<int>)
    ensures |s| == n
  {
    seq(n, (i: nat) => i + 1)
  }

  /** Their multiples by b, reduced. */
  function Multiples(b: int, n: nat, p: Prime): (s: seq<int>)
    ensures |s| == n
  {
    seq(n, (i: nat) => (b * (i + 1)) % p)
  }

  lemma {:induction false} ProductOfMultiples(b: int, n: nat, p: Prime)
    ensures Cong(Product(Multiples(b, n, p)), Pow(b, n) * Product(Residues(n)), p)
  {
    if n == 0 {
      assert Multiples(b, 0, p) == [] && Residues(0) == [];
    } else {
      ProductOfMultiples(b, n - 1, p);
      var m, r := Product(Multiples(b, n - 1, p)), Product(Residues(n - 1));
      assert Multiples(b, n, p) == Multiples(b, n - 1, p) + [(b * n) % p];
      assert Residues(n) == Residues(n - 1) + [n];
      ProductSnoc(Multiples(b, n - 1, p), (b * n) % p);
      ProductSnoc(Residues(n - 1), n);
      CongMod(b * n, p);
      CongMul(m, Pow(b, n - 1) * r, (b * n) % p, b * n, p);
      Regroup(Pow(b, n - 1), r, b, n);
    }
  }

  lemma Regroup(w: int, r: int, b: int, n: int)
    ensures (w * r) * (b * n) == (b * w) * (r * n)
  {
    assert (w * r) * (b * n) == w * (r * (b * n));
    assert r * (b * n) == b * (r * n);
    assert w * (b * (r * n)) == (b * w) * (r * n);
  }

  lemma {:induction false} ResiduesNotZero(n: nat, p: Prime)
    requires n < p
    ensures !Cong(Product(Residues(n)), 0, p)
  {
    ModIsRemainder(0, p, 0, 0);
    if n == 0 {
      assert Residues(0) == [];
      ModIsRemainder(1, p, 0, 1);
    } else {
      ResiduesNotZero(n - 1, p);
      assert Residues(n) == Residues(n - 1) + [n];
      ProductSnoc(Residues(n - 1), n);
      NoZeroDivisors(Product(Residues(n - 1)), n, p);
      ModIsRemainder(n, p, 0, n);
    }
  }

  /** Multiplication by b rearranges the residues. */
  lemma MultiplesAreResidues(b: int, p: Prime)
    requires !Cong(b, 0, p)
    ensures multiset(Multiples(b, p - 1, p)) == multiset(Residues(p - 1))
  {
    var s, t := Multiples(b, p - 1, p), Residues(p - 1);
    var w := Inv(b, p);
    InvCorrect(b, p);
    forall j | 0 <= j < |t|
      ensures t[j] in s
    {
      var r := j + 1;
      var i := (w * r) % p;
      ModIsRemainder(0, p, 0, 0);
      NoZeroDivisors(w, r, p);
      ModIsRemainder(r, p, 0, r);
      CongMod(w * r, p);
      CongMul(b, b, i, w * r, p);
      MulAssoc(b, w, r);
      CongMul(b * w, 1, r, r, p);
      if Cong(w, 0, p) {
        CongMul(b, b, w, 0, p);
        ModIsRemainder(1, p, 0, 1);
      }
      assert i != 0 && s[i - 1] == (b * i) % p == r;
    }
    HoldsEach(s, t);
  }

  /** Fermat's little theorem. */
  lemma FermatLittle(b: int, p: Prime)
    requires !Cong(b, 0, p)
    ensures Cong(Pow(b, p - 1), 1, p)
  {
    var r := Product(Residues(p - 1));
    MultiplesAreResidues(b, p);
    SameProduct(Multiples(b, p - 1, p), Residues(p - 1));
    ProductOfMultiples(b, p - 1, p);
    ResiduesNotZero(p - 1, p);
    MulComm(r, Pow(b, p - 1));
    assert r * 1 == r;
    CongCancel(r, Pow(b, p - 1), 1, p);
  }

  // ---- Proth's criterion ----------------------------------------------------------------

  /** b squared n times. */
  function Squared(b: int, n: nat): int {
    if n == 0 then b else Squared(b, n - 1) * Squared(b, n - 1)
  }

  lemma {:induction false} PowTwice(x: int, n: nat)
    ensures Pow(x * x, n) == Pow(x, n) * Pow(x, n)
  {
    if n > 0 {
      PowTwice(x, n - 1);
      var w := Pow(x, n - 1);
      assert (x * x) * (w * w) == (x * w) * (x * w);
    }
  }

  /** Squaring a power is taking the power of the square. */
  lemma {:induction false} PowOfSquared(b: int, t: nat, n: nat)
    ensures Pow(Squared(b, t), n) == Squared(Pow(b, n), t)
  {
    if t > 0 {
      PowOfSquared(b, t - 1, n);
      PowTwice(Squared(b, t - 1), n);
    }
  }

  lemma {:induction false} SquaredCong(a: int, b: int, t: nat, p: int)
    requires p > 0 && Cong(a, b, p)
    ensures Cong(Squared(a, t), Squared(b, t), p)
  {
    if t > 0 {
      SquaredCong(a, b, t - 1, p);
      CongMul(Squared(a, t - 1), Squared(b, t - 1), Squared(a, t - 1), Squared(b, t - 1), p);
    }
  }

  lemma {:induction false} SquaredMore(b: int, t: nat, u: nat)
    ensures Squared(Squared(b, t), u) == Squared(b, t + u)
  {
    if u > 0 {
      SquaredMore(b, t, u - 1);
    }
  }

  lemma {:induction false} SquaredOne(t: nat)
    ensures Squared(1, t) == 1
  {
    if t > 0 {
      SquaredOne(t - 1);
    }
  }

  /** n = 2^t * o, with o odd. */
  lemma {:induction false} OddPart(n: nat) returns (t: nat, o: nat)
    requires n > 0
    ensures n == Pow(2, t) * o && o % 2 == 1
  {
    if n % 2 == 1 {
      t, o := 0, n;
    } else {
      var u;
      u, o := OddPart(n / 2);
      t := u + 1;
      MulAssoc(2, Pow(2, u), o);
    }
  }

  lemma {:induction false} PowByTwo(b: int, t: nat, o: nat, n: nat)
    requires n == Pow(2, t) * o
    ensures Pow(b, n) == Squared(Pow(b, o), t)
    decreases t
  {
    if t == 0 {
      assert 1 * o == o;
    } else {
      MulAssoc(2, Pow(2, t - 1), o);
      PowByTwo(b, t - 1, o, n / 2);
      PowAdd(b, n / 2, n / 2);
    }
  }

  lemma {:induction false} OddPowerOfMinusOne(o: nat)
    ensures Pow(-1, o) == if o % 2 == 1 then -1 else 1
  {
    if o > 0 {
      OddPowerOfMinusOne(o - 1);
    }
  }

  /** If b squared m - 1 times is -1 modulo p, then p - 1 is a multiple of 2^m. */
  lemma OrderOfTwo(b: int, m: nat, p: Prime) returns (t: nat, o: nat)
    requires m >= 1 && p > 2 && !Cong(b, 0, p) && Cong(Squared(b, m - 1), -1, p)
    ensures p - 1 == Pow(2, t) * o && o % 2 == 1 && t >= m
  {
    t, o := OddPart(p - 1);
    if t < m {
      FermatLittle(b, p);
      PowByTwo(b, t, o, p - 1);
      SquaredCong(Squared(Pow(b, o), t), 1, m - 1 - t, p);
      SquaredMore(Pow(b, o), t, m - 1 - t);
      SquaredOne(m - 1 - t);
      PowOfSquared(b, m - 1, o);
      CongPow(Squared(b, m - 1), -1, o, p);
      OddPowerOfMinusOne(o);
      MinusOneIsNotOne(p);
    }
  }

  lemma MinusOneIsNotOne(p: int)
    requires p > 2
    ensures !Cong(-1, 1, p)
  {
    ModIsRemainder(-1, p, -1, p - 1);
    ModIsRemainder(1, p, 0, 1);
  }

  lemma TimesOdd(w: int, o: int)
    requires w >= 0 && o % 2 == 1 && w * o > 0
    ensures w * o >= w
  {
    ScaleBound(o, w + 1);
    assert o <= 0 ==> w * o <= 0;
    assert o >= 1 ==> w * o >= w * 1;
  }

  lemma CongDown(a: int, b: int, n: int, p: int)
    requires p > 0 && n > 0 && Divides(p, n) && Cong(a, b, n)
    ensures Cong(a, b, p)
  {
    var k := CongDifference(a, b, n);
    var l := DividesWitness(p, n);
    MulAssoc(k, l, p);
    CongByMultiple(a, b, k * l, p);
  }

  lemma {:induction false} SquaredZero(t: nat)
    ensures Squared(0, t) == 0
  {
    if t > 0 {
      SquaredZero(t - 1);
    }
  }

  /** A prime divisor of n does not divide a number whose squaring leads to -1 modulo n. */
  lemma NotInBase(n: int, b: int, t: nat, p: Prime)
    requires n > 0 && Divides(p, n) && Cong(Squared(b, t), -1, n)
    ensures !Cong(b, 0, p) && Cong(Squared(b, t), -1, p)
  {
    CongDown(Squared(b, t), -1, n, p);
    if Cong(b, 0, p) {
      SquaredCong(b, 0, t, p);
      SquaredZero(t);
      ModIsRemainder(-1, p, -1, p - 1);
      ModIsRemainder(0, p, 0, 0);
    }
  }

  lemma OddDivisor(n: int, p: Prime)
    requires n % 2 == 1 && Divides(p, n)
    ensures p > 2
  {
    if p == 2 {
      var k := DividesWitness(2, n);
    }
  }

  /** Every divisor of such an odd n, from 2 on, is beyond 2^m. */
  lemma NoSmallDivisor(n: int, b: int, m: nat, d: int)
    requires n > 0 && n % 2 == 1 && m >= 1 && Cong(Squared(b, m - 1), -1, n)
    requires d >= 2 && Divides(d, n)
    ensures d > Pow(2, m)
  {
    hide Squared;
    var p := PrimeDivisor(d);
    DividesTransitive(p, d, n);
    DividesAtMost(p, d);
    OddDivisor(n, p);
    NotInBase(n, b, m - 1, p);
    var t, o := OrderOfTwo(b, m, p);
    PowerOrder(t, m);
    TimesOdd(Pow(2, t), o);
  }

  lemma BeyondProduct(a: int, b: int, w: int)
    requires a > w >= 1 && b > w
    ensures a * b > w * w
  {
    assert a * b > w * b;
    assert w * b > w * w;
  }

  lemma NoTwoDivisors(n: int, b: int, m: nat, d: int, e: int)
    requires n > 0 && n % 2 == 1 && m >= 1 && Cong(Squared(b, m - 1), -1, n) && n < Pow(2, m) * Pow(2, m)
    requires d >= 2 && n == e * d
    ensures e == 1
  {
    hide IsPrime, Squared, Pow;
    ScaleBound(e, d);
    if e >= 2 {
      DividesByWitness(d, n, e);
      MulComm(e, d);
      DividesByWitness(e, n, d);
      NoSmallDivisor(n, b, m, d);
      NoSmallDivisor(n, b, m, e);
      PowerOrder(m, m);
      BeyondProduct(e, d, Pow(2, m));
    }
  }

  /** Proth's criterion: an odd number below 2^(2m) is prime if -1 arises modulo it from
      squaring some number m - 1 times. */
  lemma ProthIsPrime(n: int, b: int, m: nat)
    requires n > 1 && n % 2 == 1 && m >= 1 && Cong(Squared(b, m - 1), -1, n) && n < Pow(2, m) * Pow(2, m)
    ensures IsPrime(n)
  {
    hide Squared, Pow;
    forall d | 2 <= d < n
      ensures !Divides(d, n)
    {
      if Divides(d, n) {
        var e := DividesWitness(d, n);
        NoTwoDivisors(n, b, m, d, e);
      }
    }
  }

  // ---- The primes --------------------------------------------------------------------------

  /** One squaring of b modulo n. */
  lemma SquareOnce(b: int, n: int, i: nat, y: int, k: int, y': int)
    requires n > 0 && Cong(Squared(b, i), y, n) && y * y == k * n + y'
    ensures Cong(Squared(b, i + 1), y', n)
  {
    CongMul(Squared(b, i), y, Squared(b, i), y, n);
    CongByMultiple(y * y, y', k, n);
  }

  lemma NotSquared(b: int, n: int)
    requires n > 0
    ensures Cong(Squared(b, 0), b, n)
  {
  }

  lemma MinusOne(v: int, n: int)
    requires n > 0 && Cong(v, n - 1, n)
    ensures Cong(v, -1, n)
  {
    CongByMultiple(n - 1, -1, 1, n);
  }

  lemma LargePrimeIsPrime()
    ensures IsPrime(LARGE_PRIME)
  {
    hide Squared, Cong, IsPrime, Pow;
    var n := LARGE_PRIME;
    NotSquared(243, n);
    SquareOnce(243, n, 0, 243, 0, 59049);
    SquareOnce(243, n, 1, 59049, 20, 131341181);
    SquareOnce(243, n, 2, 131341181, 102821026, 98217575);
    SquareOnce(243, n, 3, 98217575, 57498764, 147771621);
    SquareOnce(243, n, 4, 147771621, 130155395, 88009046);
    SquareOnce(243, n, 5, 88009046, 46167326, 127218630);
    SquareOnce(243, n, 6, 127218630, 96467612, 87327368);
    SquareOnce(243, n, 7, 87327368, 45454914, 51958270);
    SquareOnce(243, n, 8, 51958270, 16091238, 48967582);
    SquareOnce(243, n, 9, 48967582, 14292145, 34951379);
    SquareOnce(243, n, 10, 34951379, 7281296, 129200985);
    SquareOnce(243, n, 11, 129200985, 99497404, 42000181);
    SquareOnce(243, n, 12, 42000181, 10514349, 150794572);
    SquareOnce(243, n, 13, 150794572, 135535018, 83629286);
    SquareOnce(243, n, 14, 83629286, 41686638, 134785078);
    SquareOnce(243, n, 15, 134785078, 108283860, 57844624);
    SquareOnce(243, n, 16, 57844624, 19943717, 26238939);
    SquareOnce(243, n, 17, 26238939, 4103672, 370529);
    SquareOnce(243, n, 18, 370529, 818, 54112143);
    SquareOnce(243, n, 19, 54112143, 17452979, 17334830);
    SquareOnce(243, n, 20, 17334830, 1791097, 116878283);
    SquareOnce(243, n, 21, 116878283, 81423121, 71493608);
    SquareOnce(243, n, 22, 71493608, 30465936, 65249968);
    SquareOnce(243, n, 23, 65249968, 25377024, 167772160);
    MinusOne(Squared(243, 24), n);
    PowersOfTwo();
    ProthIsPrime(n, 243, 25);
  }

  lemma LastPrimeIsPrime()
    ensures IsPrime(LAST_PRIME)
  {
    hide Squared, Cong, IsPrime, Pow;
    var n := LAST_PRIME;
    NotSquared(13290827, n);
    SquareOnce(13290827, n, 0, 13290827, 10539218, 9495335);
    SquareOnce(13290827, n, 1, 9495335, 5379290, 5413655);
    SquareOnce(13290827, n, 2, 5413655, 1748580, 3091885);
    SquareOnce(13290827, n, 3, 3091885, 570362, 10621679);
    SquareOnce(13290827, n, 4, 10621679, 6731172, 14992765);
    SquareOnce(13290827, n, 5, 14992765, 13411207, 1489794);
    SquareOnce(13290827, n, 6, 1489794, 132420, 16656576);
    SquareOnce(13290827, n, 7, 16656576, 16552967, 8502265);
    SquareOnce(13290827, n, 8, 8502265, 4312942, 9529539);
    SquareOnce(13290827, n, 9, 9529539, 5418114, 9623559);
    SquareOnce(13290827, n, 10, 9623559, 5525553, 16760832);
    MinusOne(Squared(13290827, 11), n);
    PowersOfTwo();
    ProthIsPrime(n, 13290827, 12);
  }

  lemma NextPrimeIsPrime()
    ensures IsPrime(NEXT_PRIME)
  {
    hide Squared, Cong, IsPrime, Pow;
    var n := NEXT_PRIME;
    NotSquared(8043402, n);
    SquareOnce(8043402, n, 0, 8043402, 3865638, 4696638);
    SquareOnce(8043402, n, 1, 4696638, 1318001, 5040787);
    SquareOnce(8043402, n, 2, 5040787, 1518232, 12641745);
    SquareOnce(8043402, n, 3, 12641745, 9548952, 1892361);
    SquareOnce(8043402, n, 4, 1892361, 213968, 6716545);
    SquareOnce(8043402, n, 5, 6716545, 2695463, 15235034);
    SquareOnce(8043402, n, 6, 15235034, 13868468, 16336880);
    SquareOnce(8043402, n, 7, 16336880, 15947033, 5458919);
    SquareOnce(8043402, n, 8, 5458919, 1780553, 4038440);
    SquareOnce(8043402, n, 9, 4038440, 974471, 538553);
    SquareOnce(8043402, n, 10, 538553, 17329, 16736256);
    MinusOne(Squared(8043402, 11), n);
    PowersOfTwo();
    ProthIsPrime(n, 8043402, 12);
  }

  lemma PowersOfTwo()
    ensures Pow(2, 12) == 4096 && Pow(2, 25) == 33554432
  {
    PowAdd(2, 2, 10);
    PowAdd(2, 5, 5);
    PowAdd(2, 10, 10);
    PowAdd(2, 5, 20);
    assert Pow(2, 1) == 2 && Pow(2, 2) == 4 && Pow(2, 3) == 8 && Pow(2, 4) == 16 && Pow(2, 5) == 32;
  }
}

/** Arithmetic modulo a prime: congruence, primality, Bezout coefficients and
    modular inverses, powers and finite products. */
module ModArith {

  /** d is positive and divides n. */
  predicate Divides(d: int, n: int) {
    d > 0 && n % d == 0
  }

  predicate IsPrime(p: int) {
    p >= 2 && forall d :: 2 <= d < p ==> !Divides(d, p)
  }

  type Prime = p: int | p >= 2 && IsPrime(p) ghost witness 2

  /** a and b are congruent modulo q. */
  predicate Cong(a: int, b: int, q: int)
    requires q > 0
  {
    a % q == b % q
  }

  lemma MulAssoc(a: int, b: int, c: int)
    ensures (a * b) * c == a * (b * c)
  {
  }

  lemma MulComm(a: int, b: int)
    ensures a * b == b * a
  {
  }

  // ---- Congruence -------------------------------------------------------

  lemma ScaleBound(d: int, q: int)
    requires q > 0
    ensures d >= 1 ==> d * q >= q
    ensures d <= 0 ==> d * q <= 0
    ensures d <= -1 ==> d * q <= -q
  {
  }

  lemma ModIsRemainder(x: int, q: int, k: int, r: int)
    requires q > 0 && x == k * q + r && 0 <= r < q
    ensures x % q == r && x / q == k
  {
    var d := x / q - k;
    assert x == (x / q) * q + x % q;
    assert d * q == (x / q) * q - k * q;
    ScaleBound(d, q);
  }

  lemma CongByMultiple(a: int, b: int, k: int, q: int)
    requires q > 0 && a == b + k * q
    ensures Cong(a, b, q)
  {
    assert b == (b / q) * q + b % q;
    assert a == (b / q + k) * q + b % q;
    ModIsRemainder(a, q, b / q + k, b % q);
  }

  lemma CongDifference(a: int, b: int, q: int) returns (k: int)
    requires q > 0 && Cong(a, b, q)
    ensures a == b + k * q
  {
    k := a / q - b / q;
    assert a == (a / q) * q + a % q && b == (b / q) * q + b % q;
    assert k * q == (a / q) * q - (b / q) * q;
  }

  lemma CongMod(a: int, q: int)
    requires q > 0
    ensures Cong(a % q, a, q)
  {
    CongByMultiple(a, a % q, a / q, q);
  }

  lemma CongAdd(a: int, a': int, b: int, b': int, q: int)
    requires q > 0 && Cong(a, a', q) && Cong(b, b', q)
    ensures Cong(a + b, a' + b', q)
  {
    var k := CongDifference(a, a', q);
    var l := CongDifference(b, b', q);
    assert (k + l) * q == k * q + l * q;
    CongByMultiple(a + b, a' + b', k + l, q);
  }

  lemma CongSub(a: int, a': int, b: int, b': int, q: int)
    requires q > 0 && Cong(a, a', q) && Cong(b, b', q)
    ensures Cong(a - b, a' - b', q)
  {
    var k := CongDifference(a, a', q);
    var l := CongDifference(b, b', q);
    assert (k - l) * q == k * q - l * q;
    CongByMultiple(a - b, a' - b', k - l, q);
  }

  lemma ScaledDifference(c: int, k: int, q: int, b: int)
    ensures (c + k * q) * b == c * b + (k * b) * q
  {
    MulAssoc(k, q, b);
    MulComm(q, b);
    MulAssoc(k, b, q);
    var kq := k * q;
    assert (c + kq) * b == c * b + kq * b;
  }

  lemma CongMul(a: int, a': int, b: int, b': int, q: int)
    requires q > 0 && Cong(a, a', q) && Cong(b, b', q)
    ensures Cong(a * b, a' * b', q)
  {
    var k := CongDifference(a, a', q);
    var l := CongDifference(b, b', q);
    ScaledDifference(a', k, q, b);
    CongByMultiple(a * b, a' * b, k * b, q);
    ScaledDifference(b', l, q, a');
    MulComm(a', b);
    MulComm(a', b');
    MulComm(a', l);
    CongByMultiple(a' * b, a' * b', a' * l, q);
  }

  lemma SmallCongEqual(a: int, b: int, q: int)
    requires q > 0 && Cong(a, b, q) && 0 <= a < q && 0 <= b < q
    ensures a == b
  {
    ModIsRemainder(a, q, 0, a);
    ModIsRemainder(b, q, 0, b);
  }

  lemma CongZeroDivides(a: int, q: int)
    requires q > 0
    ensures Cong(a, 0, q) <==> Divides(q, a)
  {
    ModIsRemainder(0, q, 0, 0);
  }

  lemma DividesWitness(d: int, n: int) returns (k: int)
    requires Divides(d, n)
    ensures n == k * d
  {
    k := n / d;
    assert n == (n / d) * d + n % d;
  }

  lemma DividesByWitness(d: int, n: int, k: int)
    requires d > 0 && n == k * d
    ensures Divides(d, n)
  {
    ModIsRemainder(n, d, k, 0);
  }

  // ---- Bezout and inverses ----------------------------------------------

  /** Coefficients (g, x, y) of Bezout's identity for a and b: the extended
      Euclidean algorithm behind a modular inverse. */
  function Bezout(a: int, b: int): (r: (int, int, int))
    requires a >= 0 && b >= 0
    decreases b
  {
    if b == 0 then (a, 1, 0)
    else
      var (g, x, y) := Bezout(b, a % b);
      (g, y, x - (a / b) * y)
  }

  lemma {:induction false} BezoutIdentity(a: int, b: int)
    requires a >= 0 && b >= 0
    ensures var (g, x, y) := Bezout(a, b); g == a * x + b * y && g >= 0
    decreases b
  {
    if b == 0 {
      assert Bezout(a, b) == (a, 1, 0);
    } else {
      var (g, x, y) := Bezout(b, a % b);
      BezoutIdentity(b, a % b);
      BezoutStep(a, b, a / b, a % b, x, y);
    }
  }

  lemma BezoutStep(a: int, b: int, t: int, r: int, x: int, y: int)
    requires a == t * b + r
    ensures b * x + r * y == a * y + b * (x - t * y)
  {
    assert r * y == a * y - (t * b) * y;
    assert (t * b) * y == b * (t * y);
    assert b * (x - t * y) == b * x - b * (t * y);
  }

  lemma {:induction false} BezoutDivides(a: int, b: int)
    requires a >= 0 && b >= 0 && (a > 0 || b > 0)
    ensures Divides(Bezout(a, b).0, a) && Divides(Bezout(a, b).0, b)
    decreases b
  {
    if b == 0 {
      DividesByWitness(a, a, 1);
      DividesByWitness(a, 0, 0);
    } else {
      var g := Bezout(b, a % b).0;
      BezoutDivides(b, a % b);
      var k := DividesWitness(g, b);
      var l := DividesWitness(g, a % b);
      assert a == (a / b) * b + a % b;
      DividesCombination(g, a / b, b, k, a % b, l);
    }
  }

  lemma DividesCombination(g: int, t: int, b: int, k: int, r: int, l: int)
    requires g > 0 && b == k * g && r == l * g
    ensures Divides(g, t * b + r)
  {
    assert t * (k * g) == (t * k) * g;
    assert (t * k + l) * g == (t * k) * g + l * g;
    DividesByWitness(g, t * b + r, t * k + l);
  }

  /** pow(v, -1, q): None where the original raises because v has no inverse. */
  function ModInverse(v: int, q: int): (r: Option<int>)
    requires q >= 2
  {
    var (g, x, y) := Bezout(v % q, q);
    if g == 1 then Some(x % q) else None
  }

  datatype Option<T> = None | Some(value: T)

  /** For a prime modulus an inverse exists exactly off the multiples of q. */
  lemma ModInverseCorrect(v: int, q: Prime)
    ensures ModInverse(v, q).Some? <==> !Cong(v, 0, q)
    ensures ModInverse(v, q).Some? ==>
              var w := ModInverse(v, q).value; 0 <= w < q && Cong(v * w, 1, q)
  {
    var a := v % q;
    var (g, x, y) := Bezout(a, q);
    BezoutIdentity(a, q);
    GcdWithPrime(a, q);
    ModIsRemainder(0, q, 0, 0);
    if g == 1 {
      CongByMultiple(a * x, 1, -y, q);
      CongMod(v, q);
      CongMod(x, q);
      CongMul(v, a, x % q, x, q);
    }
  }

  lemma GcdWithPrime(a: int, q: Prime)
    requires 0 <= a < q
    ensures Bezout(a, q).0 == 1 <==> a != 0
  {
    var g := Bezout(a, q).0;
    BezoutDivides(a, q);
    DividesAtMost(g, q);
    if a == 0 {
      assert Bezout(0, q).0 == Bezout(q, 0).0 == q by { ModIsRemainder(0, q, 0, 0); }
    } else {
      DividesAtMost(g, a);
      assert IsPrime(q);
    }
  }

  lemma DividesAtMost(d: int, n: int)
    requires Divides(d, n) && n > 0
    ensures 1 <= d <= n
  {
    var k := DividesWitness(d, n);
    ScaleBound(k, d);
  }

  /** The inverse as a total function, for use where v is not a multiple of q. */
  function Inv(v: int, q: Prime): (w: int)
  {
    var o := ModInverse(v, q);
    if o.Some? then o.value else 0
  }

  lemma InvCorrect(v: int, q: Prime)
    requires !Cong(v, 0, q)
    ensures 0 <= Inv(v, q) < q && Cong(v * Inv(v, q), 1, q)
  {
    ModInverseCorrect(v, q);
  }

  lemma CongCancel(c: int, a: int, b: int, q: Prime)
    requires !Cong(c, 0, q) && Cong(c * a, c * b, q)
    ensures Cong(a, b, q)
  {
    var w := Inv(c, q);
    InvCorrect(c, q);
    CongMul(w, w, c * a, c * b, q);
    assert w * (c * a) == (c * w) * a && w * (c * b) == (c * w) * b;
    CongMul(c * w, 1, a, a, q);
    CongMul(c * w, 1, b, b, q);
  }

  /** Euclid's lemma: a prime modulus has no zero divisors. */
  lemma NoZeroDivisors(a: int, b: int, q: Prime)
    ensures Cong(a * b, 0, q) <==> Cong(a, 0, q) || Cong(b, 0, q)
  {
    if Cong(a, 0, q) {
      CongMul(a, 0, b, b, q);
    } else if Cong(b, 0, q) {
      CongMul(a, a, b, 0, q);
    } else if Cong(a * b, 0, q) {
      assert a * 0 == 0;
      CongCancel(a, b, 0, q);
    }
  }

  // ---- Powers and products ----------------------------------------------

  function Pow(x: int, n: nat): int {
    if n == 0 then 1 else x * Pow(x, n - 1)
  }

  lemma PowerOrder(t: nat, m: nat)
    requires t >= m
    ensures Pow(2, t) >= Pow(2, m) >= 1
    decreases t
  {
    if t > m {
      PowerOrder(t - 1, m);
    } else if m > 0 {
      PowerOrder(t - 1, m - 1);
    }
  }

  lemma {:induction false} PowAdd(x: int, a: nat, b: nat)
    ensures Pow(x, a + b) == Pow(x, a) * Pow(x, b)
  {
    if a > 0 {
      PowAdd(x, a - 1, b);
      MulAssoc(x, Pow(x, a - 1), Pow(x, b));
    }
  }

  lemma {:induction false} CongPow(a: int, b: int, n: nat, q: int)
    requires q > 0 && Cong(a, b, q)
    ensures Cong(Pow(a, n), Pow(b, n), q)
  {
    if n > 0 {
      CongPow(a, b, n - 1, q);
      CongMul(a, b, Pow(a, n - 1), Pow(b, n - 1), q);
    }
  }

  /** The product of a sequence of numbers. */
  function Product(s: seq<int>): int {
    if s == [] then 1 else s[0] * Product(s[1..])
  }

  lemma {:induction false} ProductAppend(s: seq<int>, t: seq<int>)
    ensures Product(s + t) == Product(s) * Product(t)
  {
    if s == [] {
      assert s + t == t;
    } else {
      assert (s + t)[1..] == s[1..] + t;
      ProductAppend(s[1..], t);
      assert s[0] * (Product(s[1..]) * Product(t)) == s[0] * Product(s[1..]) * Product(t);
    }
  }

  lemma ProductSnoc(s: seq<int>, n: int)
    ensures Product(s + [n]) == Product(s) * n
  {
    ProductAppend(s, [n]);
    assert [n][1..] == [];
    assert Product([n]) == n * 1;
  }
}

/** Shamir's secret sharing: splitting a secret, recovering it from shares, and
    recovering a curve point from shares of its discrete logarithm. */
module Shamir {
  import opened ModArith
  import opened Polynomial
  import opened Lagrange

  datatype Share = Share(x: int, y: int)

  function Abscissas(shares: seq<Share>): (xs: seq<int>)
    ensures |xs| == |shares| && forall i :: 0 <= i < |xs| ==> xs[i] == shares[i].x
  {
    seq(|shares|, i requires 0 <= i < |shares| => shares[i].x)
  }

  /** No two different abscissas are congruent, so no inversion raises. Equal
      abscissas are skipped, not inverted. */
  ghost predicate Invertible(xs: seq<int>, q: Prime) {
    forall x, x' :: x in xs && x' in xs && x != x' ==> !Cong(x, x', q)
  }

  /** The combination of the shares, not reduced. */
  function Combination(xs: seq<int>, shares: seq<Share>, q: Prime): int {
    if shares == [] then 0
    else shares[0].y * Weight(xs, shares[0].x, q) + Combination(xs, shares[1..], q)
  }

  /** What recovery returns: None where a modular inversion raises. */
  ghost function Recover(shares: seq<Share>, q: Prime): Option<int> {
    if Invertible(Abscissas(shares), q)
    then Some(Combination(Abscissas(shares), shares, q) % q)
    else None
  }

  lemma RecoveredInRange(shares: seq<Share>, q: Prime)
    ensures Recover(shares, q).Some? ==> 0 <= Recover(shares, q).value < q
  {
  }

  // ---- Recovery -------------------------------------------------------------

  method SssRecover(shares: seq<Share>, q: Prime) returns (r: Option<int>)
    ensures r == Recover(shares, q)
  {
    var value := 0;
    ghost var xs := Abscissas(shares);
    var i := 0;
    assert shares[..0] == [] && shares[0..] == shares;
    while i < |shares|
      invariant 0 <= i <= |shares|
      invariant 0 <= value < q
      invariant Cong(value + Combination(xs, shares[i..], q), Combination(xs, shares, q), q)
      invariant forall n :: 0 <= n < i ==> InvertibleAt(xs, n, q)
    {
      var term := TermOf(shares, i, q);
      TermInvertible(shares, i, q);
      if term.None? {
        return None;
      }
      AccumulateTerm(xs, shares, i, value, term.value, q);
      value := (value + term.value) % q;
      i := i + 1;
    }
    assert shares[i..] == [];
    AllInvertible(xs, q);
    ModIsRemainder(value, q, 0, value);
    return Some(value);
  }

  /** The inner loop of the recovery: y_i times its weight, reduced. */
  method TermOf(shares: seq<Share>, i: nat, q: Prime) returns (t: Option<int>)
    requires i < |shares|
    ensures t.None? <==>
              exists j :: 0 <= j < |shares| && shares[j].x != shares[i].x && Cong(shares[j].x, shares[i].x, q)
    ensures t.Some? ==>
              Cong(t.value, shares[i].y * Weight(Abscissas(shares), shares[i].x, q), q)
  {
    var term := shares[i].y;
    var xi := shares[i].x;
    ghost var xs := Abscissas(shares);
    var j := 0;
    assert xs[0..] == xs;
    while j < |shares|
      invariant 0 <= j <= |shares|
      invariant Cong(term * Weight(xs[j..], xi, q), shares[i].y * Weight(xs, xi, q), q)
      invariant forall n :: 0 <= n < j && shares[n].x != xi ==> !Cong(shares[n].x, xi, q)
    {
      var xj := shares[j].x;
      assert xs[j..][0] == xj && xs[j..][1..] == xs[j + 1..];
      if xi != xj {
        var inv := ModInverse(xj - xi, q);
        ModInverseCorrect(xj - xi, q);
        DifferenceCong(xj, xi, q);
        if inv.None? {
          return None;
        }
        MultiplyIn(term, xj, inv.value, Weight(xs[j + 1..], xi, q), q);
        term := (term * xj * inv.value) % q;
      }
      j := j + 1;
    }
    assert xs[j..] == [];
    assert term * 1 == term;
    return Some(term);
  }

  ghost predicate InvertibleAt(xs: seq<int>, n: nat, q: Prime)
    requires n < |xs|
  {
    forall x :: x in xs && x != xs[n] ==> !Cong(xs[n], x, q)
  }

  lemma AllInvertible(xs: seq<int>, q: Prime)
    requires forall n :: 0 <= n < |xs| ==> InvertibleAt(xs, n, q)
    ensures Invertible(xs, q)
  {
    forall x, x' | x in xs && x' in xs && x != x'
      ensures !Cong(x, x', q)
    {
      var n :| 0 <= n < |xs| && xs[n] == x;
      assert InvertibleAt(xs, n, q);
    }
  }

  /** The term of share i exists just when its abscissa clashes with no other. */
  lemma TermInvertible(shares: seq<Share>, i: nat, q: Prime)
    requires i < |shares|
    ensures var clash := exists j ::
                0 <= j < |shares| && shares[j].x != shares[i].x && Cong(shares[j].x, shares[i].x, q);
            if clash then !Invertible(Abscissas(shares), q) else InvertibleAt(Abscissas(shares), i, q)
  {
    var xs := Abscissas(shares);
    if j :| 0 <= j < |shares| && shares[j].x != shares[i].x && Cong(shares[j].x, shares[i].x, q) {
      assert xs[j] in xs && xs[i] in xs;
    } else {
      forall x | x in xs && x != xs[i]
        ensures !Cong(xs[i], x, q)
      {
        var j :| 0 <= j < |xs| && xs[j] == x;
        assert shares[j].x == x;
      }
    }
  }

  lemma DifferenceCong(a: int, b: int, q: Prime)
    ensures Cong(a - b, 0, q) <==> Cong(a, b, q)
  {
    if Cong(a, b, q) {
      CongSub(a, b, b, b, q);
    } else {
      NotCongDifference(a, b, q);
    }
  }

  lemma MultiplyIn(term: int, x: int, inv: int, w: int, q: Prime)
    ensures Cong(((term * x * inv) % q) * w, term * (x * inv * w), q)
  {
    CongMod(term * x * inv, q);
    CongMul((term * x * inv) % q, term * x * inv, w, w, q);
    MulAssoc(term, x, inv);
    MulAssoc(term, x * inv, w);
  }

  lemma AccumulateTerm(xs: seq<int>, shares: seq<Share>, i: nat, value: int, term: int, q: Prime)
    requires i < |shares|
    requires Cong(value + Combination(xs, shares[i..], q), Combination(xs, shares, q), q)
    requires Cong(term, shares[i].y * Weight(xs, shares[i].x, q), q)
    ensures Cong((value + term) % q + Combination(xs, shares[i + 1..], q), Combination(xs, shares, q), q)
  {
    var rest := Combination(xs, shares[i + 1..], q);
    var t := shares[i].y * Weight(xs, shares[i].x, q);
    assert shares[i..][0] == shares[i] && shares[i..][1..] == shares[i + 1..];
    CongMod(value + term, q);
    CongAdd(value, value, term, t, q);
    CongAdd((value + term) % q, value + t, rest, rest, q);
  }

  lemma CombinationIsWeightedSum(all: seq<int>, shares: seq<Share>, f: int -> int, q: Prime)
    requires forall i :: 0 <= i < |shares| ==> Cong(shares[i].y, f(shares[i].x), q)
    ensures Cong(Combination(all, shares, q), WeightedSum(all, Abscissas(shares), f, q), q)
  {
    if shares != [] {
      var x, y := shares[0].x, shares[0].y;
      var w := Weight(all, x, q);
      assert Abscissas(shares)[1..] == Abscissas(shares[1..]);
      CombinationIsWeightedSum(all, shares[1..], f, q);
      CongMul(y, f(x), w, w, q);
      CongAdd(y * w, f(x) * w, Combination(all, shares[1..], q),
        WeightedSum(all, Abscissas(shares[1..]), f, q), q);
    }
  }

  /** The shares are points of the polynomial c, modulo q. */
  ghost predicate SharesOf(shares: seq<Share>, c: Poly, q: Prime) {
    forall i :: 0 <= i < |shares| ==> Cong(shares[i].y, Eval(c, shares[i].x), q)
  }

  /** Any shares of a polynomial, in any order, give back its value at 0 as soon as
      they are at least as many as its coefficients. */
  lemma RecoverExact(shares: seq<Share>, c: Poly, q: Prime)
    requires Distinct(Abscissas(shares), q) && |c| <= |shares|
    requires SharesOf(shares, c, q)
    ensures Recover(shares, q) == Some(Eval(c, 0) % q)
  {
    var xs := Abscissas(shares);
    DistinctInvertible(xs, q);
    CombinationIsWeightedSum(xs, shares, x => Eval(c, x), q);
    InterpolationExact(xs, c, q);
  }

  lemma DistinctInvertible(xs: seq<int>, q: Prime)
    requires Distinct(xs, q)
    ensures Invertible(xs, q)
  {
    forall x, x' | x in xs && x' in xs && x != x'
      ensures !Cong(x, x', q)
    {
      var i :| 0 <= i < |xs| && xs[i] == x;
      var j :| 0 <= j < |xs| && xs[j] == x';
      if i < j { assert !Cong(xs[i], xs[j], q); } else { assert !Cong(xs[j], xs[i], q); }
    }
  }

  // ---- Points ---------------------------------------------------------------

  /** A point of the group generated by G, given by its discrete logarithm. */
  datatype Point = Point(log: int)

  const IDENTITY := Point(0)

  function PointAdd(p: Point, r: Point, q: Prime): Point {
    Point((p.log + r.log) % q)
  }

  /** Scalar multiplication. */
  function Times(k: int, p: Point, q: Prime): Point {
    Point((k * p.log) % q)
  }

  function G(q: Prime): Point {
    Point(1 % q)
  }

  datatype PointShare = PointShare(x: int, pt: Point)

  /** The shares of the logarithms behind point shares. */
  function Logs(shares: seq<PointShare>): (s: seq<Share>)
    ensures |s| == |shares|
    ensures forall i :: 0 <= i < |s| ==> s[i] == Share(shares[i].x, shares[i].pt.log)
  {
    seq(|shares|, i requires 0 <= i < |shares| => Share(shares[i].x, shares[i].pt.log))
  }

  /** Interpolation in the exponent: combining the points is recovering the
      logarithm and multiplying the generator by it. */
  method SssRecoverPoint(shares: seq<PointShare>, q: Prime) returns (r: Option<Point>)
    ensures r == match Recover(Logs(shares), q)
                 case None => None
                 case Some(v) => Some(Times(v, G(q), q))
  {
    hide Weight, Times, PointAdd, G, InvertibleAt, Invertible;
    var point := IDENTITY;
    ghost var logs := Logs(shares);
    ghost var xs := Abscissas(logs);
    var i := 0;
    assert logs[0..] == logs;
    while i < |shares|
      invariant 0 <= i <= |shares|
      invariant 0 <= point.log < q
      invariant Cong(point.log + Combination(xs, logs[i..], q), Combination(xs, logs, q), q)
      invariant forall n :: 0 <= n < i ==> InvertibleAt(xs, n, q)
    {
      var coefs := seq(|shares|, n requires 0 <= n < |shares| => Share(shares[n].x, 1));
      var term := TermOf(coefs, i, q);
      assert Abscissas(coefs) == xs;
      TermInvertible(coefs, i, q);
      if term.None? {
        return None;
      }
      assert coefs[i].y == 1;
      AccumulatePoint(xs, logs, i, point, term.value, q);
      point := PointAdd(point, Times(term.value, shares[i].pt, q), q);
      i := i + 1;
    }
    assert logs[i..] == [];
    AllInvertible(xs, q);
    PointIsMultiple(point, Combination(xs, logs, q), q);
    return Some(point);
  }

  lemma PointIsMultiple(point: Point, v: int, q: Prime)
    requires 0 <= point.log < q && Cong(point.log, v, q)
    ensures point == Times(v % q, G(q), q)
  {
    TimesGenerator(v % q, q);
    CongMod(v, q);
    ModIsRemainder(point.log, q, 0, point.log);
  }

  lemma AccumulatePoint(xs: seq<int>, logs: seq<Share>, i: nat, point: Point, t: int, q: Prime)
    requires i < |logs|
    requires Cong(point.log + Combination(xs, logs[i..], q), Combination(xs, logs, q), q)
    requires Cong(t, 1 * Weight(xs, logs[i].x, q), q)
    ensures var next := PointAdd(point, Times(t, Point(logs[i].y), q), q);
            0 <= next.log < q && Cong(next.log + Combination(xs, logs[i + 1..], q), Combination(xs, logs, q), q)
  {
    ScaleTerm(t, logs[i].y, Weight(xs, logs[i].x, q), q);
    AccumulateTerm(xs, logs, i, point.log, Times(t, Point(logs[i].y), q).log, q);
  }

  lemma ScaleTerm(t: int, l: int, w: int, q: Prime)
    requires Cong(t, 1 * w, q)
    ensures Cong((t * l) % q, l * w, q)
  {
    CongMod(t * l, q);
    CongMul(t, w, l, l, q);
    MulComm(w, l);
  }

  lemma TimesGenerator(k: int, q: Prime)
    ensures Times(k, G(q), q) == Point(k % q)
  {
    ModIsRemainder(1, q, 0, 1);
    assert k * 1 == k;
  }

  // ---- Splitting ------------------------------------------------------------

  /** The inner loop shared by splitting and by the random generators: the value
      at x of the polynomial with coefficients c, on top of a start value whose
      power is one below the first of c. */
  method EvalLoop(start: int, c: Poly, first: nat, x: int, q: Prime) returns (value: int)
    ensures c == [] ==> value == start
    ensures c != [] ==> 0 <= value < q
    ensures Cong(value, start + Pow(x, first) * Eval(c, x), q)
  {
    hide Pow, Eval, Cong;
    value := start;
    var i := 0;
    EvalLoopStarts(start, c, first, x, q);
    while i < |c|
      invariant 0 <= i <= |c|
      invariant if i == 0 then value == start else 0 <= value < q
      invariant Cong(value, start + Pow(x, first) * Eval(c[..i], x), q)
    {
      EvalLoopStep(start, c, first, i, x, value, q);
      value := (value + c[i] * (Pow(x, first + i) % q)) % q;
      i := i + 1;
    }
    assert c[..i] == c;
  }

  lemma EvalLoopStarts(start: int, c: Poly, first: nat, x: int, q: Prime)
    ensures Cong(start, start + Pow(x, first) * Eval(c[..0], x), q)
  {
    hide Pow;
    var p, e := Pow(x, first), Eval(c[..0], x);
    assert e == 0;
    assert p * e == 0;
  }

  lemma EvalLoopStep(start: int, c: Poly, first: nat, i: nat, x: int, value: int, q: Prime)
    requires i < |c|
    requires Cong(value, start + Pow(x, first) * Eval(c[..i], x), q)
    ensures Cong((value + c[i] * (Pow(x, first + i) % q)) % q, start + Pow(x, first) * Eval(c[..i + 1], x), q)
  {
    hide Pow, Eval;
    var p, e := Pow(x, first), Eval(c[..i], x);
    assert c[..i + 1] == c[..i] + [c[i]];
    EvalSnoc(c[..i], c[i], x);
    PowAdd(x, first, i);
    var t := Pow(x, first + i);
    CongMod(t, q);
    CongMul(c[i], c[i], t % q, t, q);
    CongAdd(value, start + p * e, c[i] * (t % q), c[i] * t, q);
    CongMod(value + c[i] * (t % q), q);
    var u := Pow(x, i);
    assert p * (e + c[i] * u) == p * e + c[i] * (p * u);
  }

  /** Splitting a secret among parties 1..n with the polynomial secret + coefs*x. */
  method SplitKey(secret: int, coefs: Poly, n: nat, q: Prime) returns (shares: seq<Share>)
    requires 0 <= secret < q
    ensures |shares| == n
    ensures forall i :: 0 <= i < n ==> shares[i].x == i + 1 && 0 <= shares[i].y < q
    ensures SharesOf(shares, [secret] + coefs, q)
  {
    shares := [];
    var party := 1;
    while party < n + 1
      invariant 1 <= party <= n + 1 && |shares| == party - 1
      invariant forall i :: 0 <= i < |shares| ==> shares[i].x == i + 1 && 0 <= shares[i].y < q
      invariant SharesOf(shares, [secret] + coefs, q)
    {
      var value := EvalLoop(secret, coefs, 1, party, q);
      assert ([secret] + coefs)[1..] == coefs;
      assert Pow(party, 1) == party * Pow(party, 0) == party * 1;
      shares := shares + [Share(party, value)];
      party := party + 1;
    }
  }

  /** Any selection of at least as many different parties as the threshold
      recovers the secret that was split. */
  lemma SplitThenRecover(secret: int, coefs: Poly, shares: seq<Share>, chosen: seq<Share>, q: Prime)
    requires 0 <= secret < q && |shares| < q
    requires forall i :: 0 <= i < |shares| ==> shares[i].x == i + 1
    requires SharesOf(shares, [secret] + coefs, q)
    requires forall s :: s in chosen ==> s in shares
    requires forall i, j :: 0 <= i < j < |chosen| ==> chosen[i].x != chosen[j].x
    requires |chosen| >= |coefs| + 1
    ensures Recover(chosen, q) == Some(secret)
  {
    var xs := Abscissas(chosen);
    forall i | 0 <= i < |chosen|
      ensures 1 <= xs[i] < q && Cong(chosen[i].y, Eval([secret] + coefs, chosen[i].x), q)
    {
      assert chosen[i] in shares;
      var n :| 0 <= n < |shares| && shares[n] == chosen[i];
    }
    forall i, j | 0 <= i < j < |xs|
      ensures !Cong(xs[i], xs[j], q)
    {
      if Cong(xs[i], xs[j], q) {
        SmallCongEqual(xs[i], xs[j], q);
      }
    }
    RecoverExact(chosen, [secret] + coefs, q);
    EvalAtZero([secret] + coefs);
    ModIsRemainder(secret, q, 0, secret);
  }

  // ---- Below the threshold ----------------------------------------------------

  /** A polynomial with value 1 at 0 that vanishes modulo q at the given abscissas. */
  function Vanishing(xs: seq<int>, q: Prime): (c: Poly)
    ensures |c| == |xs| + 1
  {
    if xs == [] then [1] else Mul([1, -Inv(xs[0], q)], Vanishing(xs[1..], q))
  }

  lemma {:induction false} VanishingAt(xs: seq<int>, q: Prime, x: int)
    requires forall a :: a in xs ==> !Cong(a, 0, q)
    ensures Eval(Vanishing(xs, q), 0) == 1
    ensures x in xs ==> Cong(Eval(Vanishing(xs, q), x), 0, q)
  {
    hide Eval, Mul, Inv;
    if xs != [] {
      VanishingAt(xs[1..], q, x);
      OneFactorMore(xs, q, 0);
      OneFactorMore(xs, q, x);
      var line, rest := 1 - x * Inv(xs[0], q), Eval(Vanishing(xs[1..], q), x);
      if x == xs[0] {
        LineVanishes(x, q);
        CongMul(line, 0, rest, rest, q);
      } else if x in xs {
        CongMul(line, line, rest, 0, q);
      }
    } else {
      EvalAtZero([1]);
    }
  }

  lemma OneFactorMore(xs: seq<int>, q: Prime, x: int)
    requires xs != []
    ensures Eval(Vanishing(xs, q), x) == (1 - x * Inv(xs[0], q)) * Eval(Vanishing(xs[1..], q), x)
  {
    hide Eval, Mul, Inv;
    EvalMul([1, -Inv(xs[0], q)], Vanishing(xs[1..], q), x);
    EvalLine(-Inv(xs[0], q), x);
    assert x * -Inv(xs[0], q) == -(x * Inv(xs[0], q));
  }

  lemma EvalLine(w: int, x: int)
    ensures Eval([1, w], x) == 1 + x * w
  {
    assert [1, w][1..] == [w] && [w][1..] == [];
    assert Eval([w], x) == w + x * 0;
  }

  lemma LineVanishes(a: int, q: Prime)
    requires !Cong(a, 0, q)
    ensures Cong(1 - a * Inv(a, q), 0, q)
  {
    InvCorrect(a, q);
    CongSub(1, 1, a * Inv(a, q), 1, q);
  }

  /** Fewer shares than the threshold tell nothing: they would be the same for any other
      secret, with other coefficients. */
  lemma BelowThreshold(secret: int, other: int, coefs: Poly, xs: seq<int>, q: Prime) returns (others: Poly)
    requires |xs| <= |coefs| && forall x :: x in xs ==> !Cong(x, 0, q)
    ensures |others| == |coefs|
    ensures forall x :: x in xs ==> Cong(Eval([other] + others, x), Eval([secret] + coefs, x), q)
  {
    var first, gap := [secret] + coefs, Scale(other - secret, Vanishing(xs, q));
    var p := Add(first, gap);
    others := p[1..];
    EvalAdd(first, gap, 0);
    EvalScale(other - secret, Vanishing(xs, q), 0);
    VanishingAt(xs, q, 0);
    EvalAtZero(p);
    EvalAtZero(first);
    assert p == [other] + others;
    forall x | x in xs
      ensures Cong(Eval(p, x), Eval(first, x), q)
    {
      EvalAdd(first, gap, x);
      EvalScale(other - secret, Vanishing(xs, q), x);
      VanishingAt(xs, q, x);
      CongMul(other - secret, other - secret, Eval(Vanishing(xs, q), x), 0, q);
      CongAdd(Eval(first, x), Eval(first, x), Eval(gap, x), 0, q);
    }
  }
}

/** Lagrange interpolation at 0 modulo a prime, as used to open Shamir shares. */
module Lagrange {
  import opened ModArith
  import opened Polynomial

  /** No two abscissas are congruent modulo q. */
  ghost predicate Distinct(xs: seq<int>, q: int)
    requires q > 0
  {
    forall i, j :: 0 <= i < j < |xs| ==> !Cong(xs[i], xs[j], q)
  }

  /** The product of x_j / (x_j - x) over the abscissas x_j other than x. */
  function Weight(xs: seq<int>, x: int, q: Prime): int {
    if xs == [] then 1
    else if xs[0] == x then Weight(xs[1..], x, q)
    else xs[0] * Inv(xs[0] - x, q) * Weight(xs[1..], x, q)
  }

  /** The weighted sum of f over the points pts, with weights taken among xs. */
  function WeightedSum(xs: seq<int>, pts: seq<int>, f: int -> int, q: Prime): int {
    if pts == [] then 0
    else f(pts[0]) * Weight(xs, pts[0], q) + WeightedSum(xs, pts[1..], f, q)
  }

  /** The value at 0 that interpolation through (x, f(x)) for x in xs gives. */
  function AtZero(xs: seq<int>, f: int -> int, q: Prime): int {
    WeightedSum(xs, xs, f, q)
  }

  // ---- Weights and sums under appending --------------------------------

  lemma {:induction false} WeightAppend(xs: seq<int>, ys: seq<int>, x: int, q: Prime)
    ensures Weight(xs + ys, x, q) == Weight(xs, x, q) * Weight(ys, x, q)
  {
    if xs == [] {
      assert xs + ys == ys;
    } else {
      assert (xs + ys)[1..] == xs[1..] + ys;
      WeightAppend(xs[1..], ys, x, q);
      if xs[0] != x {
        MulAssoc(xs[0] * Inv(xs[0] - x, q), Weight(xs[1..], x, q), Weight(ys, x, q));
      }
    }
  }

  lemma {:induction false} SumAppend(xs: seq<int>, s: seq<int>, t: seq<int>, f: int -> int, q: Prime)
    ensures WeightedSum(xs, s + t, f, q) == WeightedSum(xs, s, f, q) + WeightedSum(xs, t, f, q)
  {
    if s == [] {
      assert s + t == t;
    } else {
      assert (s + t)[1..] == s[1..] + t;
      SumAppend(xs, s[1..], t, f, q);
    }
  }

  lemma {:induction false} SumLinear(xs: seq<int>, s: seq<int>, k: int, f: int -> int, l: int, g: int -> int, q: Prime)
    ensures WeightedSum(xs, s, x => k * f(x) + l * g(x), q)
         == k * WeightedSum(xs, s, f, q) + l * WeightedSum(xs, s, g, q)
  {
    if s != [] {
      SumLinear(xs, s[1..], k, f, l, g, q);
      LinearStep(k, f(s[0]), l, g(s[0]), Weight(xs, s[0], q),
        WeightedSum(xs, s[1..], f, q), WeightedSum(xs, s[1..], g, q));
    }
  }

  lemma LinearStep(k: int, a: int, l: int, b: int, w: int, s: int, t: int)
    ensures (k * a + l * b) * w + (k * s + l * t) == k * (a * w + s) + l * (b * w + t)
  {
    assert (k * a + l * b) * w == k * (a * w) + l * (b * w);
    assert k * (a * w + s) == k * (a * w) + k * s;
    assert l * (b * w + t) == l * (b * w) + l * t;
  }

  // ---- Removing one abscissa --------------------------------------------

  /** (x - a) cancels the factor that a contributes to the weight of x. */
  lemma FactorCancels(x: int, a: int, g: int, w: int, q: Prime)
    requires !Cong(a, x, q)
    ensures Cong((x - a) * g * (a * Inv(a - x, q) * w), -a * (g * w), q)
  {
    var i := Inv(a - x, q);
    NotCongDifference(a, x, q);
    InvCorrect(a - x, q);
    CongMul(-a * (g * w), -a * (g * w), (a - x) * i, 1, q);
    RegroupFactors(x, a, g, w, i);
  }

  lemma RegroupFactors(x: int, a: int, g: int, w: int, i: int)
    ensures (x - a) * g * (a * i * w) == (-a * (g * w)) * ((a - x) * i)
    ensures (-a * (g * w)) * 1 == -a * (g * w)
  {
    var d := a - x;
    assert (x - a) * g == -(d * g);
    calc {
      (d * g) * (a * i * w);
      d * (g * (a * (i * w)));
      { assert g * (a * (i * w)) == a * (g * w) * i; }
      d * (a * (g * w) * i);
      (a * (g * w)) * (d * i);
    }
  }

  lemma NotCongDifference(a: int, b: int, q: Prime)
    requires !Cong(a, b, q)
    ensures !Cong(a - b, 0, q)
  {
    if Cong(a - b, 0, q) {
      var k := CongDifference(a - b, 0, q);
      CongByMultiple(a, b, k, q);
    }
  }

  /** If a is one more abscissa than those of rest, then summing (x - a)*g(x)
      over points other than a amounts to -a times the sum of g without a. */
  lemma {:induction false} SumWithoutNode(all: seq<int>, rest: seq<int>, a: int, s: seq<int>,
                                          f: int -> int, g: int -> int, q: Prime)
    requires forall x :: x in s ==> Cong(f(x), (x - a) * g(x), q)
    requires forall x :: x in s ==> !Cong(a, x, q)
    requires forall x :: x in s ==> Weight(all, x, q) == a * Inv(a - x, q) * Weight(rest, x, q)
    ensures Cong(WeightedSum(all, s, f, q), -a * WeightedSum(rest, s, g, q), q)
  {
    hide Weight, Inv;
    if s == [] {
      assert -a * 0 == 0;
    } else {
      var x := s[0];
      SumWithoutNode(all, rest, a, s[1..], f, g, q);
      var w, wr := Weight(all, x, q), Weight(rest, x, q);
      FactorCancels(x, a, g(x), wr, q);
      CongMul(f(x), (x - a) * g(x), w, w, q);
      var t, u := WeightedSum(all, s[1..], f, q), WeightedSum(rest, s[1..], g, q);
      CongAdd(f(x) * w, -a * (g(x) * wr), t, -a * u, q);
      assert -a * (g(x) * wr) + -a * u == -a * (g(x) * wr + u);
    }
  }

  lemma DistinctParts(xs: seq<int>, ys: seq<int>, q: Prime)
    requires Distinct(xs + ys, q)
    ensures Distinct(xs, q) && Distinct(ys, q)
    ensures forall x, y :: x in xs && y in ys ==> !Cong(x, y, q)
  {
    var all := xs + ys;
    forall i, j | 0 <= i < j < |xs|
      ensures !Cong(xs[i], xs[j], q)
    {
      assert all[i] == xs[i] && all[j] == xs[j];
    }
    forall i, j | 0 <= i < j < |ys|
      ensures !Cong(ys[i], ys[j], q)
    {
      assert all[|xs| + i] == ys[i] && all[|xs| + j] == ys[j];
    }
    forall x, y | x in xs && y in ys
      ensures !Cong(x, y, q)
    {
      var i :| 0 <= i < |xs| && xs[i] == x;
      var j :| 0 <= j < |ys| && ys[j] == y;
      assert all[i] == x && all[|xs| + j] == y;
    }
  }

  lemma WeightOfOne(a: int, x: int, q: Prime)
    requires a != x
    ensures Weight([a], x, q) == a * Inv(a - x, q)
  {
    assert [a][1..] == [];
    assert Weight([], x, q) == 1;
    assert a * Inv(a - x, q) * 1 == a * Inv(a - x, q);
  }

  lemma RemoveFirst(a: int, rest: seq<int>, f: int -> int, g: int -> int, q: Prime)
    requires Distinct([a] + rest, q)
    requires forall x :: x in [a] + rest ==> Cong(f(x), (x - a) * g(x), q)
    ensures Cong(AtZero([a] + rest, f, q), -a * AtZero(rest, g, q), q)
  {
    var all := [a] + rest;
    DistinctParts([a], rest, q);
    assert a in [a];
    forall x | x in rest
      ensures Weight(all, x, q) == a * Inv(a - x, q) * Weight(rest, x, q)
    {
      WeightAppend([a], rest, x, q);
      WeightOfOne(a, x, q);
    }
    SumWithoutNode(all, rest, a, rest, f, g, q);
    SumAppend(all, [a], rest, f, q);
    VanishingTerm(all, a, f, g, q);
    CongAdd(WeightedSum(all, [a], f, q), 0, WeightedSum(all, rest, f, q), -a * AtZero(rest, g, q), q);
  }

  lemma RemoveLast(rest: seq<int>, a: int, f: int -> int, g: int -> int, q: Prime)
    requires Distinct(rest + [a], q)
    requires forall x :: x in rest + [a] ==> Cong(f(x), (x - a) * g(x), q)
    ensures Cong(AtZero(rest + [a], f, q), -a * AtZero(rest, g, q), q)
  {
    hide Weight, Inv, WeightedSum;
    var all := rest + [a];
    DistinctParts(rest, [a], q);
    assert a in [a];
    forall x | x in rest
      ensures Weight(all, x, q) == a * Inv(a - x, q) * Weight(rest, x, q)
    {
      WeightAppend(rest, [a], x, q);
      WeightOfOne(a, x, q);
      MulComm(Weight(rest, x, q), a * Inv(a - x, q));
    }
    SumWithoutNode(all, rest, a, rest, f, g, q);
    SumAppend(all, rest, [a], f, q);
    VanishingTerm(all, a, f, g, q);
    CongAdd(WeightedSum(all, rest, f, q), -a * AtZero(rest, g, q), WeightedSum(all, [a], f, q), 0, q);
  }

  lemma VanishingTerm(all: seq<int>, a: int, f: int -> int, g: int -> int, q: Prime)
    requires Cong(f(a), (a - a) * g(a), q)
    ensures Cong(WeightedSum(all, [a], f, q), 0, q)
  {
    var w := Weight(all, a, q);
    assert (a - a) * g(a) == 0;
    CongMul(f(a), 0, w, w, q);
    assert WeightedSum(all, [a], f, q) == f(a) * w + WeightedSum(all, [a][1..], f, q);
    assert WeightedSum(all, [a][1..], f, q) == 0;
  }

  // ---- Exactness ----------------------------------------------------------

  /** The weights add up to 1. */
  lemma {:induction false} WeightsSumToOne(xs: seq<int>, q: Prime)
    requires xs != [] && Distinct(xs, q)
    ensures Cong(AtZero(xs, x => 1, q), 1, q)
    decreases |xs|
  {
    var one := (x: int) => 1;
    if |xs| == 1 {
      assert xs[1..] == [];
      assert Weight(xs, xs[0], q) == Weight(xs[1..], xs[0], q) == 1;
      assert WeightedSum(xs, xs, one, q) == 1 * 1 + WeightedSum(xs, xs[1..], one, q);
    } else {
      var a, m, b := xs[0], xs[1..|xs| - 1], xs[|xs| - 1];
      assert xs == [a] + (m + [b]) && xs == ([a] + m) + [b];
      DistinctParts([a], m + [b], q);
      DistinctParts([a] + m, [b], q);
      WeightsSumToOne(m + [b], q);
      WeightsSumToOne([a] + m, q);
      SumOfDifference(xs, a, m + [b], q);
      SumOfDifferenceLast(xs, [a] + m, b, q);
      assert a in [a] && b in m + [b];
      OneFromTwoLines(xs, a, b, q);
    }
  }

  lemma SumOfDifference(xs: seq<int>, a: int, rest: seq<int>, q: Prime)
    requires xs == [a] + rest && Distinct(xs, q)
    requires Cong(AtZero(rest, x => 1, q), 1, q)
    ensures Cong(AtZero(xs, x => x - a, q), -a, q)
  {
    var s := AtZero(rest, x => 1, q);
    RemoveFirst(a, rest, x => x - a, x => 1, q);
    CongMul(-a, -a, s, 1, q);
  }

  lemma SumOfDifferenceLast(xs: seq<int>, rest: seq<int>, b: int, q: Prime)
    requires xs == rest + [b] && Distinct(xs, q)
    requires Cong(AtZero(rest, x => 1, q), 1, q)
    ensures Cong(AtZero(xs, x => x - b, q), -b, q)
  {
    var s := AtZero(rest, x => 1, q);
    RemoveLast(rest, b, x => x - b, x => 1, q);
    CongMul(-b, -b, s, 1, q);
  }

  /** From the sums of x - a and x - b the sum of 1 follows, since a - b is invertible. */
  lemma OneFromTwoLines(xs: seq<int>, a: int, b: int, q: Prime)
    requires !Cong(a, b, q)
    requires Cong(AtZero(xs, x => x - a, q), -a, q)
    requires Cong(AtZero(xs, x => x - b, q), -b, q)
    ensures Cong(AtZero(xs, x => 1, q), 1, q)
  {
    var one := (x: int) => 1;
    var la := (x: int) => x - a;
    var lb := (x: int) => x - b;
    var s, sa, sb := AtZero(xs, one, q), AtZero(xs, la, q), AtZero(xs, lb, q);
    // (a - b)*1 + 1*(x - a) = x - b, pointwise
    SumLinear(xs, xs, a - b, one, 1, la, q);
    SumExtensional(xs, xs, x => (a - b) * one(x) + 1 * la(x), lb, q);
    assert sb == (a - b) * s + sa;
    CongSub(sb, -b, sa, -a, q);
    assert -b - -a == (a - b) * 1;
    NotCongDifference(a, b, q);
    CongCancel(a - b, s, 1, q);
  }

  lemma {:induction false} SumExtensional(xs: seq<int>, s: seq<int>, f: int -> int, g: int -> int, q: Prime)
    requires forall x :: x in s ==> f(x) == g(x)
    ensures WeightedSum(xs, s, f, q) == WeightedSum(xs, s, g, q)
  {
    if s != [] {
      SumExtensional(xs, s[1..], f, g, q);
    }
  }

  /** Interpolation at 0 is exact for every polynomial with at most as many
      coefficients as there are abscissas. */
  lemma {:induction false} InterpolationExact(xs: seq<int>, c: Poly, q: Prime)
    requires Distinct(xs, q) && |c| <= |xs|
    ensures Cong(AtZero(xs, x => Eval(c, x), q), Eval(c, 0), q)
    decreases |xs|
  {
    var f := (x: int) => Eval(c, x);
    if c == [] {
      ZeroSum(xs, xs, f, q);
    } else {
      var a, rest := xs[0], xs[1..];
      assert xs == [a] + rest;
      DistinctParts([a], rest, q);
      var h := Quotient(c, a);
      InterpolationExact(rest, h, q);
      WeightsSumToOne(xs, q);
      DivisionStep(xs, a, rest, c, q);
    }
  }

  lemma {:induction false} ZeroSum(xs: seq<int>, s: seq<int>, f: int -> int, q: Prime)
    requires forall x :: x in s ==> f(x) == 0
    ensures WeightedSum(xs, s, f, q) == 0
  {
    if s != [] {
      ZeroSum(xs, s[1..], f, q);
    }
  }

  lemma DivisionStep(xs: seq<int>, a: int, rest: seq<int>, c: Poly, q: Prime)
    requires xs == [a] + rest && Distinct(xs, q)
    requires Cong(AtZero(xs, x => 1, q), 1, q)
    requires Cong(AtZero(rest, x => Eval(Quotient(c, a), x), q), Eval(Quotient(c, a), 0), q)
    ensures Cong(AtZero(xs, x => Eval(c, x), q), Eval(c, 0), q)
  {
    var h := Quotient(c, a);
    var one, g := (x: int) => 1, (x: int) => Eval(h, x);
    var p := (x: int) => (x - a) * g(x);
    var k := Eval(c, a);
    SplitPolynomial(xs, a, c, one, p, q);
    RemoveFirst(a, rest, p, g, q);
    var s1, sp, sg := AtZero(xs, one, q), AtZero(xs, p, q), AtZero(rest, g, q);
    CongMul(k, k, s1, 1, q);
    CongMul(-a, -a, sg, Eval(h, 0), q);
    CongAdd(k * s1, k * 1, sp, -a * Eval(h, 0), q);
    QuotientCorrect(c, a, 0);
  }

  lemma SplitPolynomial(xs: seq<int>, a: int, c: Poly, one: int -> int, p: int -> int, q: Prime)
    requires forall x :: one(x) == 1 && p(x) == (x - a) * Eval(Quotient(c, a), x)
    ensures AtZero(xs, x => Eval(c, x), q) == Eval(c, a) * AtZero(xs, one, q) + AtZero(xs, p, q)
  {
    var k := Eval(c, a);
    var f := (x: int) => Eval(c, x);
    forall x ensures f(x) == k * one(x) + 1 * p(x) {
      QuotientCorrect(c, a, x);
    }
    SumLinear(xs, xs, k, one, 1, p, q);
    SumExtensional(xs, xs, f, x => k * one(x) + 1 * p(x), q);
  }
}

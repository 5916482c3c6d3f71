/** Polynomials over the integers, evaluated modulo a prime. A polynomial is the
    sequence of its coefficients, lowest degree first. */
module Polynomial {
  import opened ModArith

  type Poly = seq<int>

  function Eval(c: Poly, x: int): int {
    if c == [] then 0 else c[0] + x * Eval(c[1..], x)
  }

  lemma {:induction false} EvalCong(c: Poly, d: Poly, x: int, y: int, q: int)
    requires q > 0 && |c| == |d| && Cong(x, y, q)
    requires forall i :: 0 <= i < |c| ==> Cong(c[i], d[i], q)
    ensures Cong(Eval(c, x), Eval(d, y), q)
  {
    if c != [] {
      EvalCong(c[1..], d[1..], x, y, q);
      CongMul(x, y, Eval(c[1..], x), Eval(d[1..], y), q);
      CongAdd(c[0], d[0], x * Eval(c[1..], x), y * Eval(d[1..], y), q);
    }
  }

  /** The sum of two polynomials. */
  function Add(c: Poly, d: Poly): (s: Poly)
    ensures |s| == if |c| >= |d| then |c| else |d|
  {
    if c == [] then d
    else if d == [] then c
    else [c[0] + d[0]] + Add(c[1..], d[1..])
  }

  lemma {:induction false} EvalAdd(c: Poly, d: Poly, x: int)
    ensures Eval(Add(c, d), x) == Eval(c, x) + Eval(d, x)
  {
    if c != [] && d != [] {
      EvalAdd(c[1..], d[1..], x);
      var e, f := Eval(c[1..], x), Eval(d[1..], x);
      assert x * (e + f) == x * e + x * f;
      assert Add(c, d)[1..] == Add(c[1..], d[1..]);
    }
  }

  function Scale(k: int, c: Poly): (s: Poly)
    ensures |s| == |c|
  {
    if c == [] then [] else [k * c[0]] + Scale(k, c[1..])
  }

  lemma {:induction false} EvalScale(k: int, c: Poly, x: int)
    ensures Eval(Scale(k, c), x) == k * Eval(c, x)
  {
    if c != [] {
      EvalScale(k, c[1..], x);
      var e := Eval(c[1..], x);
      assert Scale(k, c)[1..] == Scale(k, c[1..]);
      assert x * (k * e) == k * (x * e);
      assert k * (c[0] + x * e) == k * c[0] + k * (x * e);
    }
  }

  /** The product of two polynomials: degrees add. */
  function Mul(c: Poly, d: Poly): (s: Poly)
    ensures c != [] && d != [] ==> |s| == |c| + |d| - 1
  {
    if c == [] then []
    else if |c| == 1 then Scale(c[0], d)
    else Add(Scale(c[0], d), [0] + Mul(c[1..], d))
  }

  lemma {:induction false} EvalMul(c: Poly, d: Poly, x: int)
    ensures Eval(Mul(c, d), x) == Eval(c, x) * Eval(d, x)
  {
    var e := Eval(d, x);
    if c == [] {
    } else {
      EvalScale(c[0], d, x);
      if |c| == 1 {
        assert Eval(c[1..], x) == 0;
      } else {
        var f := Eval(c[1..], x);
        EvalMul(c[1..], d, x);
        var m := [0] + Mul(c[1..], d);
        assert m[1..] == Mul(c[1..], d);
        EvalAdd(Scale(c[0], d), m, x);
        assert (c[0] + x * f) * e == c[0] * e + x * (f * e);
      }
    }
  }

  lemma EvalAtZero(c: Poly)
    ensures Eval(c, 0) == if c == [] then 0 else c[0]
  {
  }

  /** Adding a coefficient at the top. */
  lemma {:induction false} EvalSnoc(c: Poly, k: int, x: int)
    ensures Eval(c + [k], x) == Eval(c, x) + k * Pow(x, |c|)
  {
    if c == [] {
      assert (c + [k])[1..] == [];
    } else {
      assert (c + [k])[1..] == c[1..] + [k];
      EvalSnoc(c[1..], k, x);
      var e, p := Eval(c[1..], x), Pow(x, |c| - 1);
      assert x * (e + k * p) == x * e + k * (x * p);
    }
  }

  /** The quotient of f - f(a) by (x - a): one degree lower. */
  function Quotient(c: Poly, a: int): (g: Poly)
    ensures |g| == if c == [] then 0 else |c| - 1
  {
    if |c| <= 1 then [] else [Eval(c[1..], a)] + Quotient(c[1..], a)
  }

  /** Division with remainder by a linear factor. */
  lemma {:induction false} QuotientCorrect(c: Poly, a: int, x: int)
    ensures Eval(c, x) == Eval(c, a) + (x - a) * Eval(Quotient(c, a), x)
  {
    if |c| <= 1 {
      if |c| == 1 { assert c[1..] == []; }
    } else {
      var f, g := c[1..], Quotient(c[1..], a);
      QuotientCorrect(f, a, x);
      assert Quotient(c, a)[1..] == g;
      DivisionAlgebra(x, a, Eval(f, a), Eval(f, x), Eval(g, x));
    }
  }

  lemma DivisionAlgebra(x: int, a: int, fa: int, fx: int, gx: int)
    requires fx == fa + (x - a) * gx
    ensures x * fx == a * fa + (x - a) * (fa + x * gx)
  {
    MulAssoc(x, x - a, gx);
    MulAssoc(x - a, x, gx);
    MulComm(x, x - a);
    assert x * fx == x * fa + x * ((x - a) * gx);
    assert (x - a) * (fa + x * gx) == (x - a) * fa + (x - a) * (x * gx);
    assert (x - a) * fa == x * fa - a * fa;
  }
}

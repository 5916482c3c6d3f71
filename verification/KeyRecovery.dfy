/** Recovering the secret key from what a signing session sends in clear. */
module KeyRecovery {
  import opened ModArith
  import opened Polynomial
  import opened Primes
  import opened Shamir
  import opened SmpcProgram
  import opened SmpcLockstep
  import opened SmpcSigning
  import opened Factorize

  /** Random coefficients have 64 bits. */
  const COEFFICIENT_BOUND := 0x1_0000_0000_0000_0000

  /** d = (s*k - z) / r modulo q. */
  function KeyFormula(s: int, kappa: int, z: int, r: int, q: Prime): int {
    ((s * kappa - z) * Inv(r, q)) % q
  }

  lemma KeyFormulaCorrect(s: int, kappa: int, z: int, r: int, d: int, q: Prime)
    requires Cong(s * kappa, z + r * d, q) && !Cong(r, 0, q)
    ensures KeyFormula(s, kappa, z, r, q) == d % q
  {
    var w := Inv(r, q);
    InvCorrect(r, q);
    CongSub(s * kappa, z + r * d, z, z, q);
    CongMul(s * kappa - z, r * d, w, w, q);
    assert (r * d) * w == d * (r * w);
    CongMul(d, d, r * w, 1, q);
  }

  /** kappa is the discrete logarithm of target. */
  ghost predicate IsLogarithm(kappa: int, target: Point, q: Prime) {
    0 <= kappa < q && target == Times(kappa, G(q), q)
  }

  /** If the group order is large enough, only the logarithm itself is accepted. */
  lemma AcceptedIsLogarithm(value: int, target: Point, q: Prime)
    requires q >= Pow(2, 74) && Accepted(value, target, q)
    ensures IsLogarithm(value, target, q)
    ensures forall kappa :: IsLogarithm(kappa, target, q) ==> value == kappa
  {
    SearchBounds();
    AcceptedExactly(value, target, q);
    forall kappa | IsLogarithm(kappa, target, q)
      ensures value == kappa
    {
      TimesGenerator(value, q);
      TimesGenerator(kappa, q);
      SmallCongEqual(value, kappa, q);
    }
  }

  /** The equation of a signature of z with this key and this nonce. */
  ghost predicate Signs(r: int, s: int, z: int, kappa: int, key: int, q: Prime) {
    Cong(s * kappa, z + r * key, q)
  }

  /** For a nonce that divides the opened product kr and is the logarithm of the point,
      the answer d is the key if the nonce has a length that is accepted, the part of kr
      beyond the limit of trial division divides it or is coprime to it, and r has an
      inverse; and it is none if not. */
  ghost predicate FoundExactly(d: Option<int>, kr: nat, target: Point, r: int, s: int, z: int, q: Prime) {
    forall kappa, key, u ::
      q >= Pow(2, 74) && Divides(kappa, kr) && IsLogarithm(kappa, target, q) && LargePart(kr, u)
      && Signs(r, s, z, kappa, key, q)
      ==> d == if Accepted(kappa, target, q) && Separated(u, kappa) && !Cong(r, 0, q) then Some(key % q) else None
  }

  /** The nonce search followed by the formula. */
  method RecoverKey(kr: nat, target: Point, r: int, s: int, z: int, q: Prime) returns (d: Option<int>)
    ensures FoundExactly(d, kr, target, r, s, z, q)
    ensures forall kappa, key ::
              q >= Pow(2, 74) && Divides(kappa, kr) && Accepted(kappa, target, q) && CompletelyFactored(kr)
              && Signs(r, s, z, kappa, key, q) && !Cong(r, 0, q)
              ==> d == Some(key % q)
  {
    hide Separated, LargePart, CompletelyFactored, Accepted, KeyFormula, Divides, IsLogarithm, Signs, Pow;
    var count, ok, value := TestFactorize(kr, target, q);
    var w := ModInverse(r, q);
    ModInverseCorrect(r, q);
    if ok && w.Some? {
      d := Some(((s * value - z) * w.value) % q);
    } else {
      d := None;
    }
    forall kappa | q >= Pow(2, 74) && Divides(kappa, kr) && IsLogarithm(kappa, target, q)
      ensures ok ==> value == kappa
      ensures forall u :: LargePart(kr, u) ==> (ok <==> Accepted(kappa, target, q) && Separated(u, kappa))
    {
      OnlyLogarithm(kappa, target, q);
    }
    forall kappa | q >= Pow(2, 74) && Accepted(kappa, target, q)
      ensures IsLogarithm(kappa, target, q)
    {
      AcceptedIsLogarithm(kappa, target, q);
    }
    forall kappa, key | ok && w.Some? && value == kappa && Signs(r, s, z, kappa, key, q)
      ensures d == Some(key % q)
    {
      FormulaWithInverse(s, kappa, z, r, w.value, key, q);
    }
  }

  lemma UseFound(d: Option<int>, kr: nat, target: Point, r: int, s: int, z: int, q: Prime, kappa: int, key: int)
    requires FoundExactly(d, kr, target, r, s, z, q)
    requires q >= Pow(2, 74) && Divides(kappa, kr) && IsLogarithm(kappa, target, q)
    requires Signs(r, s, z, kappa, key, q)
    ensures forall u :: LargePart(kr, u) ==>
              d == if Accepted(kappa, target, q) && Separated(u, kappa) && !Cong(r, 0, q) then Some(key % q) else None
  {
    hide Accepted, LargePart, Separated, Pow, Signs, IsLogarithm;
  }

  lemma OnlyLogarithm(kappa: int, target: Point, q: Prime)
    requires q >= Pow(2, 74) && IsLogarithm(kappa, target, q)
    ensures forall d :: Accepted(d, target, q) ==> d == kappa
  {
    hide Accepted, IsLogarithm;
    forall d | Accepted(d, target, q)
      ensures d == kappa
    {
      AcceptedIsLogarithm(d, target, q);
    }
  }

  lemma FormulaWithInverse(s: int, kappa: int, z: int, r: int, w: int, key: int, q: Prime)
    requires ModInverse(r, q) == Some(w) && !Cong(r, 0, q) && Signs(r, s, z, kappa, key, q)
    ensures ((s * kappa - z) * w) % q == key % q
  {
    KeyFormulaCorrect(s, kappa, z, r, key, q);
  }

  // ---- What a session opens ------------------------------------------------------

  ghost predicate SmallCoefficients(c: Session)
    requires c.Valid()
  {
    forall i, r :: 0 <= i < |c.xs| && 0 <= r < Rounds(c.k) ==> 0 <= c.coins[i][r][0] < COEFFICIENT_BOUND
  }

  lemma {:induction false} SmallSum(c: Session, r: nat, n: nat)
    requires c.Valid() && SmallCoefficients(c) && r < Rounds(c.k) && n <= |c.xs|
    ensures 0 <= SumOfConstants(c, r, n) <= n * (COEFFICIENT_BOUND - 1)
  {
    if n > 0 {
      SmallSum(c, r, n - 1);
    }
  }

  lemma ProductBelow(a: int, b: int, m: nat, bound: nat)
    requires 0 <= a <= m * bound && 0 <= b <= m * bound
    ensures 0 <= a * b <= (m * bound) * (m * bound)
  {
    assert a * b <= a * (m * bound);
    assert a * (m * bound) <= (m * bound) * (m * bound);
  }

  /** With 64-bit coefficients and a group order above the square of the sums, the
      opened value is the product of nonce and mask as integers. */
  lemma OpenedExactly(c: Session)
    requires c.Valid() && SmallCoefficients(c)
    requires (|c.xs| * COEFFICIENT_BOUND) * (|c.xs| * COEFFICIENT_BOUND) <= c.q
    ensures c.Opened() == MaskValue(c) * NonceValue(c)
  {
    OpenedIsProduct(c);
    SmallSum(c, 0, |c.xs|);
    SmallSum(c, c.k + 2, |c.xs|);
    var m, b := |c.xs|, COEFFICIENT_BOUND - 1;
    ProductBelow(MaskValue(c), NonceValue(c), m, b);
    SquareBelow(m * b, m * COEFFICIENT_BOUND);
    ModIsRemainder(MaskValue(c) * NonceValue(c), c.q, 0, MaskValue(c) * NonceValue(c));
  }

  lemma SquareBelow(a: nat, b: nat)
    requires a < b
    ensures a * a < b * b
  {
    assert a * a <= a * b;
    assert a * b < b * b;
  }

  /** The random coefficients have 64 bits, and the group is large enough for that. */
  ghost predicate SmallSession(c: Session)
    requires c.Valid()
  {
    SmallCoefficients(c) && (|c.xs| * COEFFICIENT_BOUND) * (|c.xs| * COEFFICIENT_BOUND) <= c.q
  }

  /** What the search needs holds in every such session whose opened value does not
      vanish: the nonce divides it, is the logarithm of the point that the published
      shares make up, and satisfies the equation of the signature. */
  lemma SessionRevealsNonce(c: Session, key: Poly)
    requires c.Valid() && c.Shares(key) && SmallSession(c) && !Cong(c.Opened(), 0, c.q)
    ensures Divides(NonceValue(c), c.Opened())
    ensures c.q >= Pow(2, 74) && IsLogarithm(NonceValue(c), PublishedPoint(c), c.q)
    ensures Signs(c.R(), SignatureValue(c, key), c.z, NonceValue(c), Eval(key, 0), c.q)
  {
    hide Session.Opened, Session.R, Eval;
    OpenedExactly(c);
    SmallSum(c, 0, |c.xs|);
    SmallSum(c, c.k + 2, |c.xs|);
    FactorDivides(MaskValue(c), NonceValue(c), c.q);
    NonceAtZero(c);
    TimesGenerator(NonceValue(c), c.q);
    TimesGenerator(Eval(c.Nonce(), 0) % c.q, c.q);
    CongMod(NonceValue(c), c.q);
    BelowOrder(|c.xs|, c.q);
    SignatureEquation(c, key);
  }

  lemma BelowOrder(n: nat, q: int)
    requires n >= 1 && (n * COEFFICIENT_BOUND) * (n * COEFFICIENT_BOUND) <= q
    ensures n * (COEFFICIENT_BOUND - 1) < q && Pow(2, 74) <= q
  {
    var b := n * COEFFICIENT_BOUND;
    assert b <= b * b && COEFFICIENT_BOUND * COEFFICIENT_BOUND <= b * b;
    PowAdd(2, 37, 37);
    PowAdd(2, 5, 32);
    PowAdd(2, 16, 16);
    PowAdd(2, 8, 8);
    PowAdd(2, 4, 4);
    assert Pow(2, 1) == 2 && Pow(2, 2) == 4 && Pow(2, 3) == 8 && Pow(2, 4) == 16 && Pow(2, 5) == 32;
  }

  /** The point that the shares published in the points round make up. */
  ghost function PublishedPoint(c: Session): Point
    requires c.Valid()
  {
    Times(Eval(c.Nonce(), 0) % c.q, G(c.q), c.q)
  }

  lemma FactorDivides(a: int, b: nat, q: Prime)
    requires !Cong(a * b, 0, q)
    ensures Divides(b, a * b)
  {
    DividesByWitness(b, a * b, a);
  }
}

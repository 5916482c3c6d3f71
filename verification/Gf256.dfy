/** Arithmetic in GF(2^8): the field products of aes.c, and the product of polynomials
    over GF(2) modulo x^8 + x^4 + x^3 + x + 1 (section 4.2 of FIPS 197). */
module Gf256 {
  function XTime(x: bv8): bv8 {
    (x << 1) ^ (((x >> 7) & 1) * 0x1b)
  }

  /** The product of aes.c, for y below 32. */
  function Multiply(x: bv8, y: bv8): bv8 {
    ((y & 1) * x)
    ^ (((y >> 1) & 1) * XTime(x))
    ^ (((y >> 2) & 1) * XTime(XTime(x)))
    ^ (((y >> 3) & 1) * XTime(XTime(XTime(x))))
    ^ (((y >> 4) & 1) * XTime(XTime(XTime(XTime(x)))))
  }

  // ---- The field by definition ------------------------------------------------

  function IfSet(x: bv16, bit: bv16): bv16 {
    if bit == 0 then 0 else x
  }

  /** The product of two polynomials over GF(2). */
  function PolynomialProduct(a: bv8, b: bv8): bv16 {
    var x, y := a as bv16, b as bv16;
    IfSet(x, y & 0x01) ^ IfSet(x << 1, y & 0x02) ^ IfSet(x << 2, y & 0x04) ^ IfSet(x << 3, y & 0x08)
    ^ IfSet(x << 4, y & 0x10) ^ IfSet(x << 5, y & 0x20) ^ IfSet(x << 6, y & 0x40) ^ IfSet(x << 7, y & 0x80)
  }

  /** The remainder modulo x^8 + x^4 + x^3 + x + 1, by long division. */
  function Reduce(p: bv16): bv8 {
    var p6 := p ^ IfSet(0x11b << 6, p & 0x4000);
    var p5 := p6 ^ IfSet(0x11b << 5, p6 & 0x2000);
    var p4 := p5 ^ IfSet(0x11b << 4, p5 & 0x1000);
    var p3 := p4 ^ IfSet(0x11b << 3, p4 & 0x0800);
    var p2 := p3 ^ IfSet(0x11b << 2, p3 & 0x0400);
    var p1 := p2 ^ IfSet(0x11b << 1, p2 & 0x0200);
    var p0 := p1 ^ IfSet(0x11b, p1 & 0x0100);
    (p0 & 0xFF) as bv8
  }

  function GfMul(a: bv8, b: bv8): bv8 {
    Reduce(PolynomialProduct(a, b))
  }

  lemma XTimeLinear(x: bv8, y: bv8)
    ensures XTime(x ^ y) == XTime(x) ^ XTime(y)
  {
  }

  lemma MultiplyBy2(x: bv8)
    ensures Multiply(x, 0x02) == GfMul(x, 0x02) == XTime(x)
  {
  }

  lemma MultiplyBy3(x: bv8)
    ensures Multiply(x, 0x03) == GfMul(x, 0x03) == XTime(x) ^ x
  {
  }

  lemma MultiplyBy9(x: bv8)
    ensures Multiply(x, 0x09) == GfMul(x, 0x09)
    ensures Multiply(x, 0x09) == XTime(XTime(XTime(x))) ^ x
  {
  }

  lemma MultiplyBy11(x: bv8)
    ensures Multiply(x, 0x0b) == GfMul(x, 0x0b)
    ensures Multiply(x, 0x0b) == XTime(XTime(XTime(x))) ^ XTime(x) ^ x
  {
  }

  lemma MultiplyBy13(x: bv8)
    ensures Multiply(x, 0x0d) == GfMul(x, 0x0d)
    ensures Multiply(x, 0x0d) == XTime(XTime(XTime(x))) ^ XTime(XTime(x)) ^ x
  {
  }

  lemma MultiplyBy14(x: bv8)
    ensures Multiply(x, 0x0e) == GfMul(x, 0x0e)
    ensures Multiply(x, 0x0e) == XTime(XTime(XTime(x))) ^ XTime(XTime(x)) ^ XTime(x)
  {
  }

  // ---- Polynomials acting on bytes -------------------------------------------------

  /** Field addition under a name, for reasoning that does not look at bits. */
  function Xor(x: bv8, y: bv8): bv8 {
    x ^ y
  }

  lemma XorComm(x: bv8, y: bv8)
    ensures Xor(x, y) == Xor(y, x)
  {
  }

  lemma XorAssoc(x: bv8, y: bv8, z: bv8)
    ensures Xor(Xor(x, y), z) == Xor(x, Xor(y, z))
  {
  }

  lemma XorExchange(x: bv8, y: bv8, z: bv8, w: bv8)
    ensures Xor(Xor(x, y), Xor(z, w)) == Xor(Xor(x, z), Xor(y, w))
  {
    hide Xor;
    XorAssoc(x, y, Xor(z, w));
    XorAssoc(x, z, Xor(y, w));
    XorAssoc(y, z, w);
    XorAssoc(z, y, w);
    XorComm(y, z);
  }

  lemma XorZero(x: bv8)
    ensures Xor(x, 0) == x && Xor(0, x) == x
  {
  }

  lemma XorOfFour(x: bv8, y: bv8, z: bv8, w: bv8)
    ensures x ^ y ^ z ^ w == Xor(Xor(x, y), Xor(z, w))
  {
  }

  lemma XTimeXor(x: bv8, y: bv8)
    ensures XTime(Xor(x, y)) == Xor(XTime(x), XTime(y))
  {
    XTimeLinear(x, y);
  }

  lemma XTimeZero()
    ensures XTime(0) == 0
  {
  }

  /** A polynomial over GF(2): low + x * rest. */
  datatype Gf2Poly = Nil | Poly(low: bool, rest: Gf2Poly)

  function Selected(b: bool, x: bv8): bv8 {
    if b then x else 0
  }

  /** The sum of the doublings of x that p selects: p times x in the field. */
  function Act(p: Gf2Poly, x: bv8): bv8 {
    match p
    case Nil => 0
    case Poly(b, rest) => Xor(Selected(b, x), Act(rest, XTime(x)))
  }

  function Plus(p: Gf2Poly, r: Gf2Poly): Gf2Poly {
    match (p, r)
    case (Nil, _) => r
    case (_, Nil) => p
    case (Poly(b, p'), Poly(c, r')) => Poly(b != c, Plus(p', r'))
  }

  function Times(p: Gf2Poly, r: Gf2Poly): Gf2Poly {
    match p
    case Nil => Nil
    case Poly(b, rest) => Plus(if b then r else Nil, Poly(false, Times(rest, r)))
  }

  lemma XorSelected(b: bool, c: bool, x: bv8)
    ensures Xor(Selected(b, x), Selected(c, x)) == Selected(b != c, x)
  {
  }

  lemma SelectedXor(b: bool, x: bv8, y: bv8)
    ensures Xor(Selected(b, x), Selected(b, y)) == Selected(b, Xor(x, y))
  {
    XorZero(0);
  }

  lemma {:induction false} ActXor(p: Gf2Poly, x: bv8, y: bv8)
    ensures Act(p, Xor(x, y)) == Xor(Act(p, x), Act(p, y))
  {
    hide Xor, XTime, Selected;
    XorZero(0);
    if p.Poly? {
      XTimeXor(x, y);
      ActXor(p.rest, XTime(x), XTime(y));
      SelectedXor(p.low, x, y);
      XorExchange(Selected(p.low, x), Selected(p.low, y), Act(p.rest, XTime(x)), Act(p.rest, XTime(y)));
    }
  }

  lemma {:induction false} ActPlus(p: Gf2Poly, r: Gf2Poly, x: bv8)
    ensures Act(Plus(p, r), x) == Xor(Act(p, x), Act(r, x))
  {
    hide Xor, XTime, Selected;
    XorZero(Act(r, x));
    XorZero(Act(p, x));
    if p.Poly? && r.Poly? {
      ActPlus(p.rest, r.rest, XTime(x));
      XorSelected(p.low, r.low, x);
      XorExchange(Selected(p.low, x), Act(p.rest, XTime(x)), Selected(r.low, x), Act(r.rest, XTime(x)));
    }
  }

  lemma XTimeSelected(b: bool, x: bv8)
    ensures XTime(Selected(b, x)) == Selected(b, XTime(x))
  {
  }

  lemma {:induction false} ActXTime(p: Gf2Poly, x: bv8)
    ensures Act(p, XTime(x)) == XTime(Act(p, x))
  {
    hide Xor, XTime, Selected;
    XTimeZero();
    if p.Poly? {
      ActXTime(p.rest, XTime(x));
      XTimeSelected(p.low, x);
      XTimeXor(Selected(p.low, x), Act(p.rest, XTime(x)));
    }
  }

  lemma ActShift(p: Gf2Poly, x: bv8)
    ensures Act(Poly(false, p), x) == Act(p, XTime(x))
  {
    hide Xor, XTime;
    XorZero(Act(p, XTime(x)));
  }

  lemma ActPrepend(p: Gf2Poly, x: bv8)
    ensures Act(Poly(true, p), x) == x ^ Act(p, XTime(x))
  {
    hide XTime;
  }

  /** Acting twice is acting by the product. */
  lemma {:induction false} ActTimes(p: Gf2Poly, r: Gf2Poly, x: bv8)
    ensures Act(Times(p, r), x) == Act(p, Act(r, x))
  {
    hide Xor, XTime;
    if p.Poly? {
      var first, rest := if p.low then r else Nil, Times(p.rest, r);
      ActPlus(first, Poly(false, rest), x);
      ActShift(rest, x);
      ActTimes(p.rest, r, XTime(x));
      ActXTime(r, x);
    }
  }

  // ---- Rows of circulant matrices --------------------------------------------------

  datatype Row = Row(p0: Gf2Poly, p1: Gf2Poly, p2: Gf2Poly, p3: Gf2Poly)

  const ONE := Poly(true, Nil)
  const TWO := Poly(false, Poly(true, Nil))
  const THREE := Poly(true, Poly(true, Nil))
  const NINE := Poly(true, Poly(false, Poly(false, Poly(true, Nil))))
  const ELEVEN := Poly(true, Poly(true, Poly(false, Poly(true, Nil))))
  const THIRTEEN := Poly(true, Poly(false, Poly(true, Poly(true, Nil))))
  const FOURTEEN := Poly(false, Poly(true, Poly(true, Poly(true, Nil))))

  const MIX_ROW := Row(TWO, THREE, ONE, ONE)
  const INV_MIX_ROW := Row(FOURTEEN, ELEVEN, THIRTEEN, NINE)

  function ActRow(m: Row, a: bv8, b: bv8, c: bv8, d: bv8): bv8 {
    Xor(Xor(Act(m.p0, a), Act(m.p1, b)), Xor(Act(m.p2, c), Act(m.p3, d)))
  }

  function Entry(p0: Gf2Poly, r0: Gf2Poly, p1: Gf2Poly, r1: Gf2Poly,
                 p2: Gf2Poly, r2: Gf2Poly, p3: Gf2Poly, r3: Gf2Poly): Gf2Poly {
    Plus(Plus(Times(p0, r0), Times(p1, r1)), Plus(Times(p2, r2), Times(p3, r3)))
  }

  /** The first row of the product of two circulant matrices. */
  function RowTimes(m: Row, n: Row): Row {
    Row(Entry(m.p0, n.p0, m.p1, n.p3, m.p2, n.p2, m.p3, n.p1),
        Entry(m.p0, n.p1, m.p1, n.p0, m.p2, n.p3, m.p3, n.p2),
        Entry(m.p0, n.p2, m.p1, n.p1, m.p2, n.p0, m.p3, n.p3),
        Entry(m.p0, n.p3, m.p1, n.p2, m.p2, n.p1, m.p3, n.p0))
  }

  lemma ActOfRow(p: Gf2Poly, n: Row, a: bv8, b: bv8, c: bv8, d: bv8)
    ensures Act(p, ActRow(n, a, b, c, d))
         == Xor(Xor(Act(Times(p, n.p0), a), Act(Times(p, n.p1), b)),
                Xor(Act(Times(p, n.p2), c), Act(Times(p, n.p3), d)))
  {
    hide Xor, XTime, Act, Times;
    var w, x, y, z := Act(n.p0, a), Act(n.p1, b), Act(n.p2, c), Act(n.p3, d);
    ActXor(p, Xor(w, x), Xor(y, z));
    ActXor(p, w, x);
    ActXor(p, y, z);
    ActTimes(p, n.p0, a);
    ActTimes(p, n.p1, b);
    ActTimes(p, n.p2, c);
    ActTimes(p, n.p3, d);
  }

  lemma ActEntry(p0: Gf2Poly, r0: Gf2Poly, p1: Gf2Poly, r1: Gf2Poly,
                 p2: Gf2Poly, r2: Gf2Poly, p3: Gf2Poly, r3: Gf2Poly, x: bv8)
    ensures Act(Entry(p0, r0, p1, r1, p2, r2, p3, r3), x)
         == Xor(Xor(Act(Times(p0, r0), x), Act(Times(p1, r1), x)), Xor(Act(Times(p2, r2), x), Act(Times(p3, r3), x)))
  {
    hide Xor, XTime, Act, Times, Plus;
    ActPlus(Plus(Times(p0, r0), Times(p1, r1)), Plus(Times(p2, r2), Times(p3, r3)), x);
    ActPlus(Times(p0, r0), Times(p1, r1), x);
    ActPlus(Times(p2, r2), Times(p3, r3), x);
  }

  function Xor4(x: bv8, y: bv8, z: bv8, w: bv8): bv8 {
    Xor(Xor(x, y), Xor(z, w))
  }

  lemma XorExchange4(x0: bv8, x1: bv8, x2: bv8, x3: bv8, y0: bv8, y1: bv8, y2: bv8, y3: bv8)
    ensures Xor(Xor4(x0, x1, x2, x3), Xor4(y0, y1, y2, y3))
         == Xor4(Xor(x0, y0), Xor(x1, y1), Xor(x2, y2), Xor(x3, y3))
  {
    hide Xor;
    XorExchange(Xor(x0, x1), Xor(x2, x3), Xor(y0, y1), Xor(y2, y3));
    XorExchange(x0, x1, y0, y1);
    XorExchange(x2, x3, y2, y3);
  }

  /** Summing a square by rows or by columns is the same. */
  lemma XorTranspose(a0: bv8, a1: bv8, a2: bv8, a3: bv8, b0: bv8, b1: bv8, b2: bv8, b3: bv8,
                     c0: bv8, c1: bv8, c2: bv8, c3: bv8, d0: bv8, d1: bv8, d2: bv8, d3: bv8)
    ensures Xor4(Xor4(a0, a1, a2, a3), Xor4(b0, b1, b2, b3), Xor4(c0, c1, c2, c3), Xor4(d0, d1, d2, d3))
         == Xor4(Xor4(a0, b0, c0, d0), Xor4(a1, b1, c1, d1), Xor4(a2, b2, c2, d2), Xor4(a3, b3, c3, d3))
  {
    hide Xor;
    XorExchange4(a0, a1, a2, a3, b0, b1, b2, b3);
    XorExchange4(c0, c1, c2, c3, d0, d1, d2, d3);
    XorExchange4(Xor(a0, b0), Xor(a1, b1), Xor(a2, b2), Xor(a3, b3),
                 Xor(c0, d0), Xor(c1, d1), Xor(c2, d2), Xor(c3, d3));
  }

  /** Applying two circulant matrices in turn is applying their product. */
  lemma CirculantProduct(m: Row, n: Row, a: bv8, b: bv8, c: bv8, d: bv8)
    ensures ActRow(m, ActRow(n, a, b, c, d), ActRow(n, b, c, d, a), ActRow(n, c, d, a, b), ActRow(n, d, a, b, c))
         == ActRow(RowTimes(m, n), a, b, c, d)
  {
    hide Xor, XTime, Act, Times, Plus;
    ActOfRow(m.p0, n, a, b, c, d);
    ActOfRow(m.p1, Row(n.p3, n.p0, n.p1, n.p2), a, b, c, d);
    ActOfRow(m.p2, Row(n.p2, n.p3, n.p0, n.p1), a, b, c, d);
    ActOfRow(m.p3, Row(n.p1, n.p2, n.p3, n.p0), a, b, c, d);
    RotateRow(n, a, b, c, d);
    ActEntry(m.p0, n.p0, m.p1, n.p3, m.p2, n.p2, m.p3, n.p1, a);
    ActEntry(m.p0, n.p1, m.p1, n.p0, m.p2, n.p3, m.p3, n.p2, b);
    ActEntry(m.p0, n.p2, m.p1, n.p1, m.p2, n.p0, m.p3, n.p3, c);
    ActEntry(m.p0, n.p3, m.p1, n.p2, m.p2, n.p1, m.p3, n.p0, d);
    XorTranspose(
      Act(Times(m.p0, n.p0), a), Act(Times(m.p0, n.p1), b), Act(Times(m.p0, n.p2), c), Act(Times(m.p0, n.p3), d),
      Act(Times(m.p1, n.p3), a), Act(Times(m.p1, n.p0), b), Act(Times(m.p1, n.p1), c), Act(Times(m.p1, n.p2), d),
      Act(Times(m.p2, n.p2), a), Act(Times(m.p2, n.p3), b), Act(Times(m.p2, n.p0), c), Act(Times(m.p2, n.p1), d),
      Act(Times(m.p3, n.p1), a), Act(Times(m.p3, n.p2), b), Act(Times(m.p3, n.p3), c), Act(Times(m.p3, n.p0), d));
  }

  lemma XorRotate(x: bv8, y: bv8, z: bv8, w: bv8)
    ensures Xor4(x, y, z, w) == Xor4(w, x, y, z) == Xor4(z, w, x, y) == Xor4(y, z, w, x)
  {
    hide Xor;
    XorComm(Xor(x, y), Xor(z, w));
    XorExchange(x, y, z, w);
    XorExchange(w, x, y, z);
    XorExchange(y, z, w, x);
    XorComm(x, z);
    XorComm(y, w);
    XorComm(Xor(x, z), Xor(y, w));
  }

  lemma RotateRow(n: Row, a: bv8, b: bv8, c: bv8, d: bv8)
    ensures ActRow(n, b, c, d, a) == ActRow(Row(n.p3, n.p0, n.p1, n.p2), a, b, c, d)
    ensures ActRow(n, c, d, a, b) == ActRow(Row(n.p2, n.p3, n.p0, n.p1), a, b, c, d)
    ensures ActRow(n, d, a, b, c) == ActRow(Row(n.p1, n.p2, n.p3, n.p0), a, b, c, d)
  {
    hide Xor, Act;
    XorRotate(Act(n.p0, b), Act(n.p1, c), Act(n.p2, d), Act(n.p3, a));
    XorRotate(Act(n.p0, c), Act(n.p1, d), Act(n.p2, a), Act(n.p3, b));
    XorRotate(Act(n.p0, d), Act(n.p1, a), Act(n.p2, b), Act(n.p3, c));
  }

  // ---- MixColumns and its inverse ---------------------------------------------------

  /** One output byte of MixColumns (section 5.1.3 of FIPS 197), from a column read
      downwards from the byte's own row. */
  function Mix(a: bv8, b: bv8, c: bv8, d: bv8): bv8 {
    GfMul(a, 0x02) ^ GfMul(b, 0x03) ^ c ^ d
  }

  /** One output byte of InvMixColumns (section 5.3.3). */
  function InvMix(a: bv8, b: bv8, c: bv8, d: bv8): bv8 {
    GfMul(a, 0x0e) ^ GfMul(b, 0x0b) ^ GfMul(c, 0x0d) ^ GfMul(d, 0x09)
  }

  lemma ActOne(x: bv8)
    ensures Act(ONE, x) == x
  {
    hide XTime;
    XorZero(x);
  }

  lemma ActTwo(x: bv8)
    ensures Act(TWO, x) == GfMul(x, 0x02)
  {
    hide Xor, XTime, GfMul, Multiply, Act;
    ActShift(Poly(true, Nil), x);
    ActOne(XTime(x));
    MultiplyBy2(x);
  }

  lemma ActThree(x: bv8)
    ensures Act(THREE, x) == GfMul(x, 0x03)
  {
    hide Xor, XTime, GfMul, Multiply, Act;
    ActPrepend(Poly(true, Nil), x);
    ActOne(XTime(x));
    MultiplyBy3(x);
  }

  lemma ActNine(x: bv8)
    ensures Act(NINE, x) == GfMul(x, 0x09)
  {
    hide Xor, XTime, GfMul, Multiply, Act;
    ActPrepend(Poly(false, Poly(false, Poly(true, Nil))), x);
    ActShift(Poly(false, Poly(true, Nil)), XTime(x));
    ActShift(Poly(true, Nil), XTime(XTime(x)));
    ActOne(XTime(XTime(XTime(x))));
    MultiplyBy9(x);
  }

  lemma ActEleven(x: bv8)
    ensures Act(ELEVEN, x) == GfMul(x, 0x0b)
  {
    hide Xor, XTime, GfMul, Multiply, Act;
    ActPrepend(Poly(true, Poly(false, Poly(true, Nil))), x);
    ActPrepend(Poly(false, Poly(true, Nil)), XTime(x));
    ActShift(Poly(true, Nil), XTime(XTime(x)));
    ActOne(XTime(XTime(XTime(x))));
    MultiplyBy11(x);
  }

  lemma ActThirteen(x: bv8)
    ensures Act(THIRTEEN, x) == GfMul(x, 0x0d)
  {
    hide Xor, XTime, GfMul, Multiply, Act;
    ActPrepend(Poly(false, Poly(true, Poly(true, Nil))), x);
    ActShift(Poly(true, Poly(true, Nil)), XTime(x));
    ActPrepend(Poly(true, Nil), XTime(XTime(x)));
    ActOne(XTime(XTime(XTime(x))));
    MultiplyBy13(x);
  }

  lemma ActFourteen(x: bv8)
    ensures Act(FOURTEEN, x) == GfMul(x, 0x0e)
  {
    hide Xor, XTime, GfMul, Multiply, Act;
    ActShift(Poly(true, Poly(true, Poly(true, Nil))), x);
    ActPrepend(Poly(true, Poly(true, Nil)), XTime(x));
    ActPrepend(Poly(true, Nil), XTime(XTime(x)));
    ActOne(XTime(XTime(XTime(x))));
    MultiplyBy14(x);
  }

  lemma MixIsRow(a: bv8, b: bv8, c: bv8, d: bv8)
    ensures Mix(a, b, c, d) == ActRow(MIX_ROW, a, b, c, d)
  {
    hide Xor, Act, GfMul;
    ActTwo(a);
    ActThree(b);
    ActOne(c);
    ActOne(d);
    XorOfFour(GfMul(a, 0x02), GfMul(b, 0x03), c, d);
  }

  lemma InvMixIsRow(a: bv8, b: bv8, c: bv8, d: bv8)
    ensures InvMix(a, b, c, d) == ActRow(INV_MIX_ROW, a, b, c, d)
  {
    hide Xor, Act, GfMul;
    ActFourteen(a);
    ActEleven(b);
    ActThirteen(c);
    ActNine(d);
    XorOfFour(GfMul(a, 0x0e), GfMul(b, 0x0b), GfMul(c, 0x0d), GfMul(d, 0x09));
  }

  predicate IsZero(p: Gf2Poly) {
    p == Nil || (!p.low && IsZero(p.rest))
  }

  predicate IsOne(p: Gf2Poly) {
    p.Poly? && p.low && IsZero(p.rest)
  }

  lemma {:induction false} ActIsZero(p: Gf2Poly, x: bv8)
    requires IsZero(p)
    ensures Act(p, x) == 0
  {
    hide Xor, XTime;
    if p.Poly? {
      ActIsZero(p.rest, XTime(x));
      XorZero(0);
    }
  }

  lemma ActIsOne(p: Gf2Poly, x: bv8)
    requires IsOne(p)
    ensures Act(p, x) == x
  {
    hide Xor, XTime;
    ActIsZero(p.rest, XTime(x));
    XorZero(x);
  }

  /** The identity matrix, as the first row of a circulant one. */
  predicate IsIdentity(m: Row) {
    IsOne(m.p0) && IsZero(m.p1) && IsZero(m.p2) && IsZero(m.p3)
  }

  lemma ActIdentity(m: Row, a: bv8, b: bv8, c: bv8, d: bv8)
    requires IsIdentity(m)
    ensures ActRow(m, a, b, c, d) == a
  {
    hide Xor, Act;
    ActIsOne(m.p0, a);
    ActIsZero(m.p1, b);
    ActIsZero(m.p2, c);
    ActIsZero(m.p3, d);
    XorZero(a);
    XorZero(0);
  }

  lemma MatricesInverse()
    ensures IsIdentity(RowTimes(INV_MIX_ROW, MIX_ROW))
    ensures IsIdentity(RowTimes(MIX_ROW, INV_MIX_ROW))
  {
  }

  /** InvMixColumns undoes MixColumns, byte by byte. */
  lemma InvMixOfMix(a: bv8, b: bv8, c: bv8, d: bv8)
    ensures InvMix(Mix(a, b, c, d), Mix(b, c, d, a), Mix(c, d, a, b), Mix(d, a, b, c)) == a
  {
    hide ActRow, Mix, InvMix, RowTimes, IsIdentity;
    MixIsRow(a, b, c, d);
    MixIsRow(b, c, d, a);
    MixIsRow(c, d, a, b);
    MixIsRow(d, a, b, c);
    InvMixIsRow(Mix(a, b, c, d), Mix(b, c, d, a), Mix(c, d, a, b), Mix(d, a, b, c));
    CirculantProduct(INV_MIX_ROW, MIX_ROW, a, b, c, d);
    MatricesInverse();
    ActIdentity(RowTimes(INV_MIX_ROW, MIX_ROW), a, b, c, d);
  }

  lemma MixOfInvMix(a: bv8, b: bv8, c: bv8, d: bv8)
    ensures Mix(InvMix(a, b, c, d), InvMix(b, c, d, a), InvMix(c, d, a, b), InvMix(d, a, b, c)) == a
  {
    hide ActRow, Mix, InvMix, RowTimes, IsIdentity;
    InvMixIsRow(a, b, c, d);
    InvMixIsRow(b, c, d, a);
    InvMixIsRow(c, d, a, b);
    InvMixIsRow(d, a, b, c);
    MixIsRow(InvMix(a, b, c, d), InvMix(b, c, d, a), InvMix(c, d, a, b), InvMix(d, a, b, c));
    CirculantProduct(MIX_ROW, INV_MIX_ROW, a, b, c, d);
    MatricesInverse();
    ActIdentity(RowTimes(MIX_ROW, INV_MIX_ROW), a, b, c, d);
  }
}

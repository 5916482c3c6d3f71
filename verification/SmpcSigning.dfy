/** Threshold signing end to end: the node program run asynchronously over FIFO
    channels, and what the nodes hold when it has stopped. */
module SmpcSigning {
  import opened ModArith
  import opened Polynomial
  import opened Shamir
  import opened SmpcProgram
  import opened SmpcLockstep
  import opened Network

  /** The network of the signing nodes of a session. */
  ghost function Nodes(c: Session): (p: Program<Memory, Packet>)
    requires c.Valid()
  {
    Program(
      |c.xs|,
      (a: nat) => if a < |c.order| then c.order[a] else [],
      (a: nat) => BLANK,
      (m: Memory) => m.Running(),
      (a: nat, r: nat, m: Memory, b: nat) =>
        if a < |c.xs| && b < |c.xs| && r < Rounds(c.k) then Outgoing(c.InputsOf(a), r, m, c.xs[b]) else Clear(0),
      (a: nat, r: nat, m: Memory, inbox: seq<Packet>) =>
        if a < |c.xs| && r < Rounds(c.k) && |inbox| == |c.order[a]| then Absorb(c.InputsOf(a), r, m, inbox) else m)
  }

  lemma NodesMeshed(c: Session)
    requires c.Valid()
    ensures Nodes(c).Meshed()
  {
    var p := Nodes(c);
    forall a | 0 <= a < p.size
      ensures p.order(a) == c.order[a] && c.PeersOf(p.order(a), a)
    {
    }
  }

  ghost function Memories(c: Session, r: nat): (mems: seq<Memory>)
    requires c.Valid()
    ensures |mems| == |c.xs|
    ensures forall j :: 0 <= j < |mems| ==> mems[j] == Nodes(c).Lockstep(r, j)
  {
    seq(|c.xs|, (j: nat) => Nodes(c).Lockstep(r, j))
  }

  /** One lockstep round of a running node is one step of its program. */
  lemma LockstepRound(c: Session, r: nat, i: nat)
    requires c.Valid() && r < Rounds(c.k) && i < |c.xs| && Memories(c, r)[i].Running()
    ensures Memories(c, r + 1)[i] == After(c, r, i, Memories(c, r))
  {
    var p, mems := Nodes(c), Memories(c, r);
    var inbox := p.LockstepInbox(r, i);
    forall n | 0 <= n < |c.order[i]|
      ensures inbox[n] == c.Inbox(r, i, mems)[n]
    {
      assert inbox[n] == p.packet(c.order[i][n], r, mems[c.order[i][n]], i);
    }
    assert inbox == c.Inbox(r, i, mems);
    assert p.Lockstep(r + 1, i) == p.absorb(i, r, mems[i], inbox);
  }

  lemma FirstMemories(c: Session)
    requires c.Valid()
    ensures AllEarly(c, 0, Memories(c, 0))
  {
    forall j | 0 <= j < |c.xs|
      ensures c.EarlyMemory(0, j, Memories(c, 0)[j])
    {
      assert Memories(c, 0)[j] == BLANK;
      assert c.Collected(0, 0, j) == [];
    }
  }

  lemma {:induction false} EarlyRounds(c: Session, r: nat)
    requires c.Valid() && r <= 2 * c.k + 3
    ensures AllEarly(c, r, Memories(c, r))
  {
    hide After, Eval, Session.Joint, Nodes;
    if r == 0 {
      FirstMemories(c);
    } else {
      EarlyRounds(c, r - 1);
      var mems := Memories(c, r - 1);
      forall j | 0 <= j < |c.xs|
        ensures c.EarlyMemory(r, j, Memories(c, r)[j])
      {
        assert c.EarlyMemory(r - 1, j, mems[j]);
        EarlyStep(c, r - 1, j, mems);
        LockstepRound(c, r - 1, j);
      }
    }
  }

  /** Where the first opening gives no inverse, every node raises there. */
  lemma RaisedRound(c: Session, key: Poly, i: nat)
    requires c.Valid() && c.Shares(key) && i < |c.xs| && Cong(c.Opened(), 0, c.q)
    ensures Memories(c, 2 * c.k + 4)[i].raised
    ensures Memories(c, 2 * c.k + 4)[i].signature == None
  {
    hide After, Eval, Session.Joint, Nodes;
    EarlyRounds(c, 2 * c.k + 3);
    var mems := Memories(c, 2 * c.k + 3);
    assert c.EarlyMemory(2 * c.k + 3, i, mems[i]);
    OpenInverseStep(c, key, i, mems);
    LockstepRound(c, 2 * c.k + 3, i);
  }

  lemma FirstLateRound(c: Session, key: Poly)
    requires c.Valid() && c.Shares(key) && !Cong(c.Opened(), 0, c.q)
    ensures AllLate(c, key, 2 * c.k + 4, Memories(c, 2 * c.k + 4))
  {
    hide After, Eval, Session.Joint, Nodes;
    EarlyRounds(c, 2 * c.k + 3);
    var mems, next := Memories(c, 2 * c.k + 3), Memories(c, 2 * c.k + 4);
    forall j | 0 <= j < |c.xs|
      ensures c.LateMemory(key, 2 * c.k + 4, j, next[j])
    {
      assert c.EarlyMemory(2 * c.k + 3, j, mems[j]);
      OpenInverseStep(c, key, j, mems);
      LockstepRound(c, 2 * c.k + 3, j);
    }
  }

  lemma {:induction false} LateRounds(c: Session, key: Poly, r: nat)
    requires c.Valid() && c.Shares(key) && !Cong(c.Opened(), 0, c.q)
    requires 2 * c.k + 4 <= r <= Rounds(c.k)
    ensures AllLate(c, key, r, Memories(c, r))
  {
    hide After, Eval, Session.Joint, Nodes;
    if r == 2 * c.k + 4 {
      FirstLateRound(c, key);
    } else {
      LateRounds(c, key, r - 1);
      var mems := Memories(c, r - 1);
      forall j | 0 <= j < |c.xs|
        ensures c.LateMemory(key, r, j, Memories(c, r)[j])
      {
        assert c.LateMemory(key, r - 1, j, mems[j]);
        LateStep(c, key, r - 1, j, mems);
        LockstepRound(c, r - 1, j);
      }
    }
  }

  /** The number of rounds that a session lasts. */
  ghost function Duration(c: Session): nat
    requires c.Valid()
  {
    if Cong(c.Opened(), 0, c.q) then 2 * c.k + 4 else Rounds(c.k)
  }

  lemma RunsUntil(c: Session, key: Poly, r: nat, a: nat)
    requires c.Valid() && c.Shares(key) && r < Duration(c) && a < |c.xs|
    ensures Memories(c, r)[a].Running()
  {
    if r <= 2 * c.k + 3 {
      EarlyRounds(c, r);
      assert c.EarlyMemory(r, a, Memories(c, r)[a]);
    } else {
      LateRounds(c, key, r);
      assert c.LateMemory(key, r, a, Memories(c, r)[a]);
    }
  }

  /** All nodes take part in the same rounds, and no others. */
  lemma SessionStops(c: Session, key: Poly)
    requires c.Valid() && c.Shares(key)
    ensures Nodes(c).StopsAfter(Duration(c))
  {
    var p := Nodes(c);
    forall r, a | 0 <= r < Duration(c) && 0 <= a < p.size
      ensures p.running(p.Lockstep(r, a))
    {
      RunsUntil(c, key, r, a);
      assert p.Lockstep(r, a) == Memories(c, r)[a];
    }
    forall a | 0 <= a < p.size
      ensures !p.running(p.Lockstep(Duration(c), a))
    {
      assert p.Lockstep(Duration(c), a) == Memories(c, Duration(c))[a];
      if Cong(c.Opened(), 0, c.q) {
        RaisedRound(c, key, a);
      } else {
        LateRounds(c, key, Rounds(c.k));
        assert c.LateMemory(key, Rounds(c.k), a, Memories(c, Rounds(c.k))[a]);
      }
    }
  }

  // ---- The secrets behind a session -------------------------------------------------

  /** The nonce and the mask: sums over the nodes of the constant coefficients that
      they draw in the first round and in the round of the mask. */
  ghost function SumOfConstants(c: Session, r: nat, n: nat): int
    requires c.Valid() && r < Rounds(c.k) && n <= |c.xs|
  {
    if n == 0 then 0 else SumOfConstants(c, r, n - 1) + c.coins[n - 1][r][0]
  }

  ghost function NonceValue(c: Session): int
    requires c.Valid()
  {
    SumOfConstants(c, 0, |c.xs|)
  }

  ghost function MaskValue(c: Session): int
    requires c.Valid()
  {
    SumOfConstants(c, c.k + 2, |c.xs|)
  }

  lemma {:induction false} JointConstant(c: Session, r: nat, n: nat)
    requires c.Valid() && r < Rounds(c.k) && n <= |c.xs|
    ensures Eval(c.Joint(r, n), 0) == SumOfConstants(c, r, n)
  {
    if n > 0 {
      JointConstant(c, r, n - 1);
      EvalAdd(c.Joint(r, n - 1), c.coins[n - 1][r], 0);
      EvalAtZero(c.coins[n - 1][r]);
    }
  }

  lemma NonceAtZero(c: Session)
    requires c.Valid()
    ensures Eval(c.Nonce(), 0) == c.Nonce()[0] == NonceValue(c)
    ensures Eval(c.MaskPoly(), 0) == c.MaskPoly()[0] == MaskValue(c)
  {
    EvalAtZero(c.Nonce());
    EvalAtZero(c.MaskPoly());
    JointConstant(c, 0, |c.xs|);
    JointConstant(c, c.k + 2, |c.xs|);
  }

  /** The first opening reveals the product of the nonce and the mask. */
  lemma OpenedIsProduct(c: Session)
    requires c.Valid()
    ensures c.Opened() == (MaskValue(c) * NonceValue(c)) % c.q
  {
    NonceAtZero(c);
    HiddenProductOpens(c.MaskPoly(), c.Nonce(), c.ZeroPoly(c.k + 3), c.q);
  }

  /** Every node's share of the inverse lies on a polynomial below degree k whose
      value at 0 is the inverse of the nonce. */
  lemma InverseShares(c: Session)
    requires c.Valid() && !Cong(c.Opened(), 0, c.q)
    ensures |c.InversePoly()| == c.k
    ensures Cong(NonceValue(c) * Eval(c.InversePoly(), 0), 1, c.q)
  {
    hide Eval, Inv, Session.Opened;
    var q, kappa, rho, w := c.q, NonceValue(c), MaskValue(c), Inv(c.Opened(), c.q);
    OpenedIsProduct(c);
    NonceAtZero(c);
    EvalScale(w, c.MaskPoly(), 0);
    InvCorrect(c.Opened(), q);
    CongMod(rho * kappa, q);
    CongMul(rho * kappa, c.Opened(), w, w, q);
    assert kappa * (w * rho) == (rho * kappa) * w;
  }

  /** The signature that a session opens, and the equation that defines it. */
  ghost function SignatureValue(c: Session, key: Poly): int
    requires c.Valid() && c.Shares(key)
  {
    Eval(c.SignaturePoly(key), 0) % c.q
  }

  lemma SignatureEquation(c: Session, key: Poly)
    requires c.Valid() && c.Shares(key) && !Cong(c.Opened(), 0, c.q)
    ensures Cong(SignatureValue(c, key) * NonceValue(c), c.R() * Eval(key, 0) + c.z, c.q)
  {
    var q, kappa := c.q, NonceValue(c);
    var a, b := c.DataPoly(key), c.InversePoly();
    HiddenProductOpens(a, b, c.ZeroPoly(2 * c.k + 4), q);
    EvalAtZero(a);
    EvalAtZero(b);
    InverseShares(c);
    DataAtZero(c, key);
    ProductTimesNonce(a[0], b[0], kappa, q);
  }

  lemma ProductTimesNonce(a: int, b: int, kappa: int, q: Prime)
    requires Cong(kappa * b, 1, q)
    ensures Cong(((a * b) % q) * kappa, a, q)
  {
    CongMod(a * b, q);
    CongMul((a * b) % q, a * b, kappa, kappa, q);
    assert (a * b) * kappa == a * (kappa * b);
    CongMul(a, a, kappa * b, 1, q);
  }

  lemma DataAtZero(c: Session, key: Poly)
    requires c.Valid() && c.Shares(key)
    ensures Eval(c.DataPoly(key), 0) == c.R() * Eval(key, 0) + c.z
  {
    EvalScale(c.R(), key, 0);
    EvalAdd(Scale(c.R(), key), [c.z], 0);
    EvalConstant(c.z, 0);
  }

  // ---- Every run -----------------------------------------------------------------

  /** What every run leaves once all nodes have stopped. Unless the product of
      nonce and mask vanishes, every node holds the same pair (r, s), where r comes
      from the point nonce*G and s*nonce = z + r*d; if it vanishes, every node has
      raised and none holds a signature. */
  ghost predicate Outcome(c: Session, key: Poly, w: World<Memory, Packet>)
    requires c.Valid() && c.Shares(key) && Shaped(Nodes(c), w)
  {
    forall a :: 0 <= a < |c.xs| ==>
      var m := w.procs[a].st;
      if Cong(NonceValue(c) * MaskValue(c), 0, c.q) then m.raised && m.signature == None
      else
        && !m.raised
        && m.r == c.px(Times(NonceValue(c), G(c.q), c.q)) % c.q
        && m.signature == Some(SignatureValue(c, key))
        && Cong(SignatureValue(c, key) * NonceValue(c), c.z + m.r * Eval(key, 0), c.q)
  }

  lemma EveryRunSigns(c: Session, key: Poly, ws: seq<World<Memory, Packet>>, es: seq<Step>)
    requires c.Valid() && c.Shares(key) && Run(Nodes(c), ws, es)
    requires Shaped(Nodes(c), ws[|es|]) && Stopped(Nodes(c), ws[|es|])
    ensures Outcome(c, key, ws[|es|])
    ensures forall a, b :: 0 <= a < |c.xs| && 0 <= b < |c.xs| && a != b ==>
              |ws[|es|].wire[a][b]| == ws[|es|].got[a][b] == Duration(c)
  {
    var p := Nodes(c);
    NodesMeshed(c);
    SessionStops(c, key);
    StoppedOutcome(p, ws, es, |es|, Duration(c));
    forall a | 0 <= a < |c.xs|
      ensures ws[|es|].procs[a].st == Memories(c, Duration(c))[a]
    {
    }
    OutcomeOfMemories(c, key, ws[|es|]);
  }

  lemma OutcomeOfMemories(c: Session, key: Poly, w: World<Memory, Packet>)
    requires c.Valid() && c.Shares(key) && Shaped(Nodes(c), w)
    requires forall a :: 0 <= a < |c.xs| ==> w.procs[a].st == Memories(c, Duration(c))[a]
    ensures Outcome(c, key, w)
  {
    OpenedIsProduct(c);
    CongMod(MaskValue(c) * NonceValue(c), c.q);
    MulComm(MaskValue(c), NonceValue(c));
    NonceAtZero(c);
    TimesGenerator(NonceValue(c), c.q);
    if Cong(c.Opened(), 0, c.q) {
      forall a | 0 <= a < |c.xs|
        ensures w.procs[a].st.raised && w.procs[a].st.signature == None
      {
        RaisedRound(c, key, a);
      }
    } else {
      LateRounds(c, key, Rounds(c.k));
      SignatureEquation(c, key);
      forall a | 0 <= a < |c.xs|
        ensures c.LateMemory(key, Rounds(c.k), a, w.procs[a].st)
      {
      }
    }
  }

  /** Until every node has stopped some node can move, and no run is longer than
      the work of all rounds: so every run ends as EveryRunSigns says. */
  lemma EveryRunEnds(c: Session, key: Poly, ws: seq<World<Memory, Packet>>, es: seq<Step>)
    requires c.Valid() && c.Shares(key) && Run(Nodes(c), ws, es)
    ensures |es| <= |c.xs| * (Duration(c) * (2 * |c.xs| - 1))
    ensures Shaped(Nodes(c), ws[|es|])
    ensures Stopped(Nodes(c), ws[|es|]) || exists e :: Enabled(Nodes(c), ws[|es|], e)
  {
    hide Duration, Session.Opened;
    NodesMeshed(c);
    SessionStops(c, key);
    RunLength(Nodes(c), ws, es, Duration(c));
    if !Stopped(Nodes(c), ws[|es|]) {
      var e := NoDeadlock(Nodes(c), ws, es, |es|, Duration(c));
    }
  }

  // ---- Verification ----------------------------------------------------------------

  /** Signature verification as in section 4.1.4 of SEC 1 version 2. */
  function Verifies(q: Prime, px: Point -> int, public: Point, z: int, r: int, s: int): bool {
    && 1 <= r < q && 1 <= s < q
    && var w := Inv(s, q);
       var pt := PointAdd(Times((z * w) % q, G(q), q), Times((r * w) % q, public, q), q);
       pt != IDENTITY && px(pt) % q == r
  }

  /** A pair with s*kappa = z + r*d and r from kappa*G is accepted for the public key
      d*G exactly when neither half is 0. */
  lemma SignatureVerifies(q: Prime, px: Point -> int, d: int, z: int, kappa: int, r: int, s: int)
    requires !Cong(kappa, 0, q) && 0 <= s < q
    requires r == px(Times(kappa, G(q), q)) % q
    requires Cong(s * kappa, z + r * d, q)
    ensures Verifies(q, px, Times(d, G(q), q), z, r, s) <==> r != 0 && s != 0
  {
    if r != 0 && s != 0 {
      var w := Inv(s, q);
      var pub := Times(d, G(q), q);
      var pt := PointAdd(Times((z * w) % q, G(q), q), Times((r * w) % q, pub, q), q);
      RecoveredPoint(q, d, z, kappa, r, s);
      TimesGenerator(kappa, q);
      ModIsRemainder(0, q, 0, 0);
      assert pt == Times(kappa, G(q), q);
    }
  }

  /** kappa, its point and the pair (r, s) fit a signature of z under d. */
  ghost predicate SignedWith(q: Prime, px: Point -> int, d: int, z: int, r: int, s: int, kappa: int) {
    0 < kappa < q && Cong(s * kappa, z + r * d, q) && px(Point(kappa)) % q == r
  }

  /** A pair is accepted exactly if both halves lie between 0 and the group order and some
      nonce gives rise to it. */
  lemma VerifiesExactly(q: Prime, px: Point -> int, d: int, z: int, r: int, s: int)
    ensures Verifies(q, px, Times(d, G(q), q), z, r, s) <==>
              0 < r < q && 0 < s < q && exists kappa :: SignedWith(q, px, d, z, r, s, kappa)
  {
    if 0 < r < q && 0 < s < q {
      var kappa := SolvedFor(q, d, z, r, s);
      RecoveredPoint(q, d, z, kappa, r, s);
      TimesGenerator(kappa, q);
      ModIsRemainder(kappa, q, 0, kappa);
      forall other | SignedWith(q, px, d, z, r, s, other)
        ensures other == kappa
      {
        SameNonce(q, s, kappa, other);
      }
      assert SignedWith(q, px, d, z, r, s, kappa) <==> kappa != 0 && px(Point(kappa)) % q == r;
    }
  }

  lemma SolvedFor(q: Prime, d: int, z: int, r: int, s: int) returns (kappa: int)
    requires 0 < s < q
    ensures 0 <= kappa < q && Cong(s * kappa, z + r * d, q)
  {
    hide Inv;
    var v, w := z + r * d, Inv(s, q);
    NotZeroBelow(s, q);
    InvCorrect(s, q);
    kappa := (v * w) % q;
    CongMod(v * w, q);
    CongMul(s, s, kappa, v * w, q);
    CongMul(v, v, s * w, 1, q);
    MulAssoc(s, v, w);
    MulComm(s, v);
    MulAssoc(v, s, w);
  }

  lemma NotZeroBelow(s: int, q: Prime)
    requires 0 < s < q
    ensures !Cong(s, 0, q)
  {
    if Cong(s, 0, q) {
      SmallCongEqual(s, 0, q);
    }
  }

  lemma SameNonce(q: Prime, s: int, kappa: int, other: int)
    requires 0 < s < q && 0 <= kappa < q && 0 <= other < q && Cong(s * kappa, s * other, q)
    ensures other == kappa
  {
    NotZeroBelow(s, q);
    CongCancel(s, kappa, other, q);
    SmallCongEqual(kappa, other, q);
  }

  lemma RecoveredPoint(q: Prime, d: int, z: int, kappa: int, r: int, s: int)
    requires 0 < s < q && Cong(s * kappa, z + r * d, q)
    ensures var w := Inv(s, q);
            PointAdd(Times((z * w) % q, G(q), q), Times((r * w) % q, Times(d, G(q), q), q), q)
            == Times(kappa, G(q), q)
  {
    var w := Inv(s, q);
    if Cong(s, 0, q) { SmallCongEqual(s, 0, q); }
    InvCorrect(s, q);
    TimesGenerator((z * w) % q, q);
    TimesGenerator(d, q);
    TimesGenerator(kappa, q);
    CongMod(z * w, q);
    CongMod((z * w) % q, q);
    ReducedProduct(r * w, d, q);
    CongAdd((z * w) % q, z * w, (((r * w) % q) * (d % q)) % q, (r * w) * d, q);
    UndoDivision(d, z, kappa, r, s, w, q);
  }

  lemma UndoDivision(d: int, z: int, kappa: int, r: int, s: int, w: int, q: Prime)
    requires Cong(s * kappa, z + r * d, q) && Cong(s * w, 1, q)
    ensures Cong(z * w + (r * w) * d, kappa, q)
  {
    CongMul(s * kappa, z + r * d, w, w, q);
    assert (z + r * d) * w == z * w + (r * w) * d;
    assert (s * kappa) * w == kappa * (s * w);
    CongMul(kappa, kappa, s * w, 1, q);
  }

  /** Every completed run whose opened product does not vanish yields, at every
      node, a pair that verifies under the public key unless one half is 0. */
  lemma EveryRunVerifies(c: Session, key: Poly, ws: seq<World<Memory, Packet>>, es: seq<Step>, a: nat)
    requires c.Valid() && c.Shares(key) && Run(Nodes(c), ws, es)
    requires Shaped(Nodes(c), ws[|es|]) && Stopped(Nodes(c), ws[|es|])
    requires a < |c.xs| && !Cong(NonceValue(c) * MaskValue(c), 0, c.q)
    ensures var m := ws[|es|].procs[a].st;
            m.signature.Some? &&
            (Verifies(c.q, c.px, Times(Eval(key, 0), G(c.q), c.q), c.z, m.r, m.signature.value)
             <==> m.r != 0 && m.signature.value != 0)
  {
    EveryRunSigns(c, key, ws, es);
    NoZeroDivisors(NonceValue(c), MaskValue(c), c.q);
    var m := ws[|es|].procs[a].st;
    SignatureVerifies(c.q, c.px, Eval(key, 0), c.z, NonceValue(c), m.r, m.signature.value);
  }
}

/** From the packets of a finished signing session that travel in clear to the key. */
module TraceRecovery {
  import opened ModArith
  import opened Polynomial
  import opened Lagrange
  import opened Shamir
  import opened SmpcProgram
  import opened SmpcLockstep
  import opened Network
  import opened SmpcSigning
  import opened SmpcDelivery
  import opened Factorize
  import opened KeyRecovery

  // ---- The program ----------------------------------------------------------------

  /** What is done with the shares that a trace holds for one signature: the point, the
      second half of the signature and the opened product are recovered, the signature
      is compared with them, and the key is searched for. */
  method SolveSignature(points: seq<PointShare>, sShares: seq<Share>, krShares: seq<Share>,
                        signR: int, signS: int, z: int, px: Point -> int, q: Prime) returns (d: Option<int>)
    ensures forall t: int, kr: nat ::
              Consistent(points, sShares, krShares, signR, signS, px, q, t, kr) ==>
                FoundExactly(d, kr, Times(t, G(q), q), signR, signS, z, q)
  {
    hide Recover, Consistent, FoundExactly;
    forall t: int, kr: nat | Consistent(points, sShares, krShares, signR, signS, px, q, t, kr)
      ensures Recover(Logs(points), q) == Some(t) && px(Times(t, G(q), q)) % q == signR
      ensures Recover(sShares, q) == Some(signS) && Recover(krShares, q) == Some(kr)
    {
      ReadConsistent(points, sShares, krShares, signR, signS, px, q, t, kr);
    }
    var signPt := SssRecoverPoint(points, q);
    if signPt.None? || px(signPt.value) % q != signR {
      return None;
    }
    var s := SssRecover(sShares, q);
    if s != Some(signS) {
      return None;
    }
    var kr := SssRecover(krShares, q);
    if kr.None? {
      return None;
    }
    RecoveredInRange(krShares, q);
    d := RecoverKey(kr.value, signPt.value, signR, signS, z, q);
  }

  /** The shares recover to t, to the signature's second half and to kr, and the point
      gives its first half. */
  ghost predicate Consistent(points: seq<PointShare>, sShares: seq<Share>, krShares: seq<Share>,
                             signR: int, signS: int, px: Point -> int, q: Prime, t: int, kr: nat)
  {
    && Recover(Logs(points), q) == Some(t) && px(Times(t, G(q), q)) % q == signR
    && Recover(sShares, q) == Some(signS) && Recover(krShares, q) == Some(kr)
  }

  lemma ReadConsistent(points: seq<PointShare>, sShares: seq<Share>, krShares: seq<Share>,
                       signR: int, signS: int, px: Point -> int, q: Prime, t: int, kr: nat)
    requires Consistent(points, sShares, krShares, signR, signS, px, q, t, kr)
    ensures Recover(Logs(points), q) == Some(t) && px(Times(t, G(q), q)) % q == signR
    ensures Recover(sShares, q) == Some(signS) && Recover(krShares, q) == Some(kr)
  {
  }

  // ---- What a trace holds ------------------------------------------------------------

  /** For every node, in some order, the number that it sent in clear in round r. */
  ghost predicate TracedValues(c: Session, w: World<Memory, Packet>, r: nat, nodes: seq<nat>, shares: seq<Share>)
    requires c.Valid()
  {
    && Shaped(Nodes(c), w) && Enumerates(nodes, |c.xs|) && |shares| == |nodes|
    && forall n :: 0 <= n < |nodes| ==>
         && shares[n].x == c.xs[nodes[n]]
         && exists b :: 0 <= b < |c.xs| && b != nodes[n] && |w.wire[nodes[n]][b]| > r
                        && w.wire[nodes[n]][b][r] == Clear(shares[n].y)
  }

  ghost predicate TracedPoints(c: Session, w: World<Memory, Packet>, r: nat, nodes: seq<nat>, points: seq<PointShare>)
    requires c.Valid()
  {
    && Shaped(Nodes(c), w) && Enumerates(nodes, |c.xs|) && |points| == |nodes|
    && forall n :: 0 <= n < |nodes| ==>
         && points[n].x == c.xs[nodes[n]]
         && exists b :: 0 <= b < |c.xs| && b != nodes[n] && |w.wire[nodes[n]][b]| > r
                        && w.wire[nodes[n]][b][r] == ClearPoint(points[n].pt)
  }

  lemma TracedAbscissas(c: Session, nodes: seq<nat>, shares: seq<Share>)
    requires c.Valid() && Enumerates(nodes, |c.xs|) && |shares| == |nodes|
    requires forall n :: 0 <= n < |nodes| ==> shares[n].x == c.xs[nodes[n]]
    ensures Distinct(Abscissas(shares), c.q) && |shares| == |c.xs|
  {
    AllNodesCount(nodes, |c.xs|);
    forall i, j | 0 <= i < j < |shares|
      ensures !Cong(Abscissas(shares)[i], Abscissas(shares)[j], c.q)
    {
      assert nodes[i] < nodes[j] || nodes[j] < nodes[i];
    }
  }

  /** The numbers opened in the round of the product recover to it. */
  lemma TracedProduct(c: Session, key: Poly, w: World<Memory, Packet>, nodes: seq<nat>, shares: seq<Share>)
    requires c.Valid() && c.Shares(key) && Completed(c, key, w)
    requires TracedValues(c, w, 2 * c.k + 3, nodes, shares)
    ensures Recover(shares, c.q) == Some(c.Opened())
  {
    var r := 2 * c.k + 3;
    TracedAbscissas(c, nodes, shares);
    EarlyRounds(c, r);
    forall n | 0 <= n < |shares|
      ensures Cong(shares[n].y, Eval(c.MaskedNonce(), shares[n].x), c.q)
    {
      var a := nodes[n];
      var b :| 0 <= b < |c.xs| && b != a && |w.wire[a][b]| > r && w.wire[a][b][r] == Clear(shares[n].y);
      OpenedOnWire(c, key, w, a, b, r);
      assert c.EarlyMemory(r, a, Memories(c, r)[a]);
      CongMod(Eval(c.MaskedNonce(), c.xs[a]), c.q);
    }
    RecoverExact(shares, c.MaskedNonce(), c.q);
  }

  lemma OpenedOnWire(c: Session, key: Poly, w: World<Memory, Packet>, a: nat, b: nat, r: nat)
    requires c.Valid() && c.Shares(key) && Completed(c, key, w) && a < |c.xs| && b < |c.xs| && a != b
    requires r == 2 * c.k + 3 || (r == 3 * c.k + 4 && !Cong(c.Opened(), 0, c.q))
    ensures |w.wire[a][b]| > r && w.wire[a][b][r] == Clear(Memories(c, r)[a].hidden)
  {
    WirePacket(c, key, w, a, b, r);
  }

  /** Those of the last round recover to the second half of the signature. */
  lemma TracedSignature(c: Session, key: Poly, w: World<Memory, Packet>, nodes: seq<nat>, shares: seq<Share>)
    requires c.Valid() && c.Shares(key) && Completed(c, key, w) && !Cong(c.Opened(), 0, c.q)
    requires TracedValues(c, w, 3 * c.k + 4, nodes, shares)
    ensures Recover(shares, c.q) == Some(SignatureValue(c, key))
  {
    var r := 3 * c.k + 4;
    TracedAbscissas(c, nodes, shares);
    LateRounds(c, key, r);
    forall n | 0 <= n < |shares|
      ensures Cong(shares[n].y, Eval(c.SignaturePoly(key), shares[n].x), c.q)
    {
      var a := nodes[n];
      var b :| 0 <= b < |c.xs| && b != a && |w.wire[a][b]| > r && w.wire[a][b][r] == Clear(shares[n].y);
      OpenedOnWire(c, key, w, a, b, r);
      assert c.LateMemory(key, r, a, Memories(c, r)[a]);
      CongMod(Eval(c.SignaturePoly(key), c.xs[a]), c.q);
    }
    RecoverExact(shares, c.SignaturePoly(key), c.q);
  }

  /** A node's point in the points round is its share of the nonce times the generator. */
  lemma PointOnWire(c: Session, key: Poly, w: World<Memory, Packet>, a: nat, b: nat)
    requires c.Valid() && c.Shares(key) && Completed(c, key, w) && a < |c.xs| && b < |c.xs| && a != b
    ensures |w.wire[a][b]| > c.k + 1
    ensures w.wire[a][b][c.k + 1] == ClearPoint(Point(Eval(c.Nonce(), c.xs[a]) % c.q))
  {
    var r := c.k + 1;
    WirePacket(c, key, w, a, b, r);
    EarlyRounds(c, r);
    assert c.EarlyMemory(r, a, Memories(c, r)[a]);
    TimesGenerator(Eval(c.Nonce(), c.xs[a]) % c.q, c.q);
    CongMod(Eval(c.Nonce(), c.xs[a]), c.q);
  }

  /** The points recover to the logarithm of the published point. */
  lemma TracedNonce(c: Session, key: Poly, w: World<Memory, Packet>, nodes: seq<nat>, points: seq<PointShare>)
    requires c.Valid() && c.Shares(key) && Completed(c, key, w)
    requires TracedPoints(c, w, c.k + 1, nodes, points)
    ensures Recover(Logs(points), c.q) == Some(Eval(c.Nonce(), 0) % c.q)
  {
    var shares := Logs(points);
    TracedAbscissas(c, nodes, shares);
    forall n | 0 <= n < |shares|
      ensures Cong(shares[n].y, Eval(c.Nonce(), shares[n].x), c.q)
    {
      var a := nodes[n];
      var b :| 0 <= b < |c.xs| && b != a && |w.wire[a][b]| > c.k + 1
               && w.wire[a][b][c.k + 1] == ClearPoint(points[n].pt);
      PointOnWire(c, key, w, a, b);
      CongMod(Eval(c.Nonce(), c.xs[a]), c.q);
    }
    RecoverExact(shares, c.Nonce(), c.q);
  }

  /** So the identity, which the program cannot send, is due in the points round exactly
      from the nodes whose share of the nonce vanishes. */
  lemma IdentityOnWire(c: Session, key: Poly, w: World<Memory, Packet>, a: nat, b: nat)
    requires c.Valid() && c.Shares(key) && Completed(c, key, w) && a < |c.xs| && b < |c.xs| && a != b
    ensures |w.wire[a][b]| > c.k + 1
    ensures w.wire[a][b][c.k + 1] == ClearPoint(IDENTITY) <==> Cong(Eval(c.Nonce(), c.xs[a]), 0, c.q)
  {
    PointOnWire(c, key, w, a, b);
    ModIsRemainder(0, c.q, 0, 0);
  }

  /** And nothing else travels in clear: only the points, and the numbers of the two
      openings. */
  lemma ClearExactly(c: Session, key: Poly, w: World<Memory, Packet>, a: nat, b: nat, r: nat)
    requires c.Valid() && c.Shares(key) && Completed(c, key, w) && a < |c.xs| && b < |c.xs| && a != b
    requires r < |w.wire[a][b]|
    ensures w.wire[a][b][r].ClearPoint? <==> r == c.k + 1
    ensures w.wire[a][b][r].Clear? <==> r == 2 * c.k + 3 || r == 3 * c.k + 4
  {
    hide Session.Opened, Absorb;
    WirePacket(c, key, w, a, b, r);
  }

  // ---- From a run to the key ----------------------------------------------------------

  /** Whether the search finds the nonce: its length, and the part u of the opened value
      beyond the limit of trial division; and whether the formula can be used. */
  ghost predicate Findable(c: Session, u: int)
    requires c.Valid()
  {
    Accepted(NonceValue(c), PublishedPoint(c), c.q) && Separated(u, NonceValue(c)) && !Cong(c.R(), 0, c.q)
  }

  /** Main result: from the clear packets of any finished run with 64-bit coefficients and
      the signature that any node returned, the program finds the key that all nodes share
      if the nonce has 62 to 74 bits, the part of the opened value beyond the limit of
      trial division divides it or is coprime to it, and r is not 0; and none if not. */
  method KeyOfRun(ghost c: Session, ghost key: Poly, ghost ws: seq<World<Memory, Packet>>, ghost es: seq<Step>,
                  ghost nodes: seq<seq<nat>>, ghost a: nat,
                  points: seq<PointShare>, sShares: seq<Share>, krShares: seq<Share>,
                  signR: int, signS: int, z: int, px: Point -> int, q: Prime) returns (d: Option<int>)
    requires c.Valid() && c.Shares(key) && c.q == q && c.z == z && c.px == px
    requires forall i, r :: 0 <= i < |c.xs| && 0 <= r < 3 * c.k + 5 ==>
               0 <= c.coins[i][r][0] < 0x1_0000_0000_0000_0000
    requires (|c.xs| * 0x1_0000_0000_0000_0000) * (|c.xs| * 0x1_0000_0000_0000_0000) <= q
    requires Run(Nodes(c), ws, es) && Shaped(Nodes(c), ws[|es|]) && Stopped(Nodes(c), ws[|es|])
    requires |nodes| == 3 && a < |c.xs|
    requires TracedPoints(c, ws[|es|], c.k + 1, nodes[0], points)
    requires TracedValues(c, ws[|es|], 2 * c.k + 3, nodes[1], krShares)
    requires TracedValues(c, ws[|es|], 3 * c.k + 4, nodes[2], sShares)
    requires ws[|es|].procs[a].st.r == signR && ws[|es|].procs[a].st.signature == Some(signS)
    ensures forall u :: LargePart(c.Opened(), u) ==>
              d == if Findable(c, u) then Some(Eval(key, 0) % q) else None
  {
    hide Consistent, FoundExactly, SmallSession, Recover, TracedPoints, TracedValues, Run, Stopped, Findable, LargePart;
    SmallByNumbers(c);
    d := SolveSignature(points, sShares, krShares, signR, signS, z, px, q);
    RunIsConsistent(c, key, ws, es, nodes, a, points, sShares, krShares, signR, signS);
    OpenedNotNegative(c);
    RunReveals(c, key, d);
  }

  lemma SmallByNumbers(c: Session)
    requires c.Valid()
    requires forall i, r :: 0 <= i < |c.xs| && 0 <= r < 3 * c.k + 5 ==>
               0 <= c.coins[i][r][0] < 0x1_0000_0000_0000_0000
    requires (|c.xs| * 0x1_0000_0000_0000_0000) * (|c.xs| * 0x1_0000_0000_0000_0000) <= c.q
    ensures SmallSession(c)
  {
  }

  lemma OpenedNotNegative(c: Session)
    requires c.Valid()
    ensures c.Opened() >= 0
  {
  }

  lemma RunIsConsistent(c: Session, key: Poly, ws: seq<World<Memory, Packet>>, es: seq<Step>, nodes: seq<seq<nat>>,
                        a: nat, points: seq<PointShare>, sShares: seq<Share>, krShares: seq<Share>,
                        signR: int, signS: int)
    requires c.Valid() && c.Shares(key)
    requires Run(Nodes(c), ws, es) && Shaped(Nodes(c), ws[|es|]) && Stopped(Nodes(c), ws[|es|])
    requires |nodes| == 3 && a < |c.xs|
    requires TracedPoints(c, ws[|es|], c.k + 1, nodes[0], points)
    requires TracedValues(c, ws[|es|], 2 * c.k + 3, nodes[1], krShares)
    requires TracedValues(c, ws[|es|], 3 * c.k + 4, nodes[2], sShares)
    requires ws[|es|].procs[a].st.r == signR && ws[|es|].procs[a].st.signature == Some(signS)
    ensures !Cong(c.Opened(), 0, c.q) && c.Opened() >= 0 && signR == c.R() && signS == SignatureValue(c, key)
    ensures Consistent(points, sShares, krShares, signR, signS, c.px, c.q, Eval(c.Nonce(), 0) % c.q, c.Opened())
  {
    hide TracedPoints, TracedValues, Recover, Session.Opened, Session.R, Stopped, Completed, Outcome, SignatureValue;
    var w := ws[|es|];
    OpenedNotNegative(c);
    StoppedIsCompleted(c, key, ws, es);
    SignatureOfRun(c, key, ws, es, a);
    TracedNonce(c, key, w, nodes[0], points);
    TracedProduct(c, key, w, nodes[1], krShares);
    TracedSignature(c, key, w, nodes[2], sShares);
    FirstHalf(c);
  }

  lemma FirstHalf(c: Session)
    requires c.Valid()
    ensures c.px(Times(Eval(c.Nonce(), 0) % c.q, G(c.q), c.q)) % c.q == c.R()
  {
    TimesGenerator(Eval(c.Nonce(), 0) % c.q, c.q);
    CongMod(Eval(c.Nonce(), 0), c.q);
  }

  /** What every node of a finished run returns. */
  lemma SignatureOfRun(c: Session, key: Poly, ws: seq<World<Memory, Packet>>, es: seq<Step>, a: nat)
    requires c.Valid() && c.Shares(key) && Run(Nodes(c), ws, es) && a < |c.xs|
    requires Shaped(Nodes(c), ws[|es|]) && Stopped(Nodes(c), ws[|es|])
    ensures var m := ws[|es|].procs[a].st;
            if Cong(c.Opened(), 0, c.q) then m.raised && m.signature == None
            else m.r == c.R() && m.signature == Some(SignatureValue(c, key))
  {
    hide Run, Stopped, SignatureValue;
    EveryRunSigns(c, key, ws, es);
    OpenedIsProduct(c);
    CongMod(MaskValue(c) * NonceValue(c), c.q);
    MulComm(MaskValue(c), NonceValue(c));
    NonceAtZero(c);
    TimesGenerator(NonceValue(c), c.q);
  }

  lemma RunReveals(c: Session, key: Poly, d: Option<int>)
    requires c.Valid() && c.Shares(key) && SmallSession(c) && c.Opened() >= 0 && !Cong(c.Opened(), 0, c.q)
    requires FoundExactly(d, c.Opened(), PublishedPoint(c), c.R(), SignatureValue(c, key), c.z, c.q)
    ensures forall u :: LargePart(c.Opened(), u) ==> d == if Findable(c, u) then Some(Eval(key, 0) % c.q) else None
  {
    hide LargePart, Separated, Accepted, Session.Opened, Session.R, SignatureValue, PublishedPoint, SmallSession,
         FoundExactly, NonceValue, IsLogarithm, Signs, Pow;
    SessionRevealsNonce(c, key);
    UseFound(d, c.Opened(), PublishedPoint(c), c.R(), SignatureValue(c, key), c.z, c.q, NonceValue(c), Eval(key, 0));
  }
}

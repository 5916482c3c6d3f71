/** The imperative node inside the network: fed with the packets that a completed run
    delivers to it, it reads exactly those, sends exactly what the run shows on its
    outgoing channels, and ends with the run's result. */
module SmpcDelivery {
  import opened ModArith
  import opened Polynomial
  import opened Shamir
  import opened SmpcProgram
  import opened SmpcLockstep
  import opened Network
  import opened SmpcSigning
  import opened SmpcNode

  /** What a run has written to the channels that node i reads, in channel order. */
  ghost function Deliveries(c: Session, w: World<Memory, Packet>, i: nat): (incoming: seq<seq<Packet>>)
    requires c.Valid() && Shaped(Nodes(c), w) && i < |c.xs|
    ensures |incoming| == |c.order[i]|
    ensures forall p :: 0 <= p < |incoming| ==>
              c.order[i][p] < |c.xs| && incoming[p] == w.wire[c.order[i][p]][i]
  {
    assert c.PeersOf(c.order[i], i);
    seq(|c.order[i]|, p requires 0 <= p < |c.order[i]| => w.wire[c.order[i][p]][i])
  }

  /** The world of a completed run, as far as the channels go. */
  ghost predicate Completed(c: Session, key: Poly, w: World<Memory, Packet>)
    requires c.Valid() && c.Shares(key)
  {
    && Shaped(Nodes(c), w)
    && forall a, b :: 0 <= a < |c.xs| && 0 <= b < |c.xs| && a != b ==>
         && |w.wire[a][b]| == Duration(c)
         && forall r :: 0 <= r < Duration(c) ==> w.wire[a][b][r] == Nodes(c).LockstepPacket(r, a, b)
  }

  lemma StoppedIsCompleted(c: Session, key: Poly, ws: seq<World<Memory, Packet>>, es: seq<Step>)
    requires c.Valid() && c.Shares(key) && Run(Nodes(c), ws, es)
    requires Shaped(Nodes(c), ws[|es|]) && Stopped(Nodes(c), ws[|es|])
    ensures Completed(c, key, ws[|es|])
  {
    hide Session.Opened, Duration, Stopped;
    NodesMeshed(c);
    SessionStops(c, key);
    StoppedOutcome(Nodes(c), ws, es, |es|, Duration(c));
  }

  lemma DeliveriesEnough(c: Session, key: Poly, w: World<Memory, Packet>, i: nat)
    requires c.Valid() && c.Shares(key) && Completed(c, key, w) && i < |c.xs|
    ensures Enough(Deliveries(c, w, i), Duration(c))
    ensures c.InputsOf(i).Valid() && |c.InputsOf(i).peers| == |c.order[i]|
    ensures c.InputsOf(i).k == c.k
  {
    assert c.PeersOf(c.order[i], i) && c.Drawn(c.coins[i]);
  }

  lemma RowIsInbox(c: Session, key: Poly, w: World<Memory, Packet>, i: nat, r: nat)
    requires c.Valid() && c.Shares(key) && Completed(c, key, w) && i < |c.xs| && r < Duration(c)
    ensures Row(Deliveries(c, w, i), r) == Nodes(c).LockstepInbox(r, i)
  {
    var row, inbox := Row(Deliveries(c, w, i), r), Nodes(c).LockstepInbox(r, i);
    assert Nodes(c).order(i) == c.order[i];
    forall p | 0 <= p < |c.order[i]|
      ensures row[p] == inbox[p]
    {
      assert c.PeersOf(c.order[i], i);
      assert w.wire[c.order[i][p]][i][r] == Nodes(c).LockstepPacket(r, c.order[i][p], i);
    }
  }

  /** After reading r rounds of deliveries the node's memory is the network's. */
  lemma {:induction false} NodeFollowsNetwork(c: Session, key: Poly, w: World<Memory, Packet>, i: nat, r: nat)
    requires c.Valid() && c.Shares(key) && Completed(c, key, w) && i < |c.xs| && r <= Duration(c)
    ensures Complete(c.InputsOf(i), Rows(Deliveries(c, w, i), r))
    ensures MemoryAfter(c.InputsOf(i), Rows(Deliveries(c, w, i), r)) == Nodes(c).Lockstep(r, i)
  {
    hide Absorb, Outgoing, Session.Opened, Row, Rows, Program.Lockstep, Program.LockstepInbox;
    var n, incoming := c.InputsOf(i), Deliveries(c, w, i);
    DeliveriesEnough(c, key, w, i);
    RowsComplete(n, incoming, r);
    StartsBlank(c, i);
    NoRows(incoming);
    if r > 0 {
      NodeFollowsNetwork(c, key, w, i, r - 1);
      RunsUntil(c, key, r - 1, i);
      RowIsInbox(c, key, w, i, r - 1);
      RowsNext(incoming, r - 1);
      MemoryNext(n, Rows(incoming, r - 1), Row(incoming, r - 1));
      LockstepAbsorbs(c, r - 1, i);
    }
  }

  lemma StartsBlank(c: Session, i: nat)
    requires c.Valid()
    ensures Nodes(c).Lockstep(0, i) == BLANK
  {
  }

  lemma LockstepAbsorbs(c: Session, r: nat, i: nat)
    requires c.Valid() && r < Rounds(c.k) && i < |c.xs| && Nodes(c).Lockstep(r, i).Running()
    ensures Nodes(c).Lockstep(r + 1, i)
         == Absorb(c.InputsOf(i), r, Nodes(c).Lockstep(r, i), Nodes(c).LockstepInbox(r, i))
  {
    var p := Nodes(c);
    assert p.order(i) == c.order[i];
    assert p.Lockstep(r + 1, i) == p.absorb(i, r, p.Lockstep(r, i), p.LockstepInbox(r, i));
  }

  lemma WirePacket(c: Session, key: Poly, w: World<Memory, Packet>, a: nat, b: nat, r: nat)
    requires c.Valid() && c.Shares(key) && Completed(c, key, w) && a < |c.xs| && b < |c.xs| && a != b
    requires r < Duration(c)
    ensures w.wire[a][b][r] == Outgoing(c.InputsOf(a), r, Nodes(c).Lockstep(r, a), c.xs[b])
  {
    assert w.wire[a][b][r] == Nodes(c).LockstepPacket(r, a, b);
  }

  /** What the node sends to a peer is what the run shows on that channel. */
  lemma NodeSendsWire(c: Session, key: Poly, w: World<Memory, Packet>, i: nat, p: nat, r: nat)
    requires c.Valid() && c.Shares(key) && Completed(c, key, w) && i < |c.xs| && p < |c.order[i]|
    requires r < Duration(c)
    ensures c.order[i][p] < |c.xs| && c.order[i][p] != i
    ensures Complete(c.InputsOf(i), Rows(Deliveries(c, w, i), Duration(c)))
    ensures SentTo(c.InputsOf(i), Rows(Deliveries(c, w, i), Duration(c)), p)[r] == w.wire[i][c.order[i][p]][r]
  {
    var n, incoming := c.InputsOf(i), Deliveries(c, w, i);
    DeliveriesEnough(c, key, w, i);
    NodeFollowsNetwork(c, key, w, i, Duration(c));
    NodeFollowsNetwork(c, key, w, i, r);
    RowsPrefix(incoming, Duration(c), r);
    SentInRound(n, Rows(incoming, Duration(c)), p, r);
    assert c.PeersOf(c.order[i], i);
    WirePacket(c, key, w, i, c.order[i][p], r);
  }

  /** The deliveries of a completed run are what the signing method asks for, and
      the memory after them is the run's outcome at this node. */
  lemma DeliveriesSuffice(c: Session, key: Poly, ws: seq<World<Memory, Packet>>, es: seq<Step>, i: nat)
    requires c.Valid() && c.Shares(key) && Run(Nodes(c), ws, es) && i < |c.xs|
    requires Shaped(Nodes(c), ws[|es|]) && Stopped(Nodes(c), ws[|es|])
    ensures var n, incoming := c.InputsOf(i), Deliveries(c, ws[|es|], i);
            && n.Valid()
            && Enough(incoming, 2 * n.k + 4)
            && (RaisesWithin(n, [], incoming, 2 * n.k + 4) || Enough(incoming, Rounds(n.k)))
            && Enough(incoming, Duration(c)) && Complete(n, Rows(incoming, Duration(c)))
            && MemoryAfter(n, Rows(incoming, Duration(c))) == ws[|es|].procs[i].st
  {
    hide Absorb, Outgoing, MemoryAfter, Stopped, Session.Opened, Row;
    hide Program.Lockstep, Program.StopsAfter, Program.Meshed;
    var n, w := c.InputsOf(i), ws[|es|];
    var incoming := Deliveries(c, w, i);
    StoppedIsCompleted(c, key, ws, es);
    DeliveriesEnough(c, key, w, i);
    NodeFollowsNetwork(c, key, w, i, Duration(c));
    NodesMeshed(c);
    SessionStops(c, key);
    StoppedOutcome(Nodes(c), ws, es, |es|, Duration(c));
    if Cong(c.Opened(), 0, c.q) {
      RaisedRound(c, key, i);
      assert [] + Rows(incoming, 2 * n.k + 4) == Rows(incoming, Duration(c));
    }
  }

  lemma OpenedVanishes(c: Session)
    requires c.Valid()
    ensures Cong(c.Opened(), 0, c.q) <==> Cong(NonceValue(c) * MaskValue(c), 0, c.q)
  {
    hide Session.Opened, MaskValue, NonceValue;
    OpenedIsProduct(c);
    CongMod(MaskValue(c) * NonceValue(c), c.q);
    MulComm(MaskValue(c), NonceValue(c));
  }

  /** When a node's program raises, in terms of the run. */
  lemma RaisesExactly(c: Session, key: Poly, ws: seq<World<Memory, Packet>>, es: seq<Step>, i: nat)
    requires c.Valid() && c.Shares(key) && Run(Nodes(c), ws, es) && i < |c.xs|
    requires Shaped(Nodes(c), ws[|es|]) && Stopped(Nodes(c), ws[|es|])
    ensures var n, incoming := c.InputsOf(i), Deliveries(c, ws[|es|], i);
            n.Valid() && if Cong(NonceValue(c) * MaskValue(c), 0, c.q)
            then RaisesWithin(n, [], incoming, 2 * n.k + 4)
            else !RaisesWithin(n, [], incoming, 2 * n.k + 4) && !RaisesWithin(n, [], incoming, Rounds(n.k))
                 && Enough(incoming, Rounds(n.k)) && Complete(n, Rows(incoming, Rounds(n.k)))
                 && MemoryAfter(n, Rows(incoming, Rounds(n.k))) == ws[|es|].procs[i].st
  {
    hide Stopped, MemoryAfter, Session.Opened, Deliveries, SignatureValue, Rows, MaskValue, NonceValue, Cong, Row;
    var n, incoming := c.InputsOf(i), Deliveries(c, ws[|es|], i);
    DeliveriesSuffice(c, key, ws, es, i);
    EveryRunSigns(c, key, ws, es);
    OpenedVanishes(c);
    assert [] + Rows(incoming, Duration(c)) == Rows(incoming, Duration(c));
    if !Cong(c.Opened(), 0, c.q) && RaisesWithin(n, [], incoming, 2 * n.k + 4) {
      RaisesLater(n, [], incoming, 2 * n.k + 4, n.k + 1);
    }
  }

  /** The signing method on what a finished run delivers to node i: it raises exactly
      when nonce times mask vanishes, and otherwise returns the run's signature, which
      verifies under the public key exactly when neither half is 0. */
  method SignInRun(ghost c: Session, ghost key: Poly, ghost ws: seq<World<Memory, Packet>>, ghost es: seq<Step>,
                   ghost i: nat, n: Inputs, incoming: seq<seq<Packet>>) returns (v: Option<(int, int)>)
    requires c.Valid() && c.Shares(key) && Run(Nodes(c), ws, es) && i < |c.xs|
    requires Shaped(Nodes(c), ws[|es|]) && Stopped(Nodes(c), ws[|es|])
    requires n == c.InputsOf(i) && incoming == Deliveries(c, ws[|es|], i)
    ensures v.None? <==> Cong(NonceValue(c) * MaskValue(c), 0, c.q)
    ensures v.Some? ==> ws[|es|].procs[i].st.r == v.value.0 && ws[|es|].procs[i].st.signature == Some(v.value.1)
    ensures v.Some? ==>
              (Verifies(c.q, c.px, Times(Eval(key, 0), G(c.q), c.q), c.z, v.value.0, v.value.1)
               <==> v.value.0 != 0 && v.value.1 != 0)
  {
    hide Run, Stopped, MemoryAfter, Session.Opened, Deliveries, Verifies;
    DeliveriesSuffice(c, key, ws, es, i);
    RaisesExactly(c, key, ws, es, i);
    var node := new Node(n, incoming);
    NothingSoFar(n);
    v := node.SmpcSign();
    assert [] + Rows(incoming, 2 * n.k + 4) == Rows(incoming, 2 * n.k + 4);
    if v.Some? {
      assert [] + Rows(incoming, Rounds(n.k)) == Rows(incoming, Rounds(n.k));
      if RaisesWithin(n, [], incoming, 2 * n.k + 4) {
        RaisesLater(n, [], incoming, 2 * n.k + 4, n.k + 1);
      }
    }
    if !Cong(NonceValue(c) * MaskValue(c), 0, c.q) {
      EveryRunVerifies(c, key, ws, es, i);
    }
  }

  lemma NothingSoFar(n: Inputs)
    requires n.Valid()
    ensures MemoryAfter(n, []) == BLANK
  {
  }
}

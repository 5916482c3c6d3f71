/** A signing node as the imperative program that it is: loops over its channels and
    over coefficients, composed in sequence. Each method is tied to the round program
    of SmpcProgram: it sends what Outgoing says and computes what Absorb says. */
module SmpcNode {
  import opened ModArith
  import opened Polynomial
  import opened Shamir
  import opened SmpcProgram

  // ---- What a node has received, round by round ---------------------------------

  /** A node's memory after the rounds whose packets are in h. */
  ghost function MemoryAfter(n: Inputs, h: seq<seq<Packet>>): Memory
    requires n.Valid() && Complete(n, h)
  {
    if h == [] then BLANK
    else
      var m := MemoryAfter(n, h[..|h| - 1]);
      if m.Running() then Absorb(n, |h| - 1, m, h[|h| - 1]) else m
  }

  ghost predicate Complete(n: Inputs, h: seq<seq<Packet>>) {
    |h| <= Rounds(n.k) && forall r :: 0 <= r < |h| ==> |h[r]| == |n.peers|
  }

  /** What a node sends to peer p in the rounds up to those in h. */
  ghost function SentTo(n: Inputs, h: seq<seq<Packet>>, p: nat): (s: seq<Packet>)
    requires n.Valid() && Complete(n, h) && p < |n.peers|
    ensures |s| == |h|
  {
    if h == [] then []
    else
      var past := h[..|h| - 1];
      SentTo(n, past, p) + [Outgoing(n, |past|, MemoryAfter(n, past), n.peers[p])]
  }

  /** The i-th packet to arrive on each channel. */
  ghost function Row(incoming: seq<seq<Packet>>, i: nat): (row: seq<Packet>)
    requires forall p :: 0 <= p < |incoming| ==> i < |incoming[p]|
    ensures |row| == |incoming| && forall p :: 0 <= p < |row| ==> row[p] == incoming[p][i]
  {
    seq(|incoming|, p requires 0 <= p < |incoming| => incoming[p][i])
  }

  ghost function Rows(incoming: seq<seq<Packet>>, t: nat): (rows: seq<seq<Packet>>)
    requires forall p :: 0 <= p < |incoming| ==> t <= |incoming[p]|
    ensures |rows| == t && forall i :: 0 <= i < t ==> rows[i] == Row(incoming, i)
  {
    seq(t, i requires 0 <= i < t => Row(incoming, i))
  }

  ghost function Dropped(incoming: seq<seq<Packet>>, t: nat): (rest: seq<seq<Packet>>)
    requires forall p :: 0 <= p < |incoming| ==> t <= |incoming[p]|
    ensures |rest| == |incoming|
    ensures forall p :: 0 <= p < |rest| ==> rest[p] == incoming[p][t..]
  {
    seq(|incoming|, p requires 0 <= p < |incoming| => incoming[p][t..])
  }

  lemma RowsSplit(incoming: seq<seq<Packet>>, t: nat, u: nat)
    requires forall p :: 0 <= p < |incoming| ==> t + u <= |incoming[p]|
    ensures Rows(incoming, t + u) == Rows(incoming, t) + Rows(Dropped(incoming, t), u)
    ensures Dropped(incoming, t + u) == Dropped(Dropped(incoming, t), u)
  {
    var dropped := Dropped(incoming, t);
    forall i | 0 <= i < u
      ensures Row(dropped, i) == Row(incoming, t + i)
    {
      RowOfDropped(incoming, t, i);
    }
    var all, first, rest := Rows(incoming, t + u), Rows(incoming, t), Rows(dropped, u);
    forall i | 0 <= i < t + u
      ensures all[i] == (first + rest)[i]
    {
      if i >= t {
        assert rest[i - t] == Row(dropped, i - t);
      }
    }
  }

  lemma RowOfDropped(incoming: seq<seq<Packet>>, t: nat, i: nat)
    requires forall p :: 0 <= p < |incoming| ==> t + i < |incoming[p]|
    ensures Row(Dropped(incoming, t), i) == Row(incoming, t + i)
  {
  }

  lemma RowsComplete(n: Inputs, incoming: seq<seq<Packet>>, t: nat)
    requires |incoming| == |n.peers| && forall p :: 0 <= p < |incoming| ==> t <= |incoming[p]|
    ensures forall r :: 0 <= r < t ==> |Rows(incoming, t)[r]| == |n.peers|
  {
  }

  /** Once raised, a program stays so. */
  lemma {:induction false} RaisedStays(n: Inputs, h: seq<seq<Packet>>, more: seq<seq<Packet>>)
    requires n.Valid() && Complete(n, h + more) && Complete(n, h) && MemoryAfter(n, h).raised
    ensures MemoryAfter(n, h + more).raised
  {
    if more == [] {
      assert h + more == h;
    } else {
      var less := more[..|more| - 1];
      assert (h + more)[..|h + more| - 1] == h + less;
      RaisedStays(n, h, less);
    }
  }

  lemma MemoryNext(n: Inputs, h: seq<seq<Packet>>, row: seq<Packet>)
    requires n.Valid() && Complete(n, h) && |h| < Rounds(n.k) && |row| == |n.peers|
    requires MemoryAfter(n, h).Running()
    ensures Complete(n, h + [row])
    ensures MemoryAfter(n, h + [row]) == Absorb(n, |h|, MemoryAfter(n, h), row)
    ensures forall p :: 0 <= p < |n.peers| ==>
              SentTo(n, h + [row], p) == SentTo(n, h, p) + [Outgoing(n, |h|, MemoryAfter(n, h), n.peers[p])]
  {
    assert (h + [row])[..|h + [row]| - 1] == h;
  }

  /** The packet sent in round r depends on what came before round r. */
  lemma {:induction false} SentInRound(n: Inputs, h: seq<seq<Packet>>, p: nat, r: nat)
    requires n.Valid() && Complete(n, h) && p < |n.peers| && r < |h|
    ensures Complete(n, h[..r])
    ensures SentTo(n, h, p)[r] == Outgoing(n, r, MemoryAfter(n, h[..r]), n.peers[p])
  {
    if r < |h| - 1 {
      SentInRound(n, h[..|h| - 1], p, r);
      assert h[..|h| - 1][..r] == h[..r];
    }
  }

  lemma RowsPrefix(incoming: seq<seq<Packet>>, t: nat, r: nat)
    requires r <= t && Enough(incoming, t)
    ensures Rows(incoming, t)[..r] == Rows(incoming, r)
  {
  }

  lemma NoRows(incoming: seq<seq<Packet>>)
    ensures Rows(incoming, 0) == [] && Dropped(incoming, 0) == incoming
  {
  }

  lemma RowsNext(incoming: seq<seq<Packet>>, r: nat)
    requires Enough(incoming, r + 1)
    ensures Rows(incoming, r + 1) == Rows(incoming, r) + [Row(incoming, r)]
  {
  }

  /** The packets of t rounds are going to arrive. */
  ghost predicate Enough(incoming: seq<seq<Packet>>, t: nat) {
    forall p :: 0 <= p < |incoming| ==> t <= |incoming[p]|
  }

  /** t rounds after history h, with incoming still to come, the program has raised. */
  ghost predicate RaisesWithin(n: Inputs, h: seq<seq<Packet>>, incoming: seq<seq<Packet>>, t: nat) {
    && n.Valid() && Enough(incoming, t)
    && Complete(n, h + Rows(incoming, t))
    && MemoryAfter(n, h + Rows(incoming, t)).raised
  }

  lemma RaisesLater(n: Inputs, h: seq<seq<Packet>>, incoming: seq<seq<Packet>>, t: nat, u: nat)
    requires RaisesWithin(n, h, incoming, t) && |incoming| == |n.peers|
    requires Enough(incoming, t + u) && |h| + t + u <= Rounds(n.k)
    ensures RaisesWithin(n, h, incoming, t + u)
  {
    RowsSplit(incoming, t, u);
    RowsComplete(n, Dropped(incoming, t), u);
    var past, more := h + Rows(incoming, t), Rows(Dropped(incoming, t), u);
    assert h + Rows(incoming, t + u) == past + more;
    forall r | 0 <= r < |past + more|
      ensures |(past + more)[r]| == |n.peers|
    {
    }
    RaisedStays(n, past, more);
  }

  lemma RaisesFromEarlier(n: Inputs, h: seq<seq<Packet>>, incoming: seq<seq<Packet>>, t: nat, u: nat)
    requires Enough(incoming, t + u)
    requires RaisesWithin(n, h + Rows(incoming, t), Dropped(incoming, t), u)
    ensures RaisesWithin(n, h, incoming, t + u)
  {
    RowsSplit(incoming, t, u);
    assert h + Rows(incoming, t + u) == h + Rows(incoming, t) + Rows(Dropped(incoming, t), u);
  }

  /** Raising in one of several rounds. */
  lemma RaisesMidway(n: Inputs, h: seq<seq<Packet>>, incoming: seq<seq<Packet>>, i: nat, count: nat)
    requires i < count && Enough(incoming, count) && |incoming| == |n.peers| && |h| + count <= Rounds(n.k)
    requires RaisesWithin(n, h + Rows(incoming, i), Dropped(incoming, i), 1)
    ensures RaisesWithin(n, h, incoming, count)
  {
    RaisesFromEarlier(n, h, incoming, i, 1);
    RaisesLater(n, h, incoming, i + 1, count - i - 1);
  }

  class Node {
    const n: Inputs
    var sent: seq<seq<Packet>>      // what has been written to each channel
    var incoming: seq<seq<Packet>>  // what each channel will still deliver
    var round: nat                  // position in the node's random draws
    ghost var history: seq<seq<Packet>>

    constructor (n: Inputs, incoming: seq<seq<Packet>>)
      requires n.Valid() && |incoming| == |n.peers|
      ensures Valid() && this.n == n && this.incoming == incoming && history == []
    {
      this.n := n;
      this.incoming := incoming;
      sent := seq(|n.peers|, (p: nat) => []);
      round := 0;
      history := [];
    }

    /** At the end of a round: everything sent is what the round program sends. */
    ghost predicate Valid()
      reads this
    {
      && n.Valid() && |sent| == |incoming| == |n.peers|
      && Complete(n, history) && round == |history|
      && forall p :: 0 <= p < |sent| ==> sent[p] == SentTo(n, history, p)
    }

    ghost function M(): Memory
      reads this
      requires Valid()
    {
      MemoryAfter(n, history)
    }

    /** The node is at the end of the t-th round after history h, where the packets
        incoming were still to come. */
    ghost predicate Reached(h: seq<seq<Packet>>, incoming: seq<seq<Packet>>, t: nat)
      reads this
    {
      && Valid() && Enough(incoming, t)
      && history == h + Rows(incoming, t)
      && this.incoming == Dropped(incoming, t)
    }

    lemma ReachedFurther(h: seq<seq<Packet>>, incoming: seq<seq<Packet>>, t: nat, u: nat)
      requires Enough(incoming, t + u) && Reached(h + Rows(incoming, t), Dropped(incoming, t), u)
      ensures Reached(h, incoming, t + u)
    {
      hide MemoryAfter, SentTo, Rows;
      RowsSplit(incoming, t, u);
      assert h + Rows(incoming, t + u) == h + Rows(incoming, t) + Rows(Dropped(incoming, t), u);
    }

    /** The round ahead of the node. */
    lemma NextRound()
      requires Valid() && Enough(incoming, 1) && round < Rounds(n.k) && M().Running()
      ensures Complete(n, history + Rows(incoming, 1))
      ensures Rows(incoming, 1) == [Row(incoming, 0)]
      ensures MemoryAfter(n, history + Rows(incoming, 1)) == Absorb(n, round, M(), Row(incoming, 0))
    {
      MemoryNext(n, history, Row(incoming, 0));
    }

    /** What one finished round leaves. */
    twostate lemma RoundDone()
      requires old(Valid() && Enough(incoming, 1) && round < Rounds(n.k) && M().Running())
      requires |sent| == |n.peers| && incoming == old(Dropped(incoming, 1))
      requires history == old(history + [Row(incoming, 0)]) && round == old(round) + 1
      requires forall p :: 0 <= p < |sent| ==>
                 sent[p] == old(sent[p]) + [Outgoing(n, old(round), old(M()), n.peers[p])]
      ensures Reached(old(history), old(incoming), 1)
      ensures M() == Absorb(n, old(round), old(M()), old(Row(incoming, 0)))
    {
      MemoryNext(n, old(history), old(Row(incoming, 0)));
      assert old(Rows(incoming, 1)) == [old(Row(incoming, 0))];
    }

    // ---- Sending and receiving in one round ---------------------------------------

    /** Sends to each peer the value of c at its abscissa. */
    method SendValues(c: Poly)
      requires |sent| == |n.peers|
      modifies this`sent
      ensures |sent| == |n.peers|
      ensures forall p :: 0 <= p < |sent| ==> sent[p] == old(sent[p]) + [Sealed(Eval(c, n.peers[p]) % n.q)]
    {
      var i := 0;
      while i < |n.peers|
        invariant 0 <= i <= |n.peers| && |sent| == |n.peers|
        invariant forall p :: 0 <= p < i ==> sent[p] == old(sent[p]) + [Sealed(Eval(c, n.peers[p]) % n.q)]
        invariant forall p :: i <= p < |sent| ==> sent[p] == old(sent[p])
      {
        var value := Evaluate(c, n.peers[i], n.q);
        sent := sent[i := sent[i] + [Sealed(value)]];
        i := i + 1;
      }
    }

    method SendToAll(packet: Packet)
      requires |sent| == |n.peers|
      modifies this`sent
      ensures |sent| == |n.peers|
      ensures forall p :: 0 <= p < |sent| ==> sent[p] == old(sent[p]) + [packet]
    {
      var i := 0;
      while i < |n.peers|
        invariant 0 <= i <= |n.peers| && |sent| == |n.peers|
        invariant forall p :: 0 <= p < i ==> sent[p] == old(sent[p]) + [packet]
        invariant forall p :: i <= p < |sent| ==> sent[p] == old(sent[p])
      {
        sent := sent[i := sent[i] + [packet]];
        i := i + 1;
      }
    }

    /** Receives one packet from each peer and adds the values to the node's own. */
    method ReceiveSum(own: int) returns (share: Option<int>)
      requires |incoming| == |n.peers| && Enough(incoming, 1)
      modifies this`incoming
      ensures share.None? <==> !AllSealed(old(Row(incoming, 0)))
      ensures share.Some? ==> incoming == old(Dropped(incoming, 1))
      ensures share.Some? ==> share.value == BiasedShare(own, old(Row(incoming, 0)), n.q)
    {
      var brng := own;
      ghost var row := Row(incoming, 0);
      var i := 0;
      while i < |n.peers|
        invariant 0 <= i <= |n.peers| && |incoming| == |n.peers|
        invariant forall p :: 0 <= p < i ==> incoming[p] == old(incoming[p][1..]) && row[p].Sealed?
        invariant forall p :: i <= p < |incoming| ==> incoming[p] == old(incoming[p])
        invariant brng == BiasedShare(own, row[..i], n.q)
      {
        var packet := incoming[i][0];
        if !packet.Sealed? {
          return None;
        }
        incoming := incoming[i := incoming[i][1..]];
        assert row[..i + 1][..i] == row[..i];
        brng := (brng + packet.value) % n.q;
        i := i + 1;
      }
      assert row[..i] == row;
      share := Some(brng);
    }

    /** Receives one share from each peer, sealed or in clear, and recovers. */
    method ReceiveAndRecover(own: int, clear: bool) returns (v: Option<int>)
      requires |incoming| == |n.peers| && Enough(incoming, 1)
      modifies this`incoming
      ensures var row := old(Row(incoming, 0));
              if (if clear then AllClear(row) else AllSealed(row))
              then v == Recover(SharesFrom(n.x, own, n.peers, row), n.q) && incoming == old(Dropped(incoming, 1))
              else v == None
    {
      var shares := [Share(n.x, own)];
      ghost var row := Row(incoming, 0);
      var i := 0;
      while i < |n.peers|
        invariant 0 <= i <= |n.peers| && |incoming| == |n.peers| && |shares| == i + 1
        invariant forall p :: 0 <= p < i ==>
                    incoming[p] == old(incoming[p][1..]) && (if clear then row[p].Clear? else row[p].Sealed?)
        invariant forall p :: i <= p < |incoming| ==> incoming[p] == old(incoming[p])
        invariant shares[0] == Share(n.x, own)
        invariant forall p :: 0 <= p < i ==> !row[p].ClearPoint? && shares[p + 1] == Share(n.peers[p], row[p].value)
      {
        var packet := incoming[i][0];
        if packet.ClearPoint? || packet.Clear? != clear {
          return None;
        }
        incoming := incoming[i := incoming[i][1..]];
        shares := shares + [Share(n.peers[i], packet.value)];
        i := i + 1;
      }
      assert shares == SharesFrom(n.x, own, n.peers, row);
      v := SssRecover(shares, n.q);
    }

    method ReceiveAndRecoverPoint(own: Point) returns (pt: Option<Point>)
      requires |incoming| == |n.peers| && Enough(incoming, 1)
      modifies this`incoming
      ensures var row := old(Row(incoming, 0));
              if AllPoints(row) then
                incoming == old(Dropped(incoming, 1)) &&
                match Recover(Logs(PointSharesFrom(n.x, own, n.peers, row)), n.q)
                case None => pt == None
                case Some(v) => pt == Some(Times(v, G(n.q), n.q))
              else pt == None
    {
      var shares := [PointShare(n.x, own)];
      ghost var row := Row(incoming, 0);
      var i := 0;
      while i < |n.peers|
        invariant 0 <= i <= |n.peers| && |incoming| == |n.peers| && |shares| == i + 1
        invariant forall p :: 0 <= p < i ==> incoming[p] == old(incoming[p][1..]) && row[p].ClearPoint?
        invariant forall p :: i <= p < |incoming| ==> incoming[p] == old(incoming[p])
        invariant shares[0] == PointShare(n.x, own)
        invariant forall p :: 0 <= p < i ==> shares[p + 1] == PointShare(n.peers[p], row[p].pt)
      {
        var packet := incoming[i][0];
        if !packet.ClearPoint? {
          return None;
        }
        incoming := incoming[i := incoming[i][1..]];
        shares := shares + [PointShare(n.peers[i], packet.pt)];
        i := i + 1;
      }
      assert shares == PointSharesFrom(n.x, own, n.peers, row);
      pt := SssRecoverPoint(shares, n.q);
    }

    // ---- The protocol's building blocks --------------------------------------------

    /** What the memory becomes once a biased random share is known. */
    ghost function WithShare(round: nat, m: Memory, share: int): Memory {
      if StageOf(round, n.k) == Mask
      then m.(maskShare := share, product := (share * m.rngShare) % n.q, coefficients := [0])
      else m.(coefficients := m.coefficients + [share])
    }

    /** Biased random number generation: one round. */
    method SmpcBiasedRng() returns (share: Option<int>)
      requires Valid() && Enough(incoming, 1) && round < Rounds(n.k) && M().Running()
      requires StageOf(round, n.k) in {KeyCoefficient, Mask, ZeroCoefficient}
      modifies this
      ensures share.None? ==> RaisesWithin(n, old(history), old(incoming), 1)
      ensures share.Some? ==> Reached(old(history), old(incoming), 1) && AllSealed(old(Row(incoming, 0)))
      ensures share.Some? ==>
                share.value == BiasedShare(Eval(n.coins[old(round)], n.x) % n.q, old(Row(incoming, 0)), n.q)
      ensures share.Some? ==> M() == WithShare(old(round), old(M()), share.value)
    {
      ghost var row := Row(incoming, 0);
      NextRound();
      var coefs := n.coins[round];
      SendValues(coefs);
      var own := Evaluate(coefs, n.x, n.q);
      share := ReceiveSum(own);
      if share.Some? {
        history := history + [row];
        round := round + 1;
        RoundDone();
      }
    }

    /** A run of biased generations: the list that a random number or a random zero
        is built from, starting with what start holds. */
    method CollectCoefficients(start: seq<int>, count: nat) returns (coefficients: Option<seq<int>>)
      requires Valid() && Enough(incoming, count) && round + count <= Rounds(n.k) && M().Running()
      requires M().coefficients == start
      requires forall r :: round <= r < round + count ==> StageOf(r, n.k) in {KeyCoefficient, ZeroCoefficient}
      modifies this
      ensures coefficients.None? ==> RaisesWithin(n, old(history), old(incoming), count)
      ensures coefficients.Some? ==> Reached(old(history), old(incoming), count)
      ensures coefficients.Some? ==> M() == old(M()).(coefficients := coefficients.value)
    {
      hide MemoryAfter, SentTo, Rows, Complete, StageOf, Row, Dropped, BiasedShare, AllSealed;
      var list := start;
      var i := 0;
      ghost var h0, in0 := history, incoming;
      NoRows(in0);
      ghost var m0 := M();
      while i < count
        invariant 0 <= i <= count
        invariant Reached(h0, in0, i) && round == |h0| + i
        invariant M() == m0.(coefficients := list)
      {
        RowsSplit(in0, i, 1);
        var share := SmpcBiasedRng();
        if share.None? {
          RaisesMidway(n, h0, in0, i, count);
          return None;
        }
        ReachedFurther(h0, in0, i, 1);
        list := list + [share.value];
        i := i + 1;
      }
      coefficients := Some(list);
    }

    /** The closing round of a random number or a random zero. */
    method CombineShares(coefficients: seq<int>) returns (v: Option<int>)
      requires Valid() && Enough(incoming, 1) && round < Rounds(n.k) && M().Running()
      requires StageOf(round, n.k) in {KeyShare, ZeroShare} && M().coefficients == coefficients
      modifies this
      ensures v.None? ==> RaisesWithin(n, old(history), old(incoming), 1)
      ensures v.Some? ==> Reached(old(history), old(incoming), 1)
      ensures v.Some? ==>
                M() == if StageOf(old(round), n.k) == KeyShare then old(M()).(rngShare := v.value)
                       else old(M()).(hidden := (old(M()).product + v.value) % n.q)
      ensures v.Some? ==> 0 <= v.value < n.q
    {
      hide MemoryAfter, Rows, Recover;
      ghost var row := Row(incoming, 0);
      NextRound();
      SendValues(coefficients);
      var value := Evaluate(coefficients, n.x, n.q);
      v := ReceiveAndRecover(value, false);
      if v.Some? {
        RecoveredInRange(SharesFrom(n.x, value, n.peers, row), n.q);
        history := history + [row];
        round := round + 1;
        RoundDone();
      }
    }

    lemma StartsBlank()
      requires Valid() && round == 0
      ensures M() == BLANK && M().Running()
    {
    }

    /** Unbiased random number generation: k + 1 rounds. */
    method SmpcUnbiasedRng() returns (v: Option<int>)
      requires Valid() && round == 0 && Enough(incoming, n.k + 1)
      modifies this
      ensures v.None? ==> RaisesWithin(n, old(history), old(incoming), n.k + 1)
      ensures v.Some? ==> Reached(old(history), old(incoming), n.k + 1)
      ensures v.Some? ==> M().Running() && M().rngShare == v.value
    {
      hide MemoryAfter, SentTo, Rows;
      ghost var h0, in0 := history, incoming;
      RowsSplit(in0, n.k, 1);
      StartsBlank();
      var coefficients := CollectCoefficients([], n.k);
      if coefficients.None? {
        RaisesLater(n, h0, in0, n.k, 1);
        return None;
      }
      v := CombineShares(coefficients.value);
      if v.None? {
        RaisesFromEarlier(n, h0, in0, n.k, 1);
      } else {
        ReachedFurther(h0, in0, n.k, 1);
      }
    }

    /** The rounds from here on are a random zero and an opening. */
    ghost predicate ZeroStarts(round: nat) {
      && n.k >= 1
      && (forall r :: round <= r < round + n.k - 1 ==> StageOf(r, n.k) == ZeroCoefficient)
      && StageOf(round + n.k - 1, n.k) == ZeroShare
      && StageOf(round + n.k, n.k) in {OpenInverse, OpenSignature}
      && round + n.k < Rounds(n.k)
    }

    /** Random zero generation: k rounds. */
    method SmpcRandomZero() returns (v: Option<int>)
      requires Valid() && ZeroStarts(round) && Enough(incoming, n.k)
      requires M().Running() && M().coefficients == [0]
      modifies this
      ensures v.None? ==> RaisesWithin(n, old(history), old(incoming), n.k)
      ensures v.Some? ==> Reached(old(history), old(incoming), n.k)
      ensures v.Some? ==> 0 <= v.value < n.q && M().hidden == (old(M()).product + v.value) % n.q
      ensures v.Some? ==> M() == old(M()).(coefficients := M().coefficients, hidden := M().hidden)
    {
      hide MemoryAfter, SentTo, Rows, Row;
      ghost var h0, in0 := history, incoming;
      RowsSplit(in0, n.k - 1, 1);
      var coefficients := CollectCoefficients([0], n.k - 1);
      if coefficients.None? {
        RaisesLater(n, h0, in0, n.k - 1, 1);
        return None;
      }
      v := CombineShares(coefficients.value);
      if v.None? {
        RaisesFromEarlier(n, h0, in0, n.k - 1, 1);
      } else {
        ReachedFurther(h0, in0, n.k - 1, 1);
      }
    }

    /** What the memory becomes once v has been opened. */
    ghost function Opening(round: nat, m: Memory, v: int): Memory {
      if StageOf(round, n.k) == OpenInverse then UseInverse(n, m, v) else m.(signature := Some(v))
    }

    /** v is what the hidden shares of all nodes open to, the peers' taken from row. */
    ghost predicate Opened(row: seq<Packet>, v: int)
      reads this
      requires Valid()
    {
      |row| == |n.peers| && AllClear(row) && Recover(SharesFrom(n.x, M().hidden, n.peers, row), n.q) == Some(v)
    }

    /** Share revealing open: one round. */
    method SmpcShareRevealingOpen(share: int) returns (v: Option<int>)
      requires Valid() && Enough(incoming, 1) && round < Rounds(n.k) && M().Running()
      requires StageOf(round, n.k) in {OpenInverse, OpenSignature} && M().hidden == share
      modifies this
      ensures v.None? ==> RaisesWithin(n, old(history), old(incoming), 1)
      ensures v.Some? ==> Reached(old(history), old(incoming), 1)
      ensures v.Some? ==> M() == Opening(old(round), old(M()), v.value) && Opened(old(Row(incoming, 0)), v.value)
    {
      hide MemoryAfter, Rows, Recover;
      ghost var row := Row(incoming, 0);
      NextRound();
      SendToAll(Clear(share));
      v := ReceiveAndRecover(share, true);
      if v.Some? {
        history := history + [row];
        round := round + 1;
        RoundDone();
      }
    }

    /** Share hiding open: a random zero, then a revealing open of the sum. */
    method SmpcShareHidingOpen(share: int) returns (v: Option<int>)
      requires Valid() && ZeroStarts(round) && Enough(incoming, n.k + 1)
      requires M().Running() && M().coefficients == [0] && M().product == share
      modifies this
      ensures v.None? ==> RaisesWithin(n, old(history), old(incoming), n.k + 1)
      ensures v.Some? ==> Reached(old(history), old(incoming), n.k + 1)
      ensures v.Some? ==> exists coefficients, hidden ::
                M() == Opening(old(round) + n.k, old(M()).(coefficients := coefficients, hidden := hidden), v.value)
      ensures v.Some? ==> Opened(Row(old(incoming), n.k), v.value)
    {
      hide MemoryAfter, SentTo, Rows;
      ghost var h0, in0 := history, incoming;
      RowsSplit(in0, n.k, 1);
      var zero := SmpcRandomZero();
      if zero.None? {
        RaisesLater(n, h0, in0, n.k, 1);
        return None;
      }
      ghost var m := M();
      assert m == old(M()).(coefficients := m.coefficients, hidden := m.hidden);
      RowOfDropped(in0, n.k, 0);
      v := SmpcShareRevealingOpen((share + zero.value) % n.q);
      if v.None? {
        RaisesFromEarlier(n, h0, in0, n.k, 1);
      } else {
        ReachedFurther(h0, in0, n.k, 1);
      }
    }

    /** Multiply and open. */
    method SmpcMultiplyOpen(shareA: int, shareB: int) returns (v: Option<int>)
      requires Valid() && ZeroStarts(round) && Enough(incoming, n.k + 1)
      requires M().Running() && M().coefficients == [0] && M().product == (shareA * shareB) % n.q
      modifies this
      ensures v.None? ==> RaisesWithin(n, old(history), old(incoming), n.k + 1)
      ensures v.Some? ==> Reached(old(history), old(incoming), n.k + 1)
      ensures v.Some? ==> exists coefficients, hidden ::
                M() == Opening(old(round) + n.k, old(M()).(coefficients := coefficients, hidden := hidden), v.value)
      ensures v.Some? ==> Opened(Row(old(incoming), n.k), v.value)
    {
      var product := (shareA * shareB) % n.q;
      v := SmpcShareHidingOpen(product);
    }

    /** Inversion: k + 2 rounds, from the share of a value to the share of its
        inverse. Raises when the opened masked value has none. */
    method SmpcInvert(share: int) returns (v: Option<int>)
      requires Valid() && round == n.k + 2 && Enough(incoming, n.k + 2)
      requires M().Running() && M().rngShare == share
      modifies this
      ensures v.None? ==> RaisesWithin(n, old(history), old(incoming), n.k + 2)
      ensures v.Some? ==> Reached(old(history), old(incoming), n.k + 2)
      ensures v.Some? ==> M().Running() && M().coefficients == [0] && M().r == old(M()).r
      ensures v.Some? ==> M().product == (((M().r * n.y + n.z) % n.q) * v.value) % n.q
      ensures v.Some? ==> exists t, w :: Opened(Row(old(incoming), n.k + 1), t) && ModInverse(t, n.q) == Some(w)
                                         && v.value == (w * M().maskShare) % n.q
    {
      hide MemoryAfter, SentTo, Rows, Row, Opened, ModInverse, Complete;
      ghost var h0, in0 := history, incoming;
      RowsSplit(in0, 1, n.k + 1);
      RowOfDropped(in0, 1, n.k);
      var r := SmpcBiasedRng();
      if r.None? {
        RaisesLater(n, h0, in0, 1, n.k + 1);
        return None;
      }
      v := Unmask(r.value, share);
      if v.None? {
        RaisesFromEarlier(n, h0, in0, 1, n.k + 1);
      } else {
        ReachedFurther(h0, in0, 1, n.k + 1);
      }
    }

    /** The inversion from the masked product on. */
    method Unmask(mask: int, share: int) returns (v: Option<int>)
      requires Valid() && round == n.k + 3 && Enough(incoming, n.k + 1)
      requires M().Running() && M().coefficients == [0]
      requires M().maskShare == mask && M().product == (mask * share) % n.q
      modifies this
      ensures v.None? ==> RaisesWithin(n, old(history), old(incoming), n.k + 1)
      ensures v.Some? ==> Reached(old(history), old(incoming), n.k + 1)
      ensures v.Some? ==> M().Running() && M().coefficients == [0] && M().r == old(M()).r
      ensures v.Some? ==> M().product == (((M().r * n.y + n.z) % n.q) * v.value) % n.q
      ensures v.Some? ==> exists t, w :: Opened(Row(old(incoming), n.k), t) && ModInverse(t, n.q) == Some(w)
                                         && v.value == (w * M().maskShare) % n.q
    {
      var t := SmpcMultiplyOpen(mask, share);
      if t.None? {
        return None;
      }
      var w := ModInverse(t.value, n.q);
      if w.None? {
        return None;
      }
      v := Some((w.value * mask) % n.q);
    }

    /** Random key pair: a share of a random number and the point that all shares
        together stand for. */
    method SmpcRandomKeypair() returns (v: Option<(int, Point)>)
      requires Valid() && round == 0 && Enough(incoming, n.k + 2)
      modifies this
      ensures v.None? ==> RaisesWithin(n, old(history), old(incoming), n.k + 2)
      ensures v.Some? ==> Reached(old(history), old(incoming), n.k + 2)
      ensures v.Some? ==> M().Running() && M().rngShare == v.value.0 && M().r == n.px(v.value.1) % n.q
    {
      hide MemoryAfter, SentTo, Rows, Row;
      ghost var h0, in0 := history, incoming;
      RowsSplit(in0, n.k + 1, 1);
      var share := SmpcUnbiasedRng();
      if share.None? {
        RaisesLater(n, h0, in0, n.k + 1, 1);
        return None;
      }
      var point := PublishPoint(share.value);
      if point.None? {
        RaisesFromEarlier(n, h0, in0, n.k + 1, 1);
        return None;
      }
      ReachedFurther(h0, in0, n.k + 1, 1);
      v := Some((share.value, point.value));
    }

    /** The closing round of the key pair. */
    method PublishPoint(share: int) returns (point: Option<Point>)
      requires Valid() && round == n.k + 1 && Enough(incoming, 1) && M().Running() && M().rngShare == share
      modifies this
      ensures point.None? ==> RaisesWithin(n, old(history), old(incoming), 1)
      ensures point.Some? ==> Reached(old(history), old(incoming), 1)
      ensures point.Some? ==> M() == old(M()).(r := n.px(point.value) % n.q)
    {
      ghost var row := Row(incoming, 0);
      NextRound();
      var pointShare := Times(share, G(n.q), n.q);
      SendToAll(ClearPoint(pointShare));
      point := ReceiveAndRecoverPoint(pointShare);
      if point.Some? {
        history := history + [row];
        round := round + 1;
        RoundDone();
      }
    }

    /** The signing algorithm, from the meshed channels to the signature. The packets
        of the rounds up to the first opening are going to arrive; those after it
        only if the opening did not make the program raise. */
    method SmpcSign() returns (v: Option<(int, int)>)
      requires Valid() && round == 0 && Enough(incoming, 2 * n.k + 4)
      requires RaisesWithin(n, history, incoming, 2 * n.k + 4) || Enough(incoming, Rounds(n.k))
      modifies this
      ensures v.None? ==>
                (RaisesWithin(n, old(history), old(incoming), 2 * n.k + 4)
                || RaisesWithin(n, old(history), old(incoming), Rounds(n.k)))
      ensures v.Some? ==> Reached(old(history), old(incoming), Rounds(n.k))
      ensures v.Some? ==> M().r == v.value.0 && M().signature == Some(v.value.1) && !M().raised
    {
      hide MemoryAfter, SentTo, Rows;
      ghost var h0, in0 := history, incoming;
      var v1 := NonceAndInverse();
      if v1.None? {
        return None;
      }
      var (r, invk) := v1.value;
      RowsSplit(in0, 2 * n.k + 4, n.k + 1);
      var s := OpenSignatureValue(r, invk);
      if s.None? {
        RaisesFromEarlier(n, h0, in0, 2 * n.k + 4, n.k + 1);
        return None;
      }
      ReachedFurther(h0, in0, 2 * n.k + 4, n.k + 1);
      v := Some((r, s.value));
    }

    /** The first part of the signing algorithm: the first half of the signature and
        the share of the inverse of the nonce. */
    method NonceAndInverse() returns (v: Option<(int, int)>)
      requires Valid() && round == 0 && Enough(incoming, 2 * n.k + 4)
      modifies this
      ensures v.None? ==> RaisesWithin(n, old(history), old(incoming), 2 * n.k + 4)
      ensures v.Some? ==> Reached(old(history), old(incoming), 2 * n.k + 4)
      ensures v.Some? ==> M().Running() && M().coefficients == [0] && M().r == v.value.0
      ensures v.Some? ==> M().product == (((M().r * n.y + n.z) % n.q) * v.value.1) % n.q
    {
      hide MemoryAfter, SentTo, Rows, Row, Opened, ModInverse;
      ghost var h0, in0 := history, incoming;
      RowsSplit(in0, n.k + 2, n.k + 2);
      var pair := SmpcRandomKeypair();
      if pair.None? {
        RaisesLater(n, h0, in0, n.k + 2, n.k + 2);
        return None;
      }
      var r := n.px(pair.value.1) % n.q;
      var invk := SmpcInvert(pair.value.0);
      if invk.None? {
        RaisesFromEarlier(n, h0, in0, n.k + 2, n.k + 2);
        return None;
      }
      ReachedFurther(h0, in0, n.k + 2, n.k + 2);
      v := Some((r, invk.value));
    }

    /** The last multiplication of the signing algorithm. */
    method OpenSignatureValue(r: int, invk: int) returns (s: Option<int>)
      requires Valid() && round == 2 * n.k + 4 && Enough(incoming, n.k + 1)
      requires M().Running() && M().coefficients == [0] && M().r == r
      requires M().product == (((r * n.y + n.z) % n.q) * invk) % n.q
      modifies this
      ensures s.None? ==> RaisesWithin(n, old(history), old(incoming), n.k + 1)
      ensures s.Some? ==> Reached(old(history), old(incoming), n.k + 1)
      ensures s.Some? ==> M().r == r && M().signature == s && !M().raised
    {
      var t := (r * n.y + n.z) % n.q;
      s := SmpcMultiplyOpen(t, invk);
    }
  }

  method Evaluate(c: Poly, x: int, q: Prime) returns (v: int)
    ensures v == Eval(c, x) % q
  {
    v := EvalLoop(0, c, 0, x, q);
    assert Pow(x, 0) * Eval(c, x) == Eval(c, x);
    if c == [] {
      ModIsRemainder(0, q, 0, 0);
    } else {
      ModIsRemainder(v, q, 0, v);
    }
  }
}

/** A network of nodes that run in rounds over reliable first-in first-out
    channels. In each round a node sends one packet to every peer, then waits for
    one packet from every peer, both in the order in which it iterates over its
    channels, then computes its next state. Nothing synchronises the nodes. */
module Network {

  /** The node program: initial states, whether a node still takes part, the packet
      sent to a peer in a round, and the next state given the packets received in
      channel order. */
  datatype Program<!S, !V> = Program(
    size: nat,
    order: nat -> seq<nat>,
    init: nat -> S,
    running: S -> bool,
    packet: (nat, nat, S, nat) -> V,
    absorb: (nat, nat, S, seq<V>) -> S)
  {
    /** Every node has exactly one channel to each other node. */
    ghost predicate Meshed() {
      && (forall a, i, j :: 0 <= a < size && 0 <= i < j < |order(a)| ==> order(a)[i] != order(a)[j])
      && (forall a, b :: 0 <= a < size ==> (b in order(a) <==> 0 <= b < size && b != a))
    }

    /** The state of node a after r rounds when all nodes move in lockstep. */
    ghost function Lockstep(r: nat, a: nat): S
      decreases r, 1
    {
      if r == 0 then init(a)
      else
        var s := Lockstep(r - 1, a);
        if running(s) then absorb(a, r - 1, s, LockstepInbox(r - 1, a)) else s
    }

    /** What node a receives in round r of the lockstep run. */
    ghost function LockstepInbox(r: nat, a: nat): (inbox: seq<V>)
      decreases r, 2
    {
      seq(|order(a)|, i requires 0 <= i < |order(a)| => packet(order(a)[i], r, Lockstep(r, order(a)[i]), a))
    }

    ghost function LockstepPacket(r: nat, a: nat, b: nat): V {
      packet(a, r, Lockstep(r, a), b)
    }

    /** In lockstep, all nodes take part in exactly the first n rounds. */
    ghost predicate StopsAfter(n: nat) {
      && (forall r, a :: 0 <= r < n && 0 <= a < size ==> running(Lockstep(r, a)))
      && (forall a :: 0 <= a < size ==> !running(Lockstep(n, a)))
    }
  }

  /** One node in the middle of a round: how many peers it has sent to, and what it
      has received so far. */
  datatype Proc<S, V> = Proc(round: nat, st: S, sent: nat, inbox: seq<V>)

  /** All nodes, everything ever written to each channel, and how much of it the
      reader has consumed. wire[a][b][got[a][b]..] is in flight from a to b. */
  datatype World<S, V> = World(procs: seq<Proc<S, V>>, wire: seq<seq<seq<V>>>, got: seq<seq<nat>>)

  datatype Step = Send(a: nat) | Receive(a: nat) | Finish(a: nat)

  ghost predicate Shaped<S, V>(p: Program<S, V>, w: World<S, V>) {
    && |w.procs| == |w.wire| == |w.got| == p.size
    && (forall a :: 0 <= a < p.size ==> |w.wire[a]| == |w.got[a]| == p.size)
  }

  ghost function Start<S, V>(p: Program<S, V>): World<S, V> {
    World(seq(p.size, (a: nat) => Proc(0, p.init(a), 0, [])),
          seq(p.size, (a: nat) => seq(p.size, (b: nat) => [])),
          seq(p.size, (a: nat) => seq(p.size, (b: nat) => 0)))
  }

  ghost predicate Enabled<S, V>(p: Program<S, V>, w: World<S, V>, e: Step)
    requires Shaped(p, w)
  {
    e.a < p.size &&
    var n := w.procs[e.a];
    var order := p.order(e.a);
    && p.running(n.st)
    && match e
       case Send(_) => n.sent < |order| && order[n.sent] < p.size
       case Receive(_) =>
         && n.sent == |order| && |n.inbox| < |order|
         && var b := order[|n.inbox|];
            b < p.size && w.got[b][e.a] < |w.wire[b][e.a]|
       case Finish(_) => n.sent == |order| && |n.inbox| == |order|
  }

  function Put<T>(m: seq<seq<T>>, a: nat, b: nat, v: T): (m': seq<seq<T>>)
    requires a < |m| && b < |m[a]|
    ensures |m'| == |m| && (forall i :: 0 <= i < |m| ==> |m'[i]| == |m[i]|)
    ensures forall i, j :: 0 <= i < |m| && 0 <= j < |m[i]| ==>
              m'[i][j] == if i == a && j == b then v else m[i][j]
  {
    m[a := m[a][b := v]]
  }

  ghost function Next<S, V>(p: Program<S, V>, w: World<S, V>, e: Step): (w': World<S, V>)
    requires Shaped(p, w) && Enabled(p, w, e)
    ensures Shaped(p, w')
  {
    var a := e.a;
    var n := w.procs[a];
    match e
    case Send(_) =>
      var b := p.order(a)[n.sent];
      w.(procs := w.procs[a := n.(sent := n.sent + 1)],
         wire := Put(w.wire, a, b, w.wire[a][b] + [p.packet(a, n.round, n.st, b)]))
    case Receive(_) =>
      var b := p.order(a)[|n.inbox|];
      w.(procs := w.procs[a := n.(inbox := n.inbox + [w.wire[b][a][w.got[b][a]]])],
         got := Put(w.got, b, a, w.got[b][a] + 1))
    case Finish(_) =>
      w.(procs := w.procs[a := Proc(n.round + 1, p.absorb(a, n.round, n.st, n.inbox), 0, [])])
  }

  /** ws is a run: it starts at the start and each world follows from the one
      before by the step beside it. */
  ghost predicate Run<S, V>(p: Program<S, V>, ws: seq<World<S, V>>, es: seq<Step>) {
    && |ws| == |es| + 1
    && ws[0] == Start(p)
    && forall i :: 0 <= i < |es| ==>
         Shaped(p, ws[i]) && Enabled(p, ws[i], es[i]) && ws[i + 1] == Next(p, ws[i], es[i])
  }

  // ---- The invariant --------------------------------------------------------

  /** b is among the first n entries of s. */
  predicate Among(s: seq<nat>, n: nat, b: nat) {
    exists i :: 0 <= i < n && i < |s| && s[i] == b
  }

  /** How many packets a node has sent to b: one for each past round, and one more
      if b's turn in this round is over. */
  ghost function SentCount<S, V>(p: Program<S, V>, n: Proc<S, V>, a: nat, b: nat): nat {
    n.round + if Among(p.order(a), n.sent, b) then 1 else 0
  }

  ghost function ReceivedCount<S, V>(p: Program<S, V>, n: Proc<S, V>, a: nat, b: nat): nat {
    n.round + if Among(p.order(a), |n.inbox|, b) then 1 else 0
  }

  /** A node agrees with the lockstep run at its own round. */
  ghost predicate ProcAgrees<S, V>(p: Program<S, V>, n: Proc<S, V>, a: nat) {
    && n.st == p.Lockstep(n.round, a)
    && n.sent <= |p.order(a)|
    && |n.inbox| <= |p.order(a)|
    && (n.sent < |p.order(a)| ==> n.inbox == [])
    && (forall i :: 0 <= i < |n.inbox| ==>
          n.inbox[i] == p.LockstepPacket(n.round, p.order(a)[i], a))
  }

  /** A channel carries the lockstep packets in order; its counters match its ends. */
  ghost predicate ChannelAgrees<S, V>(p: Program<S, V>, w: World<S, V>, a: nat, b: nat)
    requires Shaped(p, w) && a < p.size && b < p.size
  {
    && |w.wire[a][b]| == SentCount(p, w.procs[a], a, b)
    && w.got[a][b] == ReceivedCount(p, w.procs[b], b, a)
    && w.got[a][b] <= |w.wire[a][b]|
    && (forall r :: 0 <= r < |w.wire[a][b]| ==> w.wire[a][b][r] == p.LockstepPacket(r, a, b))
  }

  ghost predicate Agrees<S, V>(p: Program<S, V>, w: World<S, V>) {
    && Shaped(p, w)
    && (forall a :: 0 <= a < p.size ==> ProcAgrees(p, w.procs[a], a))
    && (forall a, b :: 0 <= a < p.size && 0 <= b < p.size && a != b ==> ChannelAgrees(p, w, a, b))
  }

  lemma StartAgrees<S, V>(p: Program<S, V>)
    ensures Agrees(p, Start(p))
  {
  }

  lemma NextAgrees<S, V>(p: Program<S, V>, w: World<S, V>, e: Step)
    requires p.Meshed() && Agrees(p, w) && Enabled(p, w, e)
    ensures Agrees(p, Next(p, w, e))
  {
    match e
    case Send(a) => SendAgrees(p, w, a);
    case Receive(a) => ReceiveAgrees(p, w, a);
    case Finish(a) => FinishAgrees(p, w, a);
  }

  /** Moving on by one entry brings in exactly the entry at that place. */
  lemma AmongNext<S, V>(p: Program<S, V>, a: nat, n: nat, c: nat)
    requires p.Meshed() && a < p.size && n < |p.order(a)|
    ensures Among(p.order(a), n + 1, c) <==> Among(p.order(a), n, c) || c == p.order(a)[n]
    ensures !Among(p.order(a), n, p.order(a)[n])
    ensures p.order(a)[n] < p.size && p.order(a)[n] != a
  {
    var s := p.order(a);
    assert s[n] in s;
    if c == s[n] {
      assert Among(s, n + 1, c);
    }
  }

  lemma SendAgrees<S, V>(p: Program<S, V>, w: World<S, V>, a: nat)
    requires p.Meshed() && Agrees(p, w) && Enabled(p, w, Send(a))
    ensures Agrees(p, Next(p, w, Send(a)))
  {
    var w' := Next(p, w, Send(a));
    var n := w.procs[a];
    var b := p.order(a)[n.sent];
    AmongNext(p, a, n.sent, b);
    assert ProcAgrees(p, w.procs[a], a);
    forall c, d | 0 <= c < p.size && 0 <= d < p.size && c != d
      ensures ChannelAgrees(p, w', c, d)
    {
      assert ChannelAgrees(p, w, c, d);
      if c == a {
        AmongNext(p, a, n.sent, d);
      }
    }
    forall c | 0 <= c < p.size
      ensures ProcAgrees(p, w'.procs[c], c)
    {
      assert ProcAgrees(p, w.procs[c], c);
    }
  }

  lemma ReceiveAgrees<S, V>(p: Program<S, V>, w: World<S, V>, a: nat)
    requires p.Meshed() && Agrees(p, w) && Enabled(p, w, Receive(a))
    ensures Agrees(p, Next(p, w, Receive(a)))
  {
    var w' := Next(p, w, Receive(a));
    var n := w.procs[a];
    var b := p.order(a)[|n.inbox|];
    AmongNext(p, a, |n.inbox|, b);
    assert ProcAgrees(p, n, a) && ChannelAgrees(p, w, b, a);
    assert w.got[b][a] == n.round;
    forall c, d | 0 <= c < p.size && 0 <= d < p.size && c != d
      ensures ChannelAgrees(p, w', c, d)
    {
      assert ChannelAgrees(p, w, c, d);
      if d == a {
        AmongNext(p, a, |n.inbox|, c);
      }
    }
    forall c | 0 <= c < p.size
      ensures ProcAgrees(p, w'.procs[c], c)
    {
      assert ProcAgrees(p, w.procs[c], c);
    }
  }

  lemma FinishAgrees<S, V>(p: Program<S, V>, w: World<S, V>, a: nat)
    requires p.Meshed() && Agrees(p, w) && Enabled(p, w, Finish(a))
    ensures Agrees(p, Next(p, w, Finish(a)))
  {
    var w' := Next(p, w, Finish(a));
    var n, n' := w.procs[a], w'.procs[a];
    assert ProcAgrees(p, n, a);
    assert n.inbox == p.LockstepInbox(n.round, a);
    assert n'.st == p.Lockstep(n.round + 1, a);
    forall c, d | 0 <= c < p.size && 0 <= d < p.size && c != d
      ensures ChannelAgrees(p, w', c, d)
    {
      assert ChannelAgrees(p, w, c, d);
      if c == a {
        AllAmong(p, a, d);
      }
      if d == a {
        AllAmong(p, a, c);
      }
    }
    forall c | 0 <= c < p.size
      ensures ProcAgrees(p, w'.procs[c], c)
    {
      assert ProcAgrees(p, w.procs[c], c);
    }
  }

  lemma AllAmong<S, V>(p: Program<S, V>, a: nat, c: nat)
    requires p.Meshed() && a < p.size && c < p.size && c != a
    ensures Among(p.order(a), |p.order(a)|, c)
  {
    assert c in p.order(a);
  }

  /** In every interleaving every node's state and every packet are those of the
      lockstep run. */
  lemma {:induction false} RunAgrees<S, V>(p: Program<S, V>, ws: seq<World<S, V>>, es: seq<Step>, i: nat)
    requires p.Meshed() && Run(p, ws, es) && i < |ws|
    ensures Agrees(p, ws[i])
  {
    if i == 0 {
      StartAgrees(p);
    } else {
      RunAgrees(p, ws, es, i - 1);
      NextAgrees(p, ws[i - 1], es[i - 1]);
    }
  }

  // ---- Consequences ---------------------------------------------------------

  /** Any two nodes are at most one round apart. */
  lemma AtMostOneRoundApart<S, V>(p: Program<S, V>, w: World<S, V>, a: nat, b: nat)
    requires p.Meshed() && Agrees(p, w) && a < p.size && b < p.size
    ensures w.procs[a].round <= w.procs[b].round + 1
  {
    if a != b {
      assert ChannelAgrees(p, w, b, a);
    }
  }

  /** No node goes beyond the round where the lockstep run stops. */
  lemma RoundBound<S, V>(p: Program<S, V>, ws: seq<World<S, V>>, es: seq<Step>, i: nat, a: nat, n: nat)
    requires p.Meshed() && Run(p, ws, es) && i < |ws| && a < p.size && p.StopsAfter(n)
    ensures Shaped(p, ws[i]) && ws[i].procs[a].round <= n
    ensures ws[i].procs[a].round == n ==> ws[i].procs[a].sent == 0 && ws[i].procs[a].inbox == []
  {
    hide ChannelAgrees, SentCount, ReceivedCount, Among, Next, Enabled, ProcAgrees, Program.StopsAfter;
    RunAgrees(p, ws, es, i);
    if i > 0 {
      RoundBound(p, ws, es, i - 1, a, n);
      RunAgrees(p, ws, es, i - 1);
      StepKeepsBound(p, ws[i - 1], es[i - 1], a, n);
    }
  }

  /** A node takes no step once it has stopped, so none leads past round n. */
  lemma StepKeepsBound<S, V>(p: Program<S, V>, w: World<S, V>, e: Step, a: nat, n: nat)
    requires Shaped(p, w) && Enabled(p, w, e) && a < p.size && p.StopsAfter(n)
    requires ProcAgrees(p, w.procs[a], a) && w.procs[a].round <= n
    requires w.procs[a].round == n ==> w.procs[a].sent == 0 && w.procs[a].inbox == []
    ensures var m := Next(p, w, e).procs[a];
            m.round <= n && (m.round == n ==> m.sent == 0 && m.inbox == [])
  {
    if e.a == a {
      match e {
        case Send(_) =>
        case Receive(_) =>
        case Finish(_) =>
      }
    }
  }

  ghost predicate Stopped<S, V>(p: Program<S, V>, w: World<S, V>)
    requires Shaped(p, w)
  {
    forall a :: 0 <= a < p.size ==> !p.running(w.procs[a].st)
  }

  /** A node that no other node is behind. */
  lemma {:induction false} Slowest<S, V>(p: Program<S, V>, w: World<S, V>, n: nat) returns (a: nat)
    requires Shaped(p, w) && 0 < n <= p.size
    ensures a < n && forall b :: 0 <= b < n ==> w.procs[a].round <= w.procs[b].round
  {
    if n == 1 {
      a := 0;
    } else {
      a := Slowest(p, w, n - 1);
      if w.procs[n - 1].round < w.procs[a].round {
        a := n - 1;
      }
    }
  }

  /** No deadlock: until all nodes have stopped, some node can take a step. */
  lemma NoDeadlock<S, V>(p: Program<S, V>, ws: seq<World<S, V>>, es: seq<Step>, i: nat, n: nat) returns (e: Step)
    requires p.Meshed() && Run(p, ws, es) && i < |ws| && p.StopsAfter(n)
    requires Shaped(p, ws[i]) && !Stopped(p, ws[i])
    ensures Enabled(p, ws[i], e)
  {
    var w := ws[i];
    RunAgrees(p, ws, es, i);
    var a := Slowest(p, w, p.size);
    var c :| 0 <= c < p.size && p.running(w.procs[c].st);
    RoundBound(p, ws, es, i, c, n);
    assert ProcAgrees(p, w.procs[c], c) && ProcAgrees(p, w.procs[a], a);
    assert w.procs[a].round < n;
    e := StepOfSlowest(p, w, a, n);
  }

  lemma StepOfSlowest<S, V>(p: Program<S, V>, w: World<S, V>, a: nat, n: nat) returns (e: Step)
    requires p.Meshed() && Agrees(p, w) && p.StopsAfter(n)
    requires a < p.size && w.procs[a].round < n
    requires forall b :: 0 <= b < p.size ==> w.procs[a].round <= w.procs[b].round
    ensures Enabled(p, w, e)
  {
    var m := w.procs[a];
    assert ProcAgrees(p, m, a);
    if m.sent < |p.order(a)| {
      AmongNext(p, a, m.sent, a);
      e := Send(a);
    } else if |m.inbox| == |p.order(a)| {
      e := Finish(a);
    } else {
      var b := p.order(a)[|m.inbox|];
      AmongNext(p, a, |m.inbox|, b);
      assert ChannelAgrees(p, w, b, a) && ProcAgrees(p, w.procs[b], b);
      if w.got[b][a] < |w.wire[b][a]| {
        e := Receive(a);
      } else {
        AllAmong(p, b, a);
        assert w.procs[b].round == m.round;
        assert w.procs[b].sent < |p.order(b)|;
        AmongNext(p, b, w.procs[b].sent, a);
        e := Send(b);
      }
    }
  }

  /** When all nodes have stopped, each has the final lockstep state, each ordered
      pair has exchanged exactly one packet a round and every queue is empty. */
  lemma StoppedOutcome<S, V>(p: Program<S, V>, ws: seq<World<S, V>>, es: seq<Step>, i: nat, n: nat)
    requires p.Meshed() && Run(p, ws, es) && i < |ws| && p.StopsAfter(n)
    requires Shaped(p, ws[i]) && Stopped(p, ws[i])
    ensures forall a :: 0 <= a < p.size ==> ws[i].procs[a].st == p.Lockstep(n, a)
    ensures forall a, b :: 0 <= a < p.size && 0 <= b < p.size && a != b ==>
              |ws[i].wire[a][b]| == n && ws[i].got[a][b] == n
              && forall r :: 0 <= r < n ==> ws[i].wire[a][b][r] == p.LockstepPacket(r, a, b)
  {
    var w := ws[i];
    RunAgrees(p, ws, es, i);
    forall a | 0 <= a < p.size
      ensures w.procs[a].round == n && w.procs[a].sent == 0 && w.procs[a].inbox == []
      ensures w.procs[a].st == p.Lockstep(n, a)
    {
      RoundBound(p, ws, es, i, a, n);
      assert ProcAgrees(p, w.procs[a], a);
    }
    forall a, b | 0 <= a < p.size && 0 <= b < p.size && a != b
      ensures |w.wire[a][b]| == n && w.got[a][b] == n
      ensures forall r :: 0 <= r < n ==> w.wire[a][b][r] == p.LockstepPacket(r, a, b)
    {
      assert ChannelAgrees(p, w, a, b);
    }
  }

  // ---- Length of runs -------------------------------------------------------

  /** The steps that the first m nodes have taken. */
  ghost function Taken<S, V>(p: Program<S, V>, w: World<S, V>, m: nat): nat
    requires Shaped(p, w) && m <= p.size
  {
    if m == 0 then 0
    else
      var n := w.procs[m - 1];
      Taken(p, w, m - 1) + n.round * (2 * |p.order(m - 1)| + 1) + n.sent + |n.inbox|
  }

  lemma {:induction false} TakenUnchanged<S, V>(p: Program<S, V>, w: World<S, V>, w': World<S, V>, m: nat)
    requires Shaped(p, w) && Shaped(p, w') && m <= p.size
    requires forall a :: 0 <= a < m ==> w'.procs[a] == w.procs[a]
    ensures Taken(p, w', m) == Taken(p, w, m)
  {
    if m > 0 {
      TakenUnchanged(p, w, w', m - 1);
    }
  }

  lemma {:induction false} TakenNext<S, V>(p: Program<S, V>, w: World<S, V>, e: Step, m: nat)
    requires Shaped(p, w) && Enabled(p, w, e) && e.a < m <= p.size
    ensures Taken(p, Next(p, w, e), m) == Taken(p, w, m) + 1
  {
    var w' := Next(p, w, e);
    if e.a == m - 1 {
      TakenUnchanged(p, w, w', m - 1);
      var n, k := w.procs[m - 1], 2 * |p.order(m - 1)| + 1;
      assert (n.round + 1) * k == n.round * k + k;
    } else {
      TakenNext(p, w, e, m - 1);
    }
  }

  lemma {:induction false} TakenIsLength<S, V>(p: Program<S, V>, ws: seq<World<S, V>>, es: seq<Step>, i: nat)
    requires Run(p, ws, es) && i < |ws|
    ensures Shaped(p, ws[i]) && Taken(p, ws[i], p.size) == i
  {
    if i == 0 {
      TakenAtStart(p, p.size);
    } else {
      TakenIsLength(p, ws, es, i - 1);
      TakenNext(p, ws[i - 1], es[i - 1], p.size);
    }
  }

  lemma {:induction false} TakenAtStart<S, V>(p: Program<S, V>, m: nat)
    requires m <= p.size
    ensures Taken(p, Start(p), m) == 0
  {
    if m > 0 {
      TakenAtStart(p, m - 1);
      assert 0 * (2 * |p.order(m - 1)| + 1) == 0;
    }
  }

  /** Every run ends: it has at most as many steps as nodes times rounds times
      (one send and one receive per peer and one computation), and exactly as many
      when all nodes have stopped. */
  lemma RunLength<S, V>(p: Program<S, V>, ws: seq<World<S, V>>, es: seq<Step>, n: nat)
    requires p.Meshed() && Run(p, ws, es) && p.StopsAfter(n)
    ensures Shaped(p, ws[|es|])
    ensures |es| <= p.size * (n * (2 * p.size - 1))
    ensures Stopped(p, ws[|es|]) ==> |es| == p.size * (n * (2 * p.size - 1))
  {
    var w := ws[|es|];
    TakenIsLength(p, ws, es, |es|);
    forall a | 0 <= a < p.size
      ensures ProcTaken(p, w, a) <= n * (2 * p.size - 1)
      ensures Stopped(p, w) ==> ProcTaken(p, w, a) == n * (2 * p.size - 1)
    {
      ProcTakenBound(p, ws, es, n, a);
    }
    if p.size > 0 {
      assert n * (2 * p.size - 1) >= 0;
      TakenBound(p, w, p.size, n * (2 * p.size - 1));
    }
  }

  lemma ProcTakenBound<S, V>(p: Program<S, V>, ws: seq<World<S, V>>, es: seq<Step>, n: nat, a: nat)
    requires p.Meshed() && Run(p, ws, es) && p.StopsAfter(n) && a < p.size
    ensures Shaped(p, ws[|es|])
    ensures ProcTaken(p, ws[|es|], a) <= n * (2 * p.size - 1)
    ensures Stopped(p, ws[|es|]) ==> ProcTaken(p, ws[|es|], a) == n * (2 * p.size - 1)
  {
    var w := ws[|es|];
    RunAgrees(p, ws, es, |es|);
    PeerCount(p, a);
    RoundBound(p, ws, es, |es|, a, n);
    assert ProcAgrees(p, w.procs[a], a);
    RoundsFit(w.procs[a].round, n, 2 * p.size - 1);
  }

  ghost function ProcTaken<S, V>(p: Program<S, V>, w: World<S, V>, a: nat): nat
    requires Shaped(p, w) && a < p.size
  {
    w.procs[a].round * (2 * |p.order(a)| + 1) + w.procs[a].sent + |w.procs[a].inbox|
  }

  lemma {:induction false} RoundsFit(r: nat, n: nat, k: nat)
    requires r <= n
    ensures r < n ==> r * k + k <= n * k
    ensures r == n ==> r * k == n * k
    decreases n
  {
    if r + 1 < n {
      RoundsFit(r, n - 1, k);
    }
    assert n >= 1 ==> n * k == (n - 1) * k + k;
  }

  lemma {:induction false} TakenBound<S, V>(p: Program<S, V>, w: World<S, V>, m: nat, k: nat)
    requires Shaped(p, w) && m <= p.size
    requires forall a :: 0 <= a < m ==> ProcTaken(p, w, a) <= k
    ensures Taken(p, w, m) <= m * k
    ensures (forall a :: 0 <= a < m ==> ProcTaken(p, w, a) == k) ==> Taken(p, w, m) == m * k
  {
    if m > 0 {
      TakenBound(p, w, m - 1, k);
      assert ProcTaken(p, w, m - 1) <= k;
      assert m * k == (m - 1) * k + k;
    }
  }

  ghost function Below(n: nat): set<nat> {
    if n == 0 then {} else Below(n - 1) + {n - 1}
  }

  lemma {:induction false} BelowIsRange(n: nat)
    ensures |Below(n)| == n
    ensures forall b: nat :: b in Below(n) <==> b < n
  {
    if n > 0 {
      BelowIsRange(n - 1);
    }
  }

  lemma PeerCount<S, V>(p: Program<S, V>, a: nat)
    requires p.Meshed() && a < p.size
    ensures |p.order(a)| == p.size - 1
  {
    var s := p.order(a);
    DistinctCount(s, set b: nat | b in s);
    BelowIsRange(p.size);
    assert Below(p.size) - {a} == set b: nat | b in s;
  }

  lemma {:induction false} DistinctCount(s: seq<nat>, t: set<nat>)
    requires forall i, j :: 0 <= i < j < |s| ==> s[i] != s[j]
    requires t == set b: nat | b in s
    ensures |t| == |s|
  {
    if s != [] {
      var rest := s[1..];
      DistinctCount(rest, set b: nat | b in rest);
      assert s == [s[0]] + rest;
      assert t == (set b: nat | b in rest) + {s[0]};
    }
  }
}

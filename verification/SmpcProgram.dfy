/** What one node of the signing protocol does in each of its rounds: the packet it
    sends to a peer, and what it makes of the packets it receives. */
module SmpcProgram {
  import opened ModArith
  import opened Polynomial
  import opened Lagrange
  import opened Shamir

  /** Encrypted numbers carry shares of the random generators; numbers and points
      travel in clear when a value is opened. */
  datatype Packet = Sealed(value: int) | Clear(value: int) | ClearPoint(pt: Point)

  /** The fixed inputs of a node: order of the group, threshold, the node's share
      (x, y) of the secret key, the hash of the data, the x-coordinate of a point,
      the random coefficients it draws in each round (used in the rounds that draw
      some), and the abscissas of its peers in channel order. */
  datatype Inputs = Inputs(q: Prime, k: nat, x: int, y: int, z: int, px: Point -> int,
                           coins: seq<Poly>, peers: seq<int>)
  {
    predicate Valid() {
      k >= 1 && |coins| == Rounds(k)
    }
  }

  /** The variables of a node that live across rounds. */
  datatype Memory = Memory(
    coefficients: seq<int>,     // shares of random coefficients collected so far
    rngShare: int,              // share of the nonce
    r: int,                     // first half of the signature
    maskShare: int,             // share of the value that masks the nonce
    product: int,               // product of two shares, about to be opened
    hidden: int,                // the same, hidden by a share of zero
    signature: Option<int>,     // second half of the signature
    raised: bool)               // an exception ended the protocol
  {
    predicate Running() {
      !raised && signature.None?
    }
  }

  const BLANK := Memory([], 0, 0, 0, 0, 0, None, false)

  datatype Stage =
    | KeyCoefficient  // smpc_random_keypair / smpc_unbiased_rng / smpc_biased_rng
    | KeyShare        // smpc_random_keypair / smpc_unbiased_rng
    | KeyPoint        // smpc_random_keypair
    | Mask            // smpc_invert / smpc_biased_rng
    | ZeroCoefficient // smpc_random_zero / smpc_biased_rng
    | ZeroShare       // smpc_random_zero
    | OpenInverse     // smpc_invert / ... / smpc_share_revealing_open
    | OpenSignature   // smpc_multiply_open / ... / smpc_share_revealing_open

  function Rounds(k: nat): nat { 3 * k + 5 }

  function StageOf(round: nat, k: nat): Stage {
    if round < k then KeyCoefficient
    else if round == k then KeyShare
    else if round == k + 1 then KeyPoint
    else if round == k + 2 then Mask
    else if round < 2 * k + 2 then ZeroCoefficient
    else if round == 2 * k + 2 then ZeroShare
    else if round == 2 * k + 3 then OpenInverse
    else if round < 3 * k + 3 then ZeroCoefficient
    else if round == 3 * k + 3 then ZeroShare
    else OpenSignature
  }

  function Outgoing(n: Inputs, round: nat, m: Memory, peer: int): Packet
    requires round < |n.coins|
  {
    match StageOf(round, n.k)
    case KeyCoefficient | Mask | ZeroCoefficient => Sealed(Eval(n.coins[round], peer) % n.q)
    case KeyShare | ZeroShare => Sealed(Eval(m.coefficients, peer) % n.q)
    case KeyPoint => ClearPoint(Times(m.rngShare, G(n.q), n.q))
    case OpenInverse | OpenSignature => Clear(m.hidden)
  }

  // ---- Receiving ------------------------------------------------------------

  predicate AllSealed(inbox: seq<Packet>) {
    forall i :: 0 <= i < |inbox| ==> inbox[i].Sealed?
  }

  predicate AllClear(inbox: seq<Packet>) {
    forall i :: 0 <= i < |inbox| ==> inbox[i].Clear?
  }

  predicate AllPoints(inbox: seq<Packet>) {
    forall i :: 0 <= i < |inbox| ==> inbox[i].ClearPoint?
  }

  /** A node's own share of a biased random number plus those it receives. */
  function BiasedShare(own: int, inbox: seq<Packet>, q: Prime): int
    requires AllSealed(inbox)
  {
    if inbox == [] then own
    else (BiasedShare(own, inbox[..|inbox| - 1], q) + inbox[|inbox| - 1].value) % q
  }

  function SharesFrom(x: int, own: int, peers: seq<int>, inbox: seq<Packet>): (s: seq<Share>)
    requires |inbox| == |peers| && forall i :: 0 <= i < |inbox| ==> !inbox[i].ClearPoint?
  {
    [Share(x, own)] + seq(|peers|, i requires 0 <= i < |peers| => Share(peers[i], inbox[i].value))
  }

  function PointSharesFrom(x: int, own: Point, peers: seq<int>, inbox: seq<Packet>): (s: seq<PointShare>)
    requires |inbox| == |peers| && AllPoints(inbox)
  {
    [PointShare(x, own)] + seq(|peers|, i requires 0 <= i < |peers| => PointShare(peers[i], inbox[i].pt))
  }

  ghost function Absorb(n: Inputs, round: nat, m: Memory, inbox: seq<Packet>): Memory
    requires n.Valid() && round < Rounds(n.k) && |inbox| == |n.peers|
  {
    match StageOf(round, n.k)
    case KeyCoefficient | ZeroCoefficient =>
      if AllSealed(inbox) then AddCoefficient(n, round, m, inbox) else m.(raised := true)
    case KeyShare => if AllSealed(inbox) then TakeNonce(n, m, inbox) else m.(raised := true)
    case KeyPoint => if AllPoints(inbox) then TakePoint(n, m, inbox) else m.(raised := true)
    case Mask => if AllSealed(inbox) then TakeMask(n, round, m, inbox) else m.(raised := true)
    case ZeroShare => if AllSealed(inbox) then Hide(n, m, inbox) else m.(raised := true)
    case OpenInverse => if AllClear(inbox) then TakeInverse(n, m, inbox) else m.(raised := true)
    case OpenSignature => if AllClear(inbox) then TakeSignature(n, m, inbox) else m.(raised := true)
  }

  function AddCoefficient(n: Inputs, round: nat, m: Memory, inbox: seq<Packet>): Memory
    requires round < |n.coins| && AllSealed(inbox)
  {
    m.(coefficients := m.coefficients + [BiasedShare(Eval(n.coins[round], n.x) % n.q, inbox, n.q)])
  }

  ghost function TakeNonce(n: Inputs, m: Memory, inbox: seq<Packet>): Memory
    requires |inbox| == |n.peers| && AllSealed(inbox)
  {
    match Recover(SharesFrom(n.x, Eval(m.coefficients, n.x) % n.q, n.peers, inbox), n.q)
    case None => m.(raised := true)
    case Some(v) => m.(rngShare := v)
  }

  ghost function TakePoint(n: Inputs, m: Memory, inbox: seq<Packet>): Memory
    requires |inbox| == |n.peers| && AllPoints(inbox)
  {
    var own := Times(m.rngShare, G(n.q), n.q);
    match Recover(Logs(PointSharesFrom(n.x, own, n.peers, inbox)), n.q)
    case None => m.(raised := true)
    case Some(v) => m.(r := n.px(Times(v, G(n.q), n.q)) % n.q)
  }

  function TakeMask(n: Inputs, round: nat, m: Memory, inbox: seq<Packet>): Memory
    requires round < |n.coins| && AllSealed(inbox)
  {
    var share := BiasedShare(Eval(n.coins[round], n.x) % n.q, inbox, n.q);
    m.(maskShare := share, product := (share * m.rngShare) % n.q, coefficients := [0])
  }

  ghost function Hide(n: Inputs, m: Memory, inbox: seq<Packet>): Memory
    requires |inbox| == |n.peers| && AllSealed(inbox)
  {
    match Recover(SharesFrom(n.x, Eval(m.coefficients, n.x) % n.q, n.peers, inbox), n.q)
    case None => m.(raised := true)
    case Some(v) => m.(hidden := (m.product + v) % n.q)
  }

  ghost function TakeInverse(n: Inputs, m: Memory, inbox: seq<Packet>): Memory
    requires |inbox| == |n.peers| && AllClear(inbox)
  {
    match Recover(SharesFrom(n.x, m.hidden, n.peers, inbox), n.q)
    case None => m.(raised := true)
    case Some(t) => UseInverse(n, m, t)
  }

  /** The opened value must have an inverse; the share of the inverse of the nonce
      multiplies the share of r*d + z for the last opening. */
  function UseInverse(n: Inputs, m: Memory, t: int): Memory {
    match ModInverse(t, n.q)
    case None => m.(raised := true)
    case Some(w) =>
      var invk := (w * m.maskShare) % n.q;
      m.(product := (((m.r * n.y + n.z) % n.q) * invk) % n.q, coefficients := [0])
  }

  ghost function TakeSignature(n: Inputs, m: Memory, inbox: seq<Packet>): Memory
    requires |inbox| == |n.peers| && AllClear(inbox)
  {
    match Recover(SharesFrom(n.x, m.hidden, n.peers, inbox), n.q)
    case None => m.(raised := true)
    case Some(s) => m.(signature := Some(s))
  }
}

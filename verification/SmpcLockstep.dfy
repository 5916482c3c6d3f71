/** The signing protocol in lockstep: every share that a node holds is the value at
    its abscissa of one polynomial that all nodes share, so what is opened is that
    polynomial's value at 0. */
module SmpcLockstep {
  import opened ModArith
  import opened Polynomial
  import opened Lagrange
  import opened Shamir
  import opened SmpcProgram

  /** A signing session: abscissas and key shares of the nodes, what each draws in
      each round, and the order in which each iterates over its channels. */
  datatype Session = Session(q: Prime, k: nat, xs: seq<int>, ys: seq<int>, z: int, px: Point -> int,
                             coins: seq<seq<Poly>>, order: seq<seq<nat>>)
  {
    /** Enough nodes to open a product, with different abscissas, all connected. */
    ghost predicate Valid() {
      && k >= 1 && |xs| >= 2 * k - 1
      && |ys| == |xs| && |coins| == |xs| && |order| == |xs|
      && Distinct(xs, q)
      && (forall i :: 0 <= i < |xs| ==> Drawn(coins[i]))
      && (forall i :: 0 <= i < |xs| ==> PeersOf(order[i], i))
    }

    ghost predicate Drawn(rounds: seq<Poly>) {
      |rounds| == Rounds(k) && forall r :: 0 <= r < |rounds| ==> |rounds[r]| == k
    }

    ghost predicate PeersOf(s: seq<nat>, i: nat) {
      && (forall a, b :: 0 <= a < b < |s| ==> s[a] != s[b])
      && (forall a :: 0 <= a < |s| ==> s[a] < |xs| && s[a] != i)
      && (forall b :: 0 <= b < |xs| && b != i ==> b in s)
    }

    function InputsOf(i: nat): Inputs
      requires i < |xs| && i < |ys| && i < |coins| && i < |order|
      requires forall n :: 0 <= n < |order[i]| ==> order[i][n] < |xs|
    {
      Inputs(q, k, xs[i], ys[i], z, px, coins[i],
             seq(|order[i]|, n requires 0 <= n < |order[i]| => xs[order[i][n]]))
    }

    /** The shares of the secret key lie on a polynomial of degree below k. */
    ghost predicate Shares(key: Poly) {
      && |key| == k && |ys| == |xs|
      && forall i :: 0 <= i < |xs| ==> Cong(ys[i], Eval(key, xs[i]), q)
    }

    // ---- The joint polynomials ----------------------------------------------

    /** The sum of the polynomials that the first n nodes draw in round r. */
    ghost function Joint(r: nat, n: nat): (p: Poly)
      requires Valid() && r < Rounds(k) && n <= |xs|
      ensures |p| == if n == 0 then 0 else k
    {
      if n == 0 then [] else Add(Joint(r, n - 1), coins[n - 1][r])
    }

    /** The polynomial behind the biased random number of round r. */
    ghost function Biased(r: nat): (p: Poly)
      requires Valid() && r < Rounds(k)
      ensures |p| == k
    {
      Joint(r, |xs|)
    }

    /** The polynomial behind an unbiased number: its coefficients are the values
        at 0 of count biased ones. */
    ghost function Unbiased(first: nat, count: nat): (p: Poly)
      requires Valid() && first + count <= Rounds(k)
      ensures |p| == count
    {
      seq(count, i requires 0 <= i < count => Eval(Biased(first + i), 0))
    }

    ghost function Nonce(): (p: Poly)
      requires Valid()
      ensures |p| == k
    {
      Unbiased(0, k)
    }

    ghost function MaskPoly(): (p: Poly)
      requires Valid()
      ensures |p| == k
    {
      Biased(k + 2)
    }

    /** A polynomial that vanishes at 0. */
    ghost function ZeroPoly(first: nat): (p: Poly)
      requires Valid() && first + k - 1 <= Rounds(k)
      ensures |p| == k
    {
      [0] + Unbiased(first, k - 1)
    }

    ghost function MaskedNonce(): (p: Poly)
      requires Valid()
      ensures |p| == 2 * k - 1
    {
      Add(Mul(MaskPoly(), Nonce()), ZeroPoly(k + 3))
    }

    ghost function InversePoly(): (p: Poly)
      requires Valid()
      ensures |p| == k
    {
      Scale(Inv(Opened(), q), MaskPoly())
    }

    /** What the first opening reveals. */
    ghost function Opened(): int
      requires Valid()
    {
      Eval(MaskedNonce(), 0) % q
    }

    ghost function R(): int
      requires Valid()
    {
      px(Point(Eval(Nonce(), 0) % q)) % q
    }

    ghost function DataPoly(key: Poly): (p: Poly)
      requires Valid() && |key| == k
      ensures |p| == k
    {
      Add(Scale(R(), key), [z])
    }

    ghost function SignaturePoly(key: Poly): (p: Poly)
      requires Valid() && |key| == k
      ensures |p| == 2 * k - 1
    {
      Add(Mul(DataPoly(key), InversePoly()), ZeroPoly(2 * k + 4))
    }

    // ---- What a node's memory holds -----------------------------------------

    /** Shares of count joint polynomials at node i. */
    ghost function Collected(first: nat, count: nat, i: nat): (s: seq<int>)
      requires Valid() && first + count <= Rounds(k) && i < |xs|
      ensures |s| == count
    {
      seq(count, p requires 0 <= p < count => Eval(Biased(first + p), xs[i]) % q)
    }

    /** The memory of node i before round r, up to the first opening. */
    ghost predicate EarlyMemory(r: nat, i: nat, m: Memory)
      requires Valid() && i < |xs| && r <= 2 * k + 3
    {
      && m.Running()
      && (r <= k ==> m.coefficients == Collected(0, r, i))
      && (k < r ==> m.rngShare == Eval(Nonce(), xs[i]) % q)
      && (k + 1 < r ==> m.r == R())
      && (k + 2 < r ==> m.maskShare == Eval(MaskPoly(), xs[i]) % q)
      && (k + 2 < r ==> Cong(m.product, Eval(Mul(MaskPoly(), Nonce()), xs[i]), q))
      && (k + 2 < r <= 2 * k + 2 ==> m.coefficients == [0] + Collected(k + 3, r - (k + 3), i))
      && (r == 2 * k + 3 ==> m.hidden == Eval(MaskedNonce(), xs[i]) % q)
    }

    /** The memory of node i before round r, from the first opening on. */
    ghost predicate LateMemory(key: Poly, r: nat, i: nat, m: Memory)
      requires Valid() && |key| == k && i < |xs| && 2 * k + 4 <= r <= Rounds(k)
    {
      && !m.raised
      && m.r == R()
      && m.signature == (if r < Rounds(k) then None else Some(Eval(SignaturePoly(key), 0) % q))
      && Cong(m.product, Eval(Mul(DataPoly(key), InversePoly()), xs[i]), q)
      && (r <= 3 * k + 3 ==> m.coefficients == [0] + Collected(2 * k + 4, r - (2 * k + 4), i))
      && (r == 3 * k + 4 ==> m.hidden == Eval(SignaturePoly(key), xs[i]) % q)
    }

    /** What node i receives in round r when the memories are mems. */
    ghost function Inbox(r: nat, i: nat, mems: seq<Memory>): (inbox: seq<Packet>)
      requires Valid() && r < Rounds(k) && i < |xs| && |mems| == |xs|
      ensures |inbox| == |order[i]|
    {
      seq(|order[i]|, n requires 0 <= n < |order[i]| =>
        var j := order[i][n];
        Outgoing(InputsOf(j), r, mems[j], xs[i]))
    }
  }

  // ---- Sums over the nodes --------------------------------------------------

  ghost function SumOver(s: seq<nat>, f: nat -> int): int {
    if s == [] then 0 else SumOver(s[..|s| - 1], f) + f(s[|s| - 1])
  }

  ghost function SumBelow(n: nat, f: nat -> int): int {
    if n == 0 then 0 else SumBelow(n - 1, f) + f(n - 1)
  }

  lemma {:induction false} SumOverAppend(s: seq<nat>, t: seq<nat>, f: nat -> int)
    ensures SumOver(s + t, f) == SumOver(s, f) + SumOver(t, f)
  {
    if t == [] {
      assert s + t == s;
    } else {
      assert (s + t)[..|s + t| - 1] == s + t[..|t| - 1];
      SumOverAppend(s, t[..|t| - 1], f);
    }
  }

  /** s lists the numbers below n, each once. */
  ghost predicate Enumerates(s: seq<nat>, n: nat) {
    && (forall i, j :: 0 <= i < j < |s| ==> s[i] != s[j])
    && (forall i :: 0 <= i < |s| ==> s[i] < n)
    && (forall b :: 0 <= b < n ==> b in s)
  }

  /** A sum over all numbers below n does not depend on the order. */
  lemma {:induction false} SumInAnyOrder(s: seq<nat>, n: nat, f: nat -> int)
    requires Enumerates(s, n)
    ensures SumOver(s, f) == SumBelow(n, f)
  {
    if n == 0 {
      assert s == [];
    } else {
      assert n - 1 in s;
      var i :| 0 <= i < |s| && s[i] == n - 1;
      WithoutOne(s, i, n);
      SumInAnyOrder(s[..i] + s[i + 1..], n - 1, f);
      SumSplit(s, i, f);
    }
  }

  lemma SumSplit(s: seq<nat>, i: nat, f: nat -> int)
    requires i < |s|
    ensures SumOver(s, f) == SumOver(s[..i] + s[i + 1..], f) + f(s[i])
  {
    hide SumOver;
    var l, m, r := s[..i], [s[i]], s[i + 1..];
    assert s == (l + m) + r;
    SumOverAppend(l + m, r, f);
    SumOverAppend(l, m, f);
    SumOverAppend(l, r, f);
    SumOverOne(s[i], f);
  }

  lemma SumOverOne(a: nat, f: nat -> int)
    ensures SumOver([a], f) == f(a)
  {
    assert [a][..0] == [];
    assert SumOver([], f) == 0;
  }

  lemma WithoutOne(s: seq<nat>, i: nat, n: nat)
    requires n > 0 && i < |s| && s[i] == n - 1 && Enumerates(s, n)
    ensures Enumerates(s[..i] + s[i + 1..], n - 1)
  {
    var t := s[..i] + s[i + 1..];
    forall b | 0 <= b < n - 1
      ensures b in t
    {
      assert b in s;
      var j :| 0 <= j < |s| && s[j] == b;
      if j < i { assert t[j] == b; } else { assert t[j - 1] == b; }
    }
  }

  /** What node j's polynomial of round r gives at x. */
  ghost function DrawnAt(c: Session, r: nat, x: int, j: nat): int {
    if j < |c.coins| && r < |c.coins[j]| then Eval(c.coins[j][r], x) else 0
  }

  lemma {:induction false} EvalJoint(c: Session, r: nat, n: nat, x: int)
    requires c.Valid() && r < Rounds(c.k) && n <= |c.xs|
    ensures Eval(c.Joint(r, n), x) == SumBelow(n, (j: nat) => DrawnAt(c, r, x, j))
  {
    if n > 0 {
      EvalJoint(c, r, n - 1, x);
      EvalAdd(c.Joint(r, n - 1), c.coins[n - 1][r], x);
    }
  }

  // ---- Joint random generation ------------------------------------------------

  lemma {:induction false} BiasedShareSum(own: int, inbox: seq<Packet>, s: seq<nat>, f: nat -> int, q: Prime)
    requires AllSealed(inbox) && |s| == |inbox| && 0 <= own < q
    requires forall i :: 0 <= i < |inbox| ==> Cong(inbox[i].value, f(s[i]), q)
    ensures Cong(BiasedShare(own, inbox, q), own + SumOver(s, f), q)
    ensures 0 <= BiasedShare(own, inbox, q) < q
  {
    if inbox != [] {
      var n := |inbox| - 1;
      BiasedShareSum(own, inbox[..n], s[..n], f, q);
      var v := BiasedShare(own, inbox[..n], q);
      CongAdd(v, own + SumOver(s[..n], f), inbox[n].value, f(s[n]), q);
      CongMod(v + inbox[n].value, q);
    }
  }

  /** The output of a biased generation is the value of the sum of all nodes'
      polynomials, whatever the order of the channels. */
  lemma BiasedOutcome(c: Session, r: nat, i: nat, inbox: seq<Packet>)
    requires c.Valid() && r < Rounds(c.k) && i < |c.xs| && |inbox| == |c.order[i]|
    requires forall n :: 0 <= n < |inbox| ==>
               c.order[i][n] < |c.coins| && inbox[n] == Sealed(Eval(c.coins[c.order[i][n]][r], c.xs[i]) % c.q)
    ensures BiasedShare(Eval(c.coins[i][r], c.xs[i]) % c.q, inbox, c.q) == Eval(c.Biased(r), c.xs[i]) % c.q
  {
    hide Eval, SumOver, SumBelow, BiasedShare, Cong;
    var x, q, s := c.xs[i], c.q, c.order[i];
    var f := (j: nat) => DrawnAt(c, r, x, j);
    var own := Eval(c.coins[i][r], x) % q;
    forall n | 0 <= n < |inbox|
      ensures Cong(inbox[n].value, f(s[n]), q)
    {
      CongMod(f(s[n]), q);
    }
    BiasedShareSum(own, inbox, s, f, q);
    SumOwnAndPeers(c, i, f);
    EvalJoint(c, r, |c.xs|, x);
    ReducedSum(BiasedShare(own, inbox, q), own, f(i), SumOver(s, f), q);
  }

  lemma ReducedSum(v: int, own: int, a: int, b: int, q: Prime)
    requires 0 <= v < q && own == a % q && Cong(v, own + b, q)
    ensures v == (a + b) % q
  {
    CongMod(a, q);
    CongAdd(own, a, b, b, q);
    ModIsRemainder(v, q, 0, v);
  }

  lemma SumOwnAndPeers(c: Session, i: nat, f: nat -> int)
    requires c.Valid() && i < |c.xs|
    ensures f(i) + SumOver(c.order[i], f) == SumBelow(|c.xs|, f)
  {
    AllNodesOnce(c, i);
    SumInAnyOrder([i] + c.order[i], |c.xs|, f);
    SumOverAppend([i], c.order[i], f);
    SumOverOne(i, f);
  }

  lemma AllNodesOnce(c: Session, i: nat)
    requires c.Valid() && i < |c.xs|
    ensures Enumerates([i] + c.order[i], |c.xs|)
  {
    var s := c.order[i];
    assert c.PeersOf(s, i);
    forall b | 0 <= b < |c.xs|
      ensures b in [i] + s
    {
      assert b != i ==> b in s;
    }
  }

  // ---- Combining shares -------------------------------------------------------

  /** The polynomial in one variable left when the coefficient polynomials ps are
      combined with powers of y. */
  ghost function Combine(ps: seq<Poly>, y: int): Poly {
    if ps == [] then [] else Add(ps[0], Scale(y, Combine(ps[1..], y)))
  }

  lemma {:induction false} CombineSize(ps: seq<Poly>, y: int, k: nat)
    requires forall p :: p in ps ==> |p| <= k
    ensures |Combine(ps, y)| <= k
  {
    if ps != [] {
      CombineSize(ps[1..], y, k);
    }
  }

  /** Evaluating first in one variable and then in the other is the same both ways. */
  lemma {:induction false} EvalCombine(ps: seq<Poly>, y: int, x: int, values: seq<int>)
    requires |values| == |ps| && forall i :: 0 <= i < |ps| ==> values[i] == Eval(ps[i], x)
    ensures Eval(Combine(ps, y), x) == Eval(values, y)
  {
    if ps != [] {
      EvalCombine(ps[1..], y, x, values[1..]);
      EvalScale(y, Combine(ps[1..], y), x);
      EvalAdd(ps[0], Scale(y, Combine(ps[1..], y)), x);
    }
  }

  /** The abscissas of a node and of its peers, as they appear in its share lists. */
  lemma OwnAndPeersDistinct(c: Session, i: nat)
    requires c.Valid() && i < |c.xs|
    ensures Distinct([c.xs[i]] + c.InputsOf(i).peers, c.q)
    ensures |c.order[i]| + 1 == |c.xs|
  {
    var s := [i] + c.order[i];
    var xs := [c.xs[i]] + c.InputsOf(i).peers;
    AllNodesOnce(c, i);
    AllNodesCount(s, |c.xs|);
    forall a, b | 0 <= a < b < |xs|
      ensures !Cong(xs[a], xs[b], c.q)
    {
      assert xs[a] == c.xs[s[a]] && xs[b] == c.xs[s[b]];
      if s[a] < s[b] {
        assert !Cong(c.xs[s[a]], c.xs[s[b]], c.q);
      } else {
        assert !Cong(c.xs[s[b]], c.xs[s[a]], c.q);
      }
    }
  }

  lemma AllNodesCount(s: seq<nat>, n: nat)
    requires Enumerates(s, n)
    ensures |s| == n
  {
    var one := (j: nat) => 1;
    SumInAnyOrder(s, n, one);
    CountOver(s);
    CountBelow(n);
  }

  lemma {:induction false} CountOver(s: seq<nat>)
    ensures SumOver(s, (j: nat) => 1) == |s|
  {
    if s != [] {
      CountOver(s[..|s| - 1]);
    }
  }

  lemma {:induction false} CountBelow(n: nat)
    ensures SumBelow(n, (j: nat) => 1) == n
  {
    if n > 0 {
      CountBelow(n - 1);
    }
  }

  /** Shares of node i and its peers, one value for each. */
  ghost function ShareList(c: Session, i: nat, own: int, values: seq<int>): (shares: seq<Share>)
    requires c.Valid() && i < |c.xs| && |values| == |c.order[i]|
    ensures |shares| == |values| + 1 && shares[0] == Share(c.xs[i], own)
    ensures forall n :: 0 <= n < |values| ==>
              c.order[i][n] < |c.xs| && shares[n + 1] == Share(c.xs[c.order[i][n]], values[n])
  {
    assert c.PeersOf(c.order[i], i);
    [Share(c.xs[i], own)] + seq(|values|, n requires 0 <= n < |values| => Share(c.xs[c.order[i][n]], values[n]))
  }

  lemma ShareListAbscissas(c: Session, i: nat, own: int, values: seq<int>)
    requires c.Valid() && i < |c.xs| && |values| == |c.order[i]|
    ensures Abscissas(ShareList(c, i, own, values)) == [c.xs[i]] + c.InputsOf(i).peers
  {
  }

  /** Opening shares of a polynomial with no more coefficients than there are nodes. */
  lemma OpenOutcome(c: Session, i: nat, p: Poly, own: int, values: seq<int>)
    requires c.Valid() && i < |c.xs| && |p| <= |c.xs| && |values| == |c.order[i]|
    requires Cong(own, Eval(p, c.xs[i]), c.q)
    requires forall n :: 0 <= n < |values| ==> Cong(values[n], Eval(p, c.xs[c.order[i][n]]), c.q)
    ensures Recover(ShareList(c, i, own, values), c.q) == Some(Eval(p, 0) % c.q)
  {
    hide Eval, Recover, Distinct, Session.Joint;
    OwnAndPeersDistinct(c, i);
    var shares := ShareList(c, i, own, values);
    ShareListAbscissas(c, i, own, values);
    forall a | 0 <= a < |shares|
      ensures Cong(shares[a].y, Eval(p, shares[a].x), c.q)
    {
      if a > 0 {
        var n := a - 1;
        assert shares[n + 1] == Share(c.xs[c.order[i][n]], values[n]);
      }
    }
    RecoverExact(shares, p, c.q);
  }

  // ---- One round, by stage ----------------------------------------------------

  ghost function Numbers(inbox: seq<Packet>): (v: seq<int>)
    requires forall a :: 0 <= a < |inbox| ==> !inbox[a].ClearPoint?
    ensures |v| == |inbox| && forall a :: 0 <= a < |inbox| ==> v[a] == inbox[a].value
  {
    seq(|inbox|, a requires 0 <= a < |inbox| => inbox[a].value)
  }

  lemma SharesFromIsList(c: Session, i: nat, own: int, inbox: seq<Packet>)
    requires c.Valid() && i < |c.xs| && |inbox| == |c.order[i]|
    requires forall a :: 0 <= a < |inbox| ==> !inbox[a].ClearPoint?
    ensures SharesFrom(c.xs[i], own, c.InputsOf(i).peers, inbox) == ShareList(c, i, own, Numbers(inbox))
  {
  }

  ghost function Exponents(inbox: seq<Packet>): (v: seq<int>)
    requires AllPoints(inbox)
    ensures |v| == |inbox| && forall a :: 0 <= a < |inbox| ==> v[a] == inbox[a].pt.log
  {
    seq(|inbox|, a requires 0 <= a < |inbox| => inbox[a].pt.log)
  }

  /** Rounds in which every node sends values of a polynomial it has just drawn. */
  lemma BiasedRound(c: Session, r: nat, i: nat, mems: seq<Memory>)
    requires c.Valid() && r < Rounds(c.k) && i < |c.xs| && |mems| == |c.xs|
    requires StageOf(r, c.k) in {KeyCoefficient, Mask, ZeroCoefficient}
    ensures AllSealed(c.Inbox(r, i, mems))
    ensures BiasedShare(Eval(c.coins[i][r], c.xs[i]) % c.q, c.Inbox(r, i, mems), c.q)
         == Eval(c.Biased(r), c.xs[i]) % c.q
  {
    BiasedOutcome(c, r, i, c.Inbox(r, i, mems));
  }

  /** The coefficients of every node are its values of the polynomials ps. */
  ghost predicate CoefficientsOf(c: Session, mems: seq<Memory>, ps: seq<Poly>)
    requires c.Valid() && |mems| == |c.xs|
  {
    && (forall p :: 0 <= p < |ps| ==> |ps[p]| <= c.k)
    && (forall j :: 0 <= j < |mems| ==> |mems[j].coefficients| == |ps|)
    && (forall j, p :: 0 <= j < |mems| && 0 <= p < |ps| ==>
          Cong(mems[j].coefficients[p], Eval(ps[p], c.xs[j]), c.q))
  }

  ghost function ValuesAt(ps: seq<Poly>, x: int): (v: seq<int>)
    ensures |v| == |ps| && forall p :: 0 <= p < |ps| ==> v[p] == Eval(ps[p], x)
  {
    seq(|ps|, p requires 0 <= p < |ps| => Eval(ps[p], x))
  }

  /** The share that node j sends to node i lies on the combined polynomial. */
  lemma ShareOnCombined(c: Session, mems: seq<Memory>, ps: seq<Poly>, j: nat, y: int)
    requires c.Valid() && |mems| == |c.xs| && j < |mems| && CoefficientsOf(c, mems, ps)
    ensures Cong(Eval(mems[j].coefficients, y) % c.q, Eval(Combine(ps, y), c.xs[j]), c.q)
  {
    var values := ValuesAt(ps, c.xs[j]);
    EvalCong(mems[j].coefficients, values, y, y, c.q);
    EvalCombine(ps, y, c.xs[j], values);
    CongMod(Eval(mems[j].coefficients, y), c.q);
  }

  lemma CombinedInbox(c: Session, r: nat, i: nat, mems: seq<Memory>)
    requires c.Valid() && r < Rounds(c.k) && i < |c.xs| && |mems| == |c.xs|
    requires StageOf(r, c.k) in {KeyShare, ZeroShare}
    ensures forall a :: 0 <= a < |c.order[i]| ==>
              c.order[i][a] < |mems|
              && c.Inbox(r, i, mems)[a] == Sealed(Eval(mems[c.order[i][a]].coefficients, c.xs[i]) % c.q)
  {
    hide Eval, Distinct;
  }

  lemma OpenedInbox(c: Session, r: nat, i: nat, mems: seq<Memory>)
    requires c.Valid() && r < Rounds(c.k) && i < |c.xs| && |mems| == |c.xs|
    requires StageOf(r, c.k) in {OpenInverse, OpenSignature}
    ensures forall a :: 0 <= a < |c.order[i]| ==>
              c.order[i][a] < |mems| && c.Inbox(r, i, mems)[a] == Clear(mems[c.order[i][a]].hidden)
  {
    hide Distinct;
  }

  /** Rounds in which the nodes combine collected shares of random coefficients:
      every node ends with the value at its abscissa of the polynomial whose
      coefficients are the values at 0. */
  lemma CombineRound(c: Session, r: nat, i: nat, mems: seq<Memory>, ps: seq<Poly>)
    requires c.Valid() && r < Rounds(c.k) && i < |c.xs| && |mems| == |c.xs|
    requires StageOf(r, c.k) in {KeyShare, ZeroShare}
    requires CoefficientsOf(c, mems, ps)
    ensures AllSealed(c.Inbox(r, i, mems))
    ensures var n := c.InputsOf(i);
            Recover(SharesFrom(n.x, Eval(mems[i].coefficients, n.x) % n.q, n.peers, c.Inbox(r, i, mems)), n.q)
            == Some(Eval(ValuesAt(ps, 0), n.x) % n.q)
  {
    hide Eval, Recover, Distinct, Combine, Session.Joint, Session.Inbox, StageOf;
    CombinedInbox(c, r, i, mems);
    var n, inbox, comb := c.InputsOf(i), c.Inbox(r, i, mems), Combine(ps, c.xs[i]);
    var own := Eval(mems[i].coefficients, n.x) % n.q;
    var values := Numbers(inbox);
    CombineSize(ps, n.x, c.k);
    ShareOnCombined(c, mems, ps, i, n.x);
    forall a | 0 <= a < |values|
      ensures Cong(values[a], Eval(comb, c.xs[c.order[i][a]]), c.q)
    {
      ShareOnCombined(c, mems, ps, c.order[i][a], n.x);
    }
    OpenOutcome(c, i, comb, own, values);
    SharesFromIsList(c, i, own, inbox);
    EvalCombine(ps, n.x, 0, ValuesAt(ps, 0));
  }

  /** Rounds in which the nodes reveal hidden shares of one polynomial. */
  lemma OpenRound(c: Session, r: nat, i: nat, mems: seq<Memory>, p: Poly)
    requires c.Valid() && r < Rounds(c.k) && i < |c.xs| && |mems| == |c.xs|
    requires StageOf(r, c.k) in {OpenInverse, OpenSignature}
    requires |p| <= |c.xs|
    requires forall j :: 0 <= j < |mems| ==> mems[j].hidden == Eval(p, c.xs[j]) % c.q
    ensures AllClear(c.Inbox(r, i, mems))
    ensures var n := c.InputsOf(i);
            Recover(SharesFrom(n.x, mems[i].hidden, n.peers, c.Inbox(r, i, mems)), n.q)
            == Some(Eval(p, 0) % n.q)
  {
    hide Eval, Recover, Distinct, Session.Joint, Session.Inbox, StageOf;
    OpenedInbox(c, r, i, mems);
    var n, inbox, own := c.InputsOf(i), c.Inbox(r, i, mems), mems[i].hidden;
    var values := Numbers(inbox);
    CongMod(Eval(p, c.xs[i]), c.q);
    forall a | 0 <= a < |values|
      ensures Cong(values[a], Eval(p, c.xs[c.order[i][a]]), c.q)
    {
      CongMod(Eval(p, c.xs[c.order[i][a]]), c.q);
    }
    OpenOutcome(c, i, p, own, values);
    SharesFromIsList(c, i, own, inbox);
  }

  /** The round in which the nodes publish their points. */
  lemma PointRound(c: Session, r: nat, i: nat, mems: seq<Memory>, p: Poly)
    requires c.Valid() && r < Rounds(c.k) && i < |c.xs| && |mems| == |c.xs|
    requires StageOf(r, c.k) == KeyPoint
    requires |p| <= |c.xs|
    requires forall j :: 0 <= j < |mems| ==> mems[j].rngShare == Eval(p, c.xs[j]) % c.q
    ensures AllPoints(c.Inbox(r, i, mems))
    ensures var n := c.InputsOf(i);
            Recover(Logs(PointSharesFrom(n.x, Times(mems[i].rngShare, G(n.q), n.q), n.peers, c.Inbox(r, i, mems))), n.q)
            == Some(Eval(p, 0) % n.q)
  {
    hide Eval, Recover, Distinct, Session.Joint;
    var n, inbox := c.InputsOf(i), c.Inbox(r, i, mems);
    var own := Times(mems[i].rngShare, G(n.q), n.q);
    var values := Exponents(inbox);
    PointOnPolynomial(c, mems, p, i);
    forall a | 0 <= a < |values|
      ensures Cong(values[a], Eval(p, c.xs[c.order[i][a]]), c.q)
    {
      PointOnPolynomial(c, mems, p, c.order[i][a]);
    }
    OpenOutcome(c, i, p, own.log, values);
    assert Logs(PointSharesFrom(n.x, own, n.peers, inbox)) == ShareList(c, i, own.log, values);
  }

  lemma PointOnPolynomial(c: Session, mems: seq<Memory>, p: Poly, j: nat)
    requires c.Valid() && |mems| == |c.xs| && j < |mems|
    requires mems[j].rngShare == Eval(p, c.xs[j]) % c.q
    ensures Cong(Times(mems[j].rngShare, G(c.q), c.q).log, Eval(p, c.xs[j]), c.q)
  {
    TimesGenerator(mems[j].rngShare, c.q);
    CongMod(Eval(p, c.xs[j]), c.q);
    CongMod(mems[j].rngShare, c.q);
  }

  // ---- From round to round ------------------------------------------------------

  ghost predicate AllEarly(c: Session, r: nat, mems: seq<Memory>)
    requires c.Valid() && r <= 2 * c.k + 3
  {
    |mems| == |c.xs| && forall j :: 0 <= j < |mems| ==> c.EarlyMemory(r, j, mems[j])
  }

  ghost function After(c: Session, r: nat, i: nat, mems: seq<Memory>): Memory
    requires c.Valid() && r < Rounds(c.k) && i < |c.xs| && |mems| == |c.xs|
  {
    Absorb(c.InputsOf(i), r, mems[i], c.Inbox(r, i, mems))
  }

  lemma KeyCoefficientStep(c: Session, r: nat, i: nat, mems: seq<Memory>)
    requires c.Valid() && r < c.k && i < |c.xs| && AllEarly(c, r, mems)
    ensures c.EarlyMemory(r + 1, i, After(c, r, i, mems))
  {
    BiasedRound(c, r, i, mems);
    var m := mems[i];
    assert c.EarlyMemory(r, i, m);
    assert m.coefficients + [Eval(c.Biased(r), c.xs[i]) % c.q] == c.Collected(0, r + 1, i);
  }

  lemma KeyShareStep(c: Session, i: nat, mems: seq<Memory>)
    requires c.Valid() && i < |c.xs| && AllEarly(c, c.k, mems)
    ensures c.EarlyMemory(c.k + 1, i, After(c, c.k, i, mems))
  {
    var ps := seq(c.k, p requires 0 <= p < c.k => c.Biased(p));
    forall j, p | 0 <= j < |mems| && 0 <= p < c.k
      ensures |mems[j].coefficients| == c.k && Cong(mems[j].coefficients[p], Eval(ps[p], c.xs[j]), c.q)
    {
      assert c.EarlyMemory(c.k, j, mems[j]);
      assert mems[j].coefficients[p] == c.Collected(0, c.k, j)[p];
      CongMod(Eval(ps[p], c.xs[j]), c.q);
    }
    assert forall j :: 0 <= j < |mems| ==> c.EarlyMemory(c.k, j, mems[j]) && |mems[j].coefficients| == c.k;
    CombineRound(c, c.k, i, mems, ps);
    assert ValuesAt(ps, 0) == c.Nonce();
    assert c.EarlyMemory(c.k, i, mems[i]);
  }

  lemma KeyPointStep(c: Session, i: nat, mems: seq<Memory>)
    requires c.Valid() && i < |c.xs| && AllEarly(c, c.k + 1, mems)
    ensures c.EarlyMemory(c.k + 2, i, After(c, c.k + 1, i, mems))
  {
    forall j | 0 <= j < |mems|
      ensures mems[j].rngShare == Eval(c.Nonce(), c.xs[j]) % c.q
    {
      assert c.EarlyMemory(c.k + 1, j, mems[j]);
    }
    PointRound(c, c.k + 1, i, mems, c.Nonce());
    var v := Eval(c.Nonce(), 0) % c.q;
    TimesGenerator(v, c.q);
    ModIsRemainder(v, c.q, 0, v);
    assert c.EarlyMemory(c.k + 1, i, mems[i]);
  }

  lemma MaskStep(c: Session, i: nat, mems: seq<Memory>)
    requires c.Valid() && i < |c.xs| && AllEarly(c, c.k + 2, mems)
    ensures c.EarlyMemory(c.k + 3, i, After(c, c.k + 2, i, mems))
  {
    hide Eval, Mul, BiasedShare, Session.Inbox;
    BiasedRound(c, c.k + 2, i, mems);
    assert c.EarlyMemory(c.k + 2, i, mems[i]);
    MaskProduct(c, c.xs[i]);
    assert [0] == [0] + c.Collected(c.k + 3, 0, i);
  }

  lemma MaskProduct(c: Session, x: int)
    requires c.Valid()
    ensures Cong(((Eval(c.MaskPoly(), x) % c.q) * (Eval(c.Nonce(), x) % c.q)) % c.q,
                 Eval(Mul(c.MaskPoly(), c.Nonce()), x), c.q)
  {
    ReducedProduct(Eval(c.MaskPoly(), x), Eval(c.Nonce(), x), c.q);
    EvalMul(c.MaskPoly(), c.Nonce(), x);
  }

  lemma ReducedProduct(a: int, b: int, q: Prime)
    ensures Cong(((a % q) * (b % q)) % q, a * b, q)
  {
    CongMod(a, q);
    CongMod(b, q);
    CongMul(a % q, a, b % q, b, q);
    CongMod((a % q) * (b % q), q);
  }

  lemma ZeroCoefficientStep(c: Session, r: nat, i: nat, mems: seq<Memory>)
    requires c.Valid() && c.k + 3 <= r < 2 * c.k + 2 && i < |c.xs| && AllEarly(c, r, mems)
    ensures c.EarlyMemory(r + 1, i, After(c, r, i, mems))
  {
    BiasedRound(c, r, i, mems);
    var m := mems[i];
    assert c.EarlyMemory(r, i, m);
    assert m.coefficients + [Eval(c.Biased(r), c.xs[i]) % c.q] == [0] + c.Collected(c.k + 3, r + 1 - (c.k + 3), i);
  }

  /** The polynomials behind the coefficients of a random zero. */
  ghost function ZeroBasis(c: Session, first: nat): (ps: seq<Poly>)
    requires c.Valid() && first + c.k - 1 <= Rounds(c.k)
    ensures |ps| == c.k && ps[0] == [] && forall p :: 1 <= p < c.k ==> ps[p] == c.Biased(first + p - 1)
  {
    [[]] + seq(c.k - 1, p requires 0 <= p < c.k - 1 => c.Biased(first + p))
  }

  lemma ZeroCoefficientsOf(c: Session, first: nat, mems: seq<Memory>)
    requires c.Valid() && first + c.k - 1 <= Rounds(c.k) && |mems| == |c.xs|
    requires forall j :: 0 <= j < |mems| ==> mems[j].coefficients == [0] + c.Collected(first, c.k - 1, j)
    ensures CoefficientsOf(c, mems, ZeroBasis(c, first))
    ensures ValuesAt(ZeroBasis(c, first), 0) == c.ZeroPoly(first)
  {
    var ps := ZeroBasis(c, first);
    forall j, p | 0 <= j < |mems| && 0 <= p < |ps|
      ensures Cong(mems[j].coefficients[p], Eval(ps[p], c.xs[j]), c.q)
    {
      if p > 0 {
        assert mems[j].coefficients[p] == c.Collected(first, c.k - 1, j)[p - 1];
        CongMod(Eval(ps[p], c.xs[j]), c.q);
      }
    }
  }

  /** Hiding a share of a polynomial p behind a share of zero. */
  lemma HiddenShare(p: Poly, zero: Poly, x: int, product: int, v: int, q: Prime)
    requires Cong(product, Eval(p, x), q) && v == Eval(zero, x) % q
    ensures (product + v) % q == Eval(Add(p, zero), x) % q
  {
    EvalAdd(p, zero, x);
    CongMod(Eval(zero, x), q);
    CongAdd(product, Eval(p, x), v, Eval(zero, x), q);
  }

  lemma ZeroShareStep(c: Session, i: nat, mems: seq<Memory>)
    requires c.Valid() && i < |c.xs| && AllEarly(c, 2 * c.k + 2, mems)
    ensures c.EarlyMemory(2 * c.k + 3, i, After(c, 2 * c.k + 2, i, mems))
  {
    hide After, Mul, Add, Eval, Session.Joint;
    EarlyZeroCoefficients(c, mems);
    var m, zero := mems[i], c.ZeroPoly(c.k + 3);
    assert c.EarlyMemory(2 * c.k + 2, i, m);
    HideOutcome(c, 2 * c.k + 2, i, mems, c.k + 3, Mul(c.MaskPoly(), c.Nonce()));
  }

  lemma EarlyZeroCoefficients(c: Session, mems: seq<Memory>)
    requires c.Valid() && AllEarly(c, 2 * c.k + 2, mems)
    ensures forall j :: 0 <= j < |mems| ==> mems[j].coefficients == [0] + c.Collected(c.k + 3, c.k - 1, j)
  {
    forall j | 0 <= j < |mems|
      ensures mems[j].coefficients == [0] + c.Collected(c.k + 3, c.k - 1, j)
    {
      assert c.EarlyMemory(2 * c.k + 2, j, mems[j]);
    }
  }

  /** The end of a random zero: the product about to be opened is hidden. */
  lemma HideOutcome(c: Session, r: nat, i: nat, mems: seq<Memory>, first: nat, p: Poly)
    requires c.Valid() && r < Rounds(c.k) && StageOf(r, c.k) == ZeroShare && first + c.k - 1 <= Rounds(c.k)
    requires i < |c.xs| && |mems| == |c.xs|
    requires forall j :: 0 <= j < |mems| ==> mems[j].coefficients == [0] + c.Collected(first, c.k - 1, j)
    requires Cong(mems[i].product, Eval(p, c.xs[i]), c.q)
    ensures After(c, r, i, mems) == mems[i].(hidden := Eval(Add(p, c.ZeroPoly(first)), c.xs[i]) % c.q)
  {
    ZeroCoefficientsOf(c, first, mems);
    CombineRound(c, r, i, mems, ZeroBasis(c, first));
    HiddenShare(p, c.ZeroPoly(first), c.xs[i], mems[i].product, Eval(c.ZeroPoly(first), c.xs[i]) % c.q, c.q);
  }

  lemma EarlyStep(c: Session, r: nat, i: nat, mems: seq<Memory>)
    requires c.Valid() && r < 2 * c.k + 3 && i < |c.xs| && AllEarly(c, r, mems)
    ensures c.EarlyMemory(r + 1, i, After(c, r, i, mems))
  {
    hide Session.EarlyMemory, After;
    if r < c.k {
      KeyCoefficientStep(c, r, i, mems);
    } else if r == c.k {
      KeyShareStep(c, i, mems);
    } else if r == c.k + 1 {
      KeyPointStep(c, i, mems);
    } else if r == c.k + 2 {
      MaskStep(c, i, mems);
    } else if r < 2 * c.k + 2 {
      ZeroCoefficientStep(c, r, i, mems);
    } else {
      ZeroShareStep(c, i, mems);
    }
  }

  /** The first opening: its value is the same at every node. Without an inverse
      every node raises; with one every node goes on. */
  lemma OpenInverseStep(c: Session, key: Poly, i: nat, mems: seq<Memory>)
    requires c.Valid() && c.Shares(key) && i < |c.xs| && AllEarly(c, 2 * c.k + 3, mems)
    ensures Cong(c.Opened(), 0, c.q) ==>
              After(c, 2 * c.k + 3, i, mems).raised && After(c, 2 * c.k + 3, i, mems).signature == None
    ensures !Cong(c.Opened(), 0, c.q) ==> c.LateMemory(key, 2 * c.k + 4, i, After(c, 2 * c.k + 3, i, mems))
  {
    forall j | 0 <= j < |mems|
      ensures mems[j].hidden == Eval(c.MaskedNonce(), c.xs[j]) % c.q
    {
      assert c.EarlyMemory(2 * c.k + 3, j, mems[j]);
    }
    OpenRound(c, 2 * c.k + 3, i, mems, c.MaskedNonce());
    ModInverseCorrect(c.Opened(), c.q);
    var m := mems[i];
    assert c.EarlyMemory(2 * c.k + 3, i, m);
    if !Cong(c.Opened(), 0, c.q) {
      SignatureShare(c, key, i, m.maskShare);
      assert [0] + c.Collected(2 * c.k + 4, 0, i) == [0];
    }
  }

  /** The product of a node's share of r*d + z and its share of the inverse of the nonce. */
  lemma SignatureShare(c: Session, key: Poly, i: nat, mask: int)
    requires c.Valid() && c.Shares(key) && i < |c.xs|
    requires mask == Eval(c.MaskPoly(), c.xs[i]) % c.q
    ensures var invk := (Inv(c.Opened(), c.q) * mask) % c.q;
            Cong((((c.R() * c.ys[i] + c.z) % c.q) * invk) % c.q,
                 Eval(Mul(c.DataPoly(key), c.InversePoly()), c.xs[i]), c.q)
  {
    var x, q, w := c.xs[i], c.q, Inv(c.Opened(), c.q);
    var e := Eval(c.MaskPoly(), x);
    CongMod(e, q);
    CongMul(w, w, mask, e, q);
    EvalScale(w, c.MaskPoly(), x);
    DataShare(c, key, i);
    ReducedProduct(c.R() * c.ys[i] + c.z, w * mask, q);
    CongMul(c.R() * c.ys[i] + c.z, Eval(c.DataPoly(key), x), w * mask, w * e, q);
    EvalMul(c.DataPoly(key), c.InversePoly(), x);
  }

  lemma DataShare(c: Session, key: Poly, i: nat)
    requires c.Valid() && c.Shares(key) && i < |c.xs|
    ensures Cong(c.R() * c.ys[i] + c.z, Eval(c.DataPoly(key), c.xs[i]), c.q)
  {
    var x := c.xs[i];
    EvalScale(c.R(), key, x);
    EvalAdd(Scale(c.R(), key), [c.z], x);
    EvalConstant(c.z, x);
    CongMul(c.R(), c.R(), c.ys[i], Eval(key, x), c.q);
    CongAdd(c.R() * c.ys[i], c.R() * Eval(key, x), c.z, c.z, c.q);
  }

  lemma EvalConstant(z: int, x: int)
    ensures Eval([z], x) == z
  {
    assert [z][1..] == [];
    assert Eval([], x) == 0;
    assert x * 0 == 0;
  }

  ghost predicate AllLate(c: Session, key: Poly, r: nat, mems: seq<Memory>)
    requires c.Valid() && |key| == c.k && 2 * c.k + 4 <= r <= Rounds(c.k)
  {
    |mems| == |c.xs| && forall j :: 0 <= j < |mems| ==> c.LateMemory(key, r, j, mems[j])
  }

  lemma LateCoefficientStep(c: Session, key: Poly, r: nat, i: nat, mems: seq<Memory>)
    requires c.Valid() && |key| == c.k && 2 * c.k + 4 <= r < 3 * c.k + 3 && i < |c.xs|
    requires AllLate(c, key, r, mems)
    ensures c.LateMemory(key, r + 1, i, After(c, r, i, mems))
  {
    BiasedRound(c, r, i, mems);
    var m := mems[i];
    assert c.LateMemory(key, r, i, m);
    assert m.coefficients + [Eval(c.Biased(r), c.xs[i]) % c.q]
        == [0] + c.Collected(2 * c.k + 4, r + 1 - (2 * c.k + 4), i);
  }

  lemma LateZeroCoefficients(c: Session, key: Poly, mems: seq<Memory>)
    requires c.Valid() && |key| == c.k && AllLate(c, key, 3 * c.k + 3, mems)
    ensures forall j :: 0 <= j < |mems| ==> mems[j].coefficients == [0] + c.Collected(2 * c.k + 4, c.k - 1, j)
  {
    forall j | 0 <= j < |mems|
      ensures mems[j].coefficients == [0] + c.Collected(2 * c.k + 4, c.k - 1, j)
    {
      assert c.LateMemory(key, 3 * c.k + 3, j, mems[j]);
    }
  }

  lemma LateShareStep(c: Session, key: Poly, i: nat, mems: seq<Memory>)
    requires c.Valid() && |key| == c.k && i < |c.xs| && AllLate(c, key, 3 * c.k + 3, mems)
    ensures c.LateMemory(key, 3 * c.k + 4, i, After(c, 3 * c.k + 3, i, mems))
  {
    hide After, Mul, Add, Eval, Session.Joint;
    LateZeroCoefficients(c, key, mems);
    assert c.LateMemory(key, 3 * c.k + 3, i, mems[i]);
    HideOutcome(c, 3 * c.k + 3, i, mems, 2 * c.k + 4, Mul(c.DataPoly(key), c.InversePoly()));
  }

  lemma OpenSignatureStep(c: Session, key: Poly, i: nat, mems: seq<Memory>)
    requires c.Valid() && |key| == c.k && i < |c.xs| && AllLate(c, key, 3 * c.k + 4, mems)
    ensures c.LateMemory(key, Rounds(c.k), i, After(c, 3 * c.k + 4, i, mems))
  {
    forall j | 0 <= j < |mems|
      ensures mems[j].hidden == Eval(c.SignaturePoly(key), c.xs[j]) % c.q
    {
      assert c.LateMemory(key, 3 * c.k + 4, j, mems[j]);
    }
    OpenRound(c, 3 * c.k + 4, i, mems, c.SignaturePoly(key));
    assert c.LateMemory(key, 3 * c.k + 4, i, mems[i]);
  }

  lemma LateStep(c: Session, key: Poly, r: nat, i: nat, mems: seq<Memory>)
    requires c.Valid() && |key| == c.k && 2 * c.k + 4 <= r < Rounds(c.k) && i < |c.xs|
    requires AllLate(c, key, r, mems)
    ensures c.LateMemory(key, r + 1, i, After(c, r, i, mems))
  {
    hide Session.LateMemory, After;
    if r < 3 * c.k + 3 {
      LateCoefficientStep(c, key, r, i, mems);
    } else if r == 3 * c.k + 3 {
      LateShareStep(c, key, i, mems);
    } else {
      OpenSignatureStep(c, key, i, mems);
    }
  }

  // ---- The opened values ----------------------------------------------------------

  /** A product hidden by a sharing of zero opens as the product itself, although
      its sharing has twice the degree. */
  lemma HiddenProductOpens(a: Poly, b: Poly, zero: Poly, q: Prime)
    requires a != [] && b != [] && zero != [] && zero[0] == 0
    ensures Eval(Add(Mul(a, b), zero), 0) == a[0] * b[0]
  {
    EvalAdd(Mul(a, b), zero, 0);
    EvalMul(a, b, 0);
    EvalAtZero(a);
    EvalAtZero(b);
    EvalAtZero(zero);
  }
}

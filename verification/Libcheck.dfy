/** The secret check of the library: the bytes are compared in an order that is
    shuffled at random. */
module Libcheck {
  import opened ModArith
  import opened Rearrangement

  const SECRET_SIZE := 32

  // ---- The shuffle ------------------------------------------------------------------

  /** The position drawn from n - i, for a random number of at most max. */
  function Drawn(i: nat, n: nat, r: nat, max: nat): nat
    requires i < n
  {
    i + r / (max / (n - i) + 1)
  }

  /** The position lies between i and n, whatever the generator's range. */
  lemma DrawnInRange(i: nat, n: nat, r: nat, max: nat)
    requires i < n && r <= max
    ensures i <= Drawn(i, n, r, max) < n
  {
    var left := n - i;
    var width := max / left + 1;
    assert left * width > max by {
      assert max == left * (max / left) + max % left;
      assert left * width == left * (max / left) + left;
    }
    QuotientBelow(r, width, left);
  }

  lemma QuotientBelow(r: nat, width: nat, left: nat)
    requires width > 0 && r < left * width
    ensures r / width < left
  {
    var q := r / width;
    assert q * width <= r;
    assert q >= left ==> q * width >= left * width;
  }

  function Width(i: nat, n: nat, max: nat): (w: nat)
    requires i < n
    ensures w > 0
  {
    max / (n - i) + 1
  }

  ghost predicate CanDraw(i: nat, n: nat, j: nat, max: nat)
    requires i < n
  {
    exists r: nat :: r <= max && Drawn(i, n, r, max) == j
  }

  /** Every position can be drawn exactly when the generator's range reaches the last. */
  lemma EveryPositionDrawn(i: nat, n: nat, max: nat)
    requires i < n
    ensures (n - i - 1) * Width(i, n, max) <= max <==> forall j :: i <= j < n ==> CanDraw(i, n, j, max)
  {
    hide CanDraw;
    if (n - i - 1) * Width(i, n, max) <= max {
      forall j | i <= j < n
        ensures CanDraw(i, n, j, max)
      {
        PositionDrawn(i, n, j, max);
      }
    }
    if CanDraw(i, n, n - 1, max) {
      LastDrawn(i, n, max);
    }
  }

  lemma PositionDrawn(i: nat, n: nat, j: nat, max: nat)
    requires i <= j < n && (n - i - 1) * Width(i, n, max) <= max
    ensures CanDraw(i, n, j, max)
  {
    var width := Width(i, n, max);
    var p := j - i;
    var r := p * width;
    assert p <= n - i - 1 ==> p * width <= (n - i - 1) * width;
    ModIsRemainder(r, width, p, 0);
    assert r / width == p;
    assert Drawn(i, n, r, max) == j;
  }

  lemma LastDrawn(i: nat, n: nat, max: nat)
    requires i < n && CanDraw(i, n, n - 1, max)
    ensures (n - i - 1) * Width(i, n, max) <= max
  {
    var width := Width(i, n, max);
    var r: nat :| r <= max && Drawn(i, n, r, max) == n - 1;
    assert r / width == n - i - 1;
    assert (r / width) * width <= r;
  }

  /** A stream of random numbers, each at most max. */
  ghost predicate InRange(draws: nat -> nat, max: nat) {
    forall i :: draws(i) <= max
  }

  // ---- What the draws reach --------------------------------------------------------------

  /** The positions that the generator's numbers give. */
  function DrawnPositions(n: nat, draws: nat -> nat, max: nat): (js: seq<nat>)
    requires n > 0
    ensures |js| == n - 1
  {
    seq<nat>(n - 1, (i: nat) requires i < n - 1 => Drawn(i, n, draws(i), max))
  }

  lemma DrawnArePositions(n: nat, draws: nat -> nat, max: nat)
    requires n > 0 && InRange(draws, max)
    ensures Positions(DrawnPositions(n, draws, max), n)
  {
    forall k | 0 <= k < n - 1
      ensures k <= DrawnPositions(n, draws, max)[k] < n
    {
      DrawnInRange(k, n, draws(k), max);
    }
  }

  /** The generator's range reaches the last position at every step. */
  ghost predicate RangeReaches(n: nat, max: nat) {
    forall i :: 0 <= i < n - 1 ==> LastReached(i, n, max)
  }

  ghost predicate LastReached(i: nat, n: nat, max: nat)
    requires i < n
  {
    (n - i - 1) * Width(i, n, max) <= max
  }

  ghost predicate Reached<T>(s: seq<T>, t: seq<T>, max: nat)
    requires s != []
  {
    exists draws ::
      InRange(draws, max) && Positions(DrawnPositions(|s|, draws, max), |s|)
      && Arranged(s, DrawnPositions(|s|, draws, max)) == t
  }

  /** Numbers from which given positions are drawn. */
  function DrawsFor(js: seq<nat>, n: nat, max: nat): nat -> nat {
    (i: nat) => if i < |js| && i <= js[i] && i < n then (js[i] - i) * Width(i, n, max) else 0
  }

  lemma DrawsGive(js: seq<nat>, n: nat, max: nat)
    requires Positions(js, n) && |js| == n - 1 && RangeReaches(n, max)
    ensures InRange(DrawsFor(js, n, max), max) && DrawnPositions(n, DrawsFor(js, n, max), max) == js
  {
    hide Drawn, LastReached, Width;
    var draws := DrawsFor(js, n, max);
    forall i: nat
      ensures draws(i) <= max
    {
      if i < n - 1 {
        assert LastReached(i, n, max);
        DrawnFor(i, n, js[i], max);
      }
    }
    forall i | 0 <= i < n - 1
      ensures Drawn(i, n, draws(i), max) == js[i]
    {
      assert LastReached(i, n, max);
      DrawnFor(i, n, js[i], max);
    }
  }

  lemma DrawnFor(i: nat, n: nat, j: nat, max: nat)
    requires i <= j < n && LastReached(i, n, max)
    ensures (j - i) * Width(i, n, max) <= max && Drawn(i, n, (j - i) * Width(i, n, max), max) == j
  {
    var width, p := Width(i, n, max), j - i;
    ScaleUp(p, n - i - 1, width);
    ModIsRemainder(p * width, width, p, 0);
  }

  lemma ScaleUp(p: nat, m: nat, w: nat)
    requires p <= m
    ensures p * w <= m * w
  {
  }

  /** Every rearrangement of different members is reached exactly if the generator's range
      reaches the last position at every step. */
  lemma EveryOrderReached<T>(s: seq<T>, max: nat)
    requires s != [] && Different(s)
    ensures RangeReaches(|s|, max) <==> forall t: seq<T> :: multiset(t) == multiset(s) ==> Reached(s, t, max)
  {
    hide Arranged, DrawnPositions, Different, Drawn;
    var n := |s|;
    if RangeReaches(n, max) {
      forall t: seq<T> | multiset(t) == multiset(s)
        ensures Reached(s, t, max)
      {
        OrderReached(s, t, max);
      }
    }
    if forall t: seq<T> :: multiset(t) == multiset(s) ==> Reached(s, t, max) {
      forall i | 0 <= i < n - 1
        ensures LastReached(i, n, max)
      {
        var js := LastAt(i, n);
        var t := Arranged(s, js);
        ArrangedPermutes(s, js);
        assert Reached(s, t, max);
        LastDrawnAt(s, js, i, max);
      }
    }
  }

  lemma OrderReached<T>(s: seq<T>, t: seq<T>, max: nat)
    requires s != [] && multiset(t) == multiset(s) && RangeReaches(|s|, max)
    ensures Reached(s, t, max)
  {
    hide Arranged, DrawnPositions, DrawsFor;
    var n := |s|;
    var js := EveryOrder(s, t);
    DrawsGive(js, n, max);
  }

  /** Every member stays where it is, except that member i goes to the end. */
  lemma LastAt(i: nat, n: nat) returns (js: seq<nat>)
    requires i < n - 1
    ensures Positions(js, n) && |js| == n - 1 && js[i] == n - 1
  {
    js := seq(n - 1, (k: nat) => if k == i then n - 1 else k);
  }

  lemma LastDrawnAt<T>(s: seq<T>, js: seq<nat>, i: nat, max: nat)
    requires Different(s) && Positions(js, |s|) && i < |js| == |s| - 1 && js[i] == |s| - 1
    requires Reached(s, Arranged(s, js), max)
    ensures LastReached(i, |s|, max)
  {
    hide Arranged, Different, Drawn, LastReached, DrawnPositions;
    var n := |s|;
    var draws :| InRange(draws, max) && Positions(DrawnPositions(n, draws, max), n)
                 && Arranged(s, DrawnPositions(n, draws, max)) == Arranged(s, js);
    var ks := DrawnPositions(n, draws, max);
    SamePositions(s, js, ks, |js|);
    assert js[..|js|] == js && ks[..|ks|] == ks;
    LastInDraws(n, draws, max, i);
  }

  lemma LastInDraws(n: nat, draws: nat -> nat, max: nat, i: nat)
    requires i < n - 1 && InRange(draws, max) && DrawnPositions(n, draws, max)[i] == n - 1
    ensures LastReached(i, n, max)
  {
    hide Drawn, Width;
    assert Drawn(i, n, draws(i), max) == n - 1;
    assert CanDraw(i, n, n - 1, max);
    LastDrawn(i, n, max);
  }

  /** For instance if the range is at least n times n - 1. */
  lemma WideRange(n: nat, max: nat)
    requires max >= n * (n - 1)
    ensures RangeReaches(n, max)
  {
    forall i | 0 <= i < n - 1
      ensures LastReached(i, n, max)
    {
      var left := n - i;
      assert left * (left - 1) <= n * (n - 1);
      WideEnough(left, max);
    }
  }

  lemma WideEnough(left: nat, max: nat)
    requires left > 0 && max >= left * (left - 1)
    ensures (left - 1) * (max / left + 1) <= max
  {
    var p := max / left;
    assert max == left * p + max % left;
    assert left * (p + 1) == left * p + left;
    assert p + 1 <= left - 1 ==> left * (p + 1) <= left * (left - 1);
    assert (left - 1) * (p + 1) == left * p + (left - 1) - p;
  }

  method Shuffle(a: array<nat>, n: nat, draws: nat -> nat, max: nat)
    requires n <= a.Length && InRange(draws, max)
    modifies a
    ensures multiset(a[..n]) == multiset(old(a[..n])) && a[n..] == old(a[n..])
    ensures n > 0 ==> Positions(DrawnPositions(n, draws, max), n)
                      && a[..n] == Arranged(old(a[..n]), DrawnPositions(n, draws, max))
  {
    if n == 0 {
      return;
    }
    hide Arranged, Swapped, Drawn;
    ghost var s, js := a[..n], DrawnPositions(n, draws, max);
    DrawnArePositions(n, draws, max);
    var i := 0;
    assert js[..0] == [];
    while i < n - 1
      invariant 0 <= i <= n - 1
      invariant a[..n] == Arranged(s, js[..i]) && a[n..] == old(a[n..])
    {
      DrawnInRange(i, n, draws(i), max);
      var j := Drawn(i, n, draws(i), max);
      Swap(a, i, j, n);
      assert js[..i + 1][..i] == js[..i];
      i := i + 1;
    }
    assert js[..i] == js;
    ArrangedPermutes(s, js);
  }

  method Swap(a: array<nat>, i: nat, j: nat, n: nat)
    requires i < n <= a.Length && j < n
    modifies a
    ensures a[..] == old(a[..])[i := old(a[j])][j := old(a[i])]
    ensures a[..n] == Swapped(old(a[..n]), i, j) && a[n..] == old(a[n..])
  {
    ghost var before := a[..n];
    var t := a[j];
    a[j] := a[i];
    a[i] := t;
    assert a[..n] == before[i := before[j]][j := before[i]];
  }

  // ---- The check ----------------------------------------------------------------------

  function Identity(n: nat): (s: seq<nat>)
    ensures |s| == n
  {
    seq(n, i requires 0 <= i < n => i)
  }

  /** A rearrangement of 0 to n - 1 holds every index, and nothing else. */
  lemma ShuffledIndexes(s: seq<nat>, n: nat)
    requires multiset(s) == multiset(Identity(n))
    ensures |s| == n
    ensures forall k :: 0 <= k < n ==> s[k] < n
    ensures forall v :: 0 <= v < n ==> v in s
  {
    assert |s| == |multiset(s)| == |multiset(Identity(n))| == n;
    forall k | 0 <= k < n
      ensures s[k] < n
    {
      assert s[k] in multiset(s);
      assert s[k] in Identity(n);
    }
    forall v: nat | v < n
      ensures v in s
    {
      assert Identity(n)[v] == v;
      assert v in multiset(Identity(n));
    }
  }

  lemma OrOfXor(ret: bv8, x: bv8, y: bv8)
    ensures ret | (x ^ y) == 0 <==> ret == 0 && x == y
  {
    if x ^ y == 0 {
      XorZero(x, y);
    }
  }

  lemma XorZero(x: bv8, y: bv8)
    ensures x ^ y == 0 <==> x == y
  {
  }

  /** The check accepts exactly the secret, whatever the order of the comparisons. */
  method CheckSecret(p: array<bv8>, size: nat, secret: array<bv8>, draws: nat -> nat, max: nat) returns (ok: bool)
    requires p.Length == size && secret.Length == 33 && InRange(draws, max)
    ensures ok <==> size == 32 && p[..] == secret[..32]
  {
    hide Arranged, DrawnPositions, Positions, Drawn;
    if size != SECRET_SIZE {
      return false;
    }
    var indexes := new nat[SECRET_SIZE](i => i);
    assert indexes[..] == Identity(SECRET_SIZE);
    assert indexes[..SECRET_SIZE] == indexes[..];
    Shuffle(indexes, size, draws, max);
    assert indexes[..SECRET_SIZE] == indexes[..];
    ghost var order := indexes[..];
    ShuffledIndexes(order, SECRET_SIZE);
    var ret: bv8 := 0;
    var i := 0;
    while i < size
      invariant 0 <= i <= size && indexes[..] == order
      invariant ret == 0 <==> forall k :: 0 <= k < i ==> secret[order[k]] == p[order[k]]
    {
      var index := indexes[i];
      assert index == order[i];
      OrOfXor(ret, secret[index], p[index]);
      ret := ret | (secret[index] ^ p[index]);
      i := i + 1;
    }
    ok := ret == 0;
    AllCompared(order, secret[..SECRET_SIZE], p[..]);
  }

  lemma AllCompared(order: seq<nat>, s: seq<bv8>, t: seq<bv8>)
    requires |order| == |s| == |t|
    requires forall k :: 0 <= k < |order| ==> order[k] < |s|
    requires forall v :: 0 <= v < |s| ==> v in order
    ensures s == t <==> forall k :: 0 <= k < |order| ==> s[order[k]] == t[order[k]]
  {
    if forall k :: 0 <= k < |order| ==> s[order[k]] == t[order[k]] {
      forall v | 0 <= v < |s|
        ensures s[v] == t[v]
      {
        assert v in order;
      }
    }
  }
}

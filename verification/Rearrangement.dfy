/** Rearranging by exchanging each member in turn with one that is not before it: every
    order arises, and different positions make different orders. */
module Rearrangement {

  function Swapped<T>(s: seq<T>, i: nat, j: nat): (t: seq<T>)
    requires i < |s| && j < |s|
    ensures |t| == |s|
  {
    s[i := s[j]][j := s[i]]
  }

  lemma SwapPermutes<T>(s: seq<T>, i: nat, j: nat)
    requires i < |s| && j < |s|
    ensures multiset(Swapped(s, i, j)) == multiset(s)
  {
  }

  /** A position for each index below their number, not before that index. */
  predicate Positions(js: seq<nat>, n: nat) {
    |js| < n && forall k :: 0 <= k < |js| ==> k <= js[k] < n
  }

  /** s after its first |js| members have been exchanged, one after the other, with those
      at the positions js. */
  function Arranged<T>(s: seq<T>, js: seq<nat>): (t: seq<T>)
    requires Positions(js, |s|)
    ensures |t| == |s|
    decreases |js|
  {
    if js == [] then s else Swapped(Arranged(s, js[..|js| - 1]), |js| - 1, js[|js| - 1])
  }

  lemma {:induction false} ArrangedPermutes<T>(s: seq<T>, js: seq<nat>)
    requires Positions(js, |s|)
    ensures multiset(Arranged(s, js)) == multiset(s)
    decreases |js|
  {
    hide Swapped;
    if js != [] {
      var k := |js| - 1;
      ArrangedPermutes(s, js[..k]);
      SwapPermutes(Arranged(s, js[..k]), k, js[k]);
    }
  }

  /** Later exchanges leave member k alone: it is the one at position js[k] of what the
      exchanges before have made. */
  lemma {:induction false} MemberAt<T>(s: seq<T>, js: seq<nat>, k: nat)
    requires Positions(js, |s|) && k < |js|
    ensures Arranged(s, js)[k] == Arranged(s, js[..k])[js[k]]
    decreases |js|
  {
    var n := |js| - 1;
    if k < n {
      MemberAt(s, js[..n], k);
      assert js[..n][..k] == js[..k];
      NotMoved(Arranged(s, js[..n]), n, js[n], k);
    } else {
      MovedTo(Arranged(s, js[..n]), n, js[n]);
    }
  }

  lemma NotMoved<T>(s: seq<T>, i: nat, j: nat, k: nat)
    requires k < i <= j < |s|
    ensures Swapped(s, i, j)[k] == s[k]
  {
  }

  lemma MovedTo<T>(s: seq<T>, i: nat, j: nat)
    requires i <= j < |s|
    ensures Swapped(s, i, j)[i] == s[j]
  {
  }

  ghost predicate Different<T>(s: seq<T>) {
    forall i, j :: 0 <= i < j < |s| ==> s[i] != s[j]
  }

  /** Different positions make different rearrangements of different members. */
  lemma {:induction false} SamePositions<T>(s: seq<T>, js: seq<nat>, ks: seq<nat>, n: nat)
    requires Different(s) && Positions(js, |s|) && Positions(ks, |s|) && n <= |js| == |ks|
    requires Arranged(s, js) == Arranged(s, ks)
    ensures js[..n] == ks[..n]
  {
    hide Arranged, Different;
    if n > 0 {
      var k := n - 1;
      SamePositions(s, js, ks, k);
      MemberAt(s, js, k);
      MemberAt(s, ks, k);
      var u := Arranged(s, js[..k]);
      ArrangedPermutes(s, js[..k]);
      StaysDifferent(s, u);
      SameMember(u, js[k], ks[k]);
      assert js[..n] == js[..k] + [js[k]] && ks[..n] == ks[..k] + [ks[k]];
    }
  }

  lemma SameMember<T>(u: seq<T>, i: nat, j: nat)
    requires Different(u) && i < |u| && j < |u| && u[i] == u[j]
    ensures i == j
  {
  }

  lemma StaysDifferent<T>(s: seq<T>, t: seq<T>)
    requires Different(s) && multiset(s) == multiset(t)
    ensures Different(t)
  {
    forall i, j | 0 <= i < j < |t|
      ensures t[i] != t[j]
    {
      if t[i] == t[j] {
        TwiceInside(t, i, j);
        OnceInside(s, t[i]);
      }
    }
  }

  lemma TwiceInside<T>(t: seq<T>, i: nat, j: nat)
    requires i < j < |t| && t[i] == t[j]
    ensures multiset(t)[t[i]] >= 2
  {
    assert t == t[..j] + ([t[j]] + t[j + 1..]);
    assert t[i] == t[..j][i];
  }

  lemma {:induction false} OnceInside<T>(s: seq<T>, v: T)
    requires Different(s)
    ensures multiset(s)[v] <= 1
  {
    if s != [] {
      var n := |s| - 1;
      assert s == s[..n] + [s[n]];
      OnceInside(s[..n], v);
      if s[n] == v {
        assert v !in s[..n];
      }
    }
  }

  /** Positions that lead to a given rearrangement, as far as its first k members. */
  lemma {:induction false} PositionsFor<T>(s: seq<T>, t: seq<T>, k: nat) returns (js: seq<nat>)
    requires |t| == |s| && multiset(t) == multiset(s) && k < |s|
    ensures Positions(js, |s|) && |js| == k && Arranged(s, js)[..k] == t[..k]
  {
    hide Swapped, Arranged;
    if k == 0 {
      js := [];
    } else {
      var ks := PositionsFor(s, t, k - 1);
      var u := Arranged(s, ks);
      ArrangedPermutes(s, ks);
      var j := FindRest(u, t, k - 1);
      js := ks + [j];
      OneMore(s, ks, j);
      MemberFound(u, t, k - 1, j);
    }
  }

  lemma OneMore<T>(s: seq<T>, ks: seq<nat>, j: nat)
    requires Positions(ks, |s|) && |ks| + 1 < |s| && |ks| <= j < |s|
    ensures Positions(ks + [j], |s|) && Arranged(s, ks + [j]) == Swapped(Arranged(s, ks), |ks|, j)
  {
    hide Swapped;
    assert (ks + [j])[..|ks|] == ks;
  }

  lemma MemberFound<T>(u: seq<T>, t: seq<T>, k: nat, j: nat)
    requires |u| == |t| && k <= j < |u| && u[..k] == t[..k] && u[j] == t[k]
    ensures Swapped(u, k, j)[..k + 1] == t[..k + 1]
  {
    forall i | 0 <= i < k
      ensures Swapped(u, k, j)[i] == t[i]
    {
      assert u[..k][i] == t[..k][i];
    }
  }

  /** Where the next member of t is in u, which agrees with it so far. */
  lemma FindRest<T>(u: seq<T>, t: seq<T>, k: nat) returns (j: nat)
    requires multiset(u) == multiset(t) && |u| == |t| && k < |t| && u[..k] == t[..k]
    ensures k <= j < |u| && u[j] == t[k]
  {
    assert u == u[..k] + u[k..] && t == t[..k] + t[k..];
    assert multiset(u[k..]) == multiset(u) - multiset(u[..k]);
    assert multiset(t[k..]) == multiset(t) - multiset(t[..k]);
    assert t[k..][0] == t[k];
    assert t[k] in multiset(u[k..]);
    var i :| 0 <= i < |u[k..]| && u[k..][i] == t[k];
    j := k + i;
  }

  /** The last member follows from the others. */
  lemma LastFollows<T>(u: seq<T>, t: seq<T>)
    requires multiset(u) == multiset(t) && |u| == |t| > 0 && u[..|u| - 1] == t[..|t| - 1]
    ensures u == t
  {
    var j := FindRest(u, t, |t| - 1);
    assert u == u[..|u| - 1] + [u[|u| - 1]] && t == t[..|t| - 1] + [t[|t| - 1]];
  }

  /** Every order arises from some positions. */
  lemma EveryOrder<T>(s: seq<T>, t: seq<T>) returns (js: seq<nat>)
    requires s != [] && multiset(t) == multiset(s)
    ensures Positions(js, |s|) && |js| == |s| - 1 && Arranged(s, js) == t
  {
    hide Arranged;
    assert |t| == |multiset(t)| == |multiset(s)| == |s|;
    js := PositionsFor(s, t, |s| - 1);
    ArrangedPermutes(s, js);
    LastFollows(Arranged(s, js), t);
  }
}

/** Setting up the encrypted channels: the coordinator connects to every peer, then has
    each peer connect to the peers after it. */
module Mesh {

  /** The two ends of a connection, the one that opened it first. Participants are
      numbered in the order of the payload, the coordinator first. */
  datatype Connection = Connection(opener: nat, acceptor: nat)

  /** Whether a and b are connected once participants below k have connected to all that
      follow them, and participant k to those below t. */
  predicate Joined(a: nat, b: nat, k: nat, t: nat) {
    var low, high := if a < b then a else b, if a < b then b else a;
    low < k || (low == k && high < t)
  }

  ghost predicate OnlyOthers(xs: seq<int>, tables: seq<map<int, int>>, m: nat)
    requires m <= |xs| == |tables|
  {
    forall a, x :: 0 <= a < m && x in tables[a] ==> x in xs && x != xs[a]
  }

  ghost predicate ExactlyJoined(xs: seq<int>, tables: seq<map<int, int>>, m: nat, k: nat, t: nat)
    requires m <= |xs| == |tables|
  {
    forall a: nat, b: nat :: a < m && b < |xs| && a != b ==> (xs[b] in tables[a] <==> Joined(a, b, k, t))
  }

  ghost predicate BothEnds(xs: seq<int>, tables: seq<map<int, int>>, links: seq<Connection>, a: nat, b: nat)
    requires a < |xs| == |tables| && b < |xs|
  {
    && xs[b] in tables[a] && xs[a] in tables[b] && 0 <= tables[a][xs[b]] == tables[b][xs[a]] < |links|
    && links[tables[a][xs[b]]] == Connection(a, b)
  }

  ghost predicate SharedLinks(xs: seq<int>, tables: seq<map<int, int>>, links: seq<Connection>, m: nat, k: nat, t: nat)
    requires m <= |xs| == |tables|
  {
    forall a: nat, b: nat :: a < b < m && Joined(a, b, k, t) ==> BothEnds(xs, tables, links, a, b)
  }

  ghost predicate EveryLinkUsed(xs: seq<int>, tables: seq<map<int, int>>, links: seq<Connection>, m: nat)
    requires m <= |xs| == |tables|
  {
    forall c :: 0 <= c < |links| ==>
      && links[c].opener < links[c].acceptor < m
      && xs[links[c].acceptor] in tables[links[c].opener]
      && tables[links[c].opener][xs[links[c].acceptor]] == c
  }

  /** The tables of the participants below m hold exactly the joined pairs; both ends of
      a pair hold the same connection; and there is no other connection. */
  ghost predicate Holds(xs: seq<int>, tables: seq<map<int, int>>, links: seq<Connection>, m: nat, k: nat, t: nat)
    requires m <= |xs| == |tables|
  {
    && OnlyOthers(xs, tables, m) && ExactlyJoined(xs, tables, m, k, t)
    && SharedLinks(xs, tables, links, m, k, t) && EveryLinkUsed(xs, tables, links, m)
  }

  /** No two participants have the same number. */
  ghost predicate Distinct(xs: seq<int>) {
    forall a, b :: 0 <= a < b < |xs| ==> xs[a] != xs[b]
  }

  class Participants {
    const xs: seq<int>
    /** The active channels of every participant. */
    const tables: array<map<int, int>>
    /** The connections, in the order in which they were opened. */
    var links: seq<Connection>

    ghost predicate Valid() {
      xs != [] && tables.Length == |xs| && Distinct(xs)
    }

    /** Participant a connects to b. The program of a raises if b's number is zero or
        known already. Otherwise it registers the channel at once; b registers it too,
        after a reset at level 0, unless it already has a channel with a: then it closes
        the connection, which a does not notice yet. */
    method Connect(a: nat, b: nat, level: nat) returns (registered: bool, accepted: bool)
      requires Valid() && a < |xs| && b < |xs| && a != b
      modifies this`links, tables
      ensures registered <==> xs[b] != 0 && xs[b] !in old(tables[a])
      ensures accepted <==> registered && xs[a] !in old(tables[b])
      ensures links == if registered then old(links) + [Connection(a, b)] else old(links)
      ensures forall c :: 0 <= c < |xs| && c != a && c != b ==> tables[c] == old(tables[c])
      ensures tables[a] == if registered then old(tables[a])[xs[b] := |old(links)|] else old(tables[a])
      ensures tables[b] == if !accepted then old(tables[b])
                           else (if level == 0 then map[] else old(tables[b]))[xs[a] := |old(links)|]
    {
      accepted := xs[a] !in tables[b];
      if xs[b] == 0 || xs[b] in tables[a] {
        return false, false;
      }
      if accepted {
        if level == 0 {
          tables[b] := map[];
        }
        tables[b] := tables[b][xs[a] := |links|];
      }
      tables[a] := tables[a][xs[b] := |links|];
      links := links + [Connection(a, b)];
      registered := true;
    }

    /** The coordinator's session: reset, connect to every peer, then have each peer in
        turn connect to those after it, and wait for its acknowledgement, which a peer
        that closed the connection never sends. The session succeeds exactly when no
        peer has the number zero or kept a channel with the coordinator from before;
        then everyone is connected to everyone else, by one channel for each pair, and
        to nobody else. */
    method SetUp() returns (ok: bool)
      requires Valid() && links == []
      modifies this`links, tables
      ensures ok <==> forall b :: 1 <= b < |xs| ==> xs[b] != 0 && xs[0] !in old(tables[b])
      ensures ok ==> Holds(xs, tables[..], links, |xs|, |xs|, 0)
    {
      hide Holds;
      var accepts := ConnectAll();
      if accepts == [] {
        return false;
      }
      var k := 1;
      while k < |xs|
        invariant 1 <= k <= |xs| && forall b :: 0 <= b < k ==> accepts[b]
        invariant false !in accepts ==> Holds(xs, tables[..], links, |xs|, k, k + 1)
      {
        if !accepts[k] {
          return false;
        }
        var acknowledged := ConnectRow(k);
        if !acknowledged {
          return false;
        }
        k := k + 1;
      }
      EndOfMesh(xs, tables[..], links);
      return true;
    }

    /** The first part: for every participant, whether it accepted the coordinator; an
        empty list if the coordinator's program raised. */
    method ConnectAll() returns (accepts: seq<bool>)
      requires Valid() && links == []
      modifies this`links, tables
      ensures accepts == [] <==> exists b :: 1 <= b < |xs| && xs[b] == 0
      ensures accepts != [] ==> |accepts| == |xs| && accepts[0]
      ensures accepts != [] ==> forall b :: 1 <= b < |xs| ==> (accepts[b] <==> xs[0] !in old(tables[b]))
      ensures accepts != [] && false !in accepts ==> Holds(xs, tables[..], links, |xs|, 1, 2)
    {
      hide Holds;
      ghost var before := tables[..];
      tables[0] := map[];
      OneAlone(xs, tables[..]);
      accepts := [true];
      var t := 1;
      while t < |xs|
        invariant 1 <= t <= |xs| && |accepts| == t && accepts[0]
        invariant forall b :: t <= b < |xs| ==> tables[b] == before[b] && xs[b] !in tables[0]
        invariant forall b :: 1 <= b < t ==> xs[b] != 0 && (accepts[b] <==> xs[0] !in before[b])
        invariant false !in accepts ==> Holds(xs, tables[..], links, t, 0, t)
      {
        ghost var now, formerLinks := tables[..], links;
        var registered, accepted := Connect(0, t, 0);
        if !registered {
          return [];
        }
        if accepted && false !in accepts {
          Enter(xs, now, formerLinks, t, now[t := map[]]);
          Join(xs, now[t := map[]], formerLinks, t + 1, 0, t, tables[..], links);
        }
        accepts := accepts + [accepted];
        t := t + 1;
      }
      if false !in accepts {
        EndOfRow(xs, tables[..], links, 0);
      }
    }

    /** A peer's part of the session; it acknowledges unless its program raised. */
    method ConnectRow(k: nat) returns (acknowledged: bool)
      requires Valid() && 1 <= k < |xs| && forall b :: 1 <= b < |xs| ==> xs[b] != 0
      modifies this`links, tables
      ensures old(Holds(xs, tables[..], links, |xs|, k, k + 1)) ==>
                acknowledged && Holds(xs, tables[..], links, |xs|, k + 1, k + 2)
    {
      hide Holds;
      var t := k + 1;
      while t < |xs|
        invariant k < t <= |xs|
        invariant old(Holds(xs, tables[..], links, |xs|, k, k + 1)) ==> Holds(xs, tables[..], links, |xs|, k, t)
      {
        ghost var now, formerLinks := tables[..], links;
        var registered, accepted := Connect(k, t, 1);
        if Holds(xs, now, formerLinks, |xs|, k, t) {
          NotYet(xs, now, formerLinks, |xs|, k, t);
          Join(xs, now, formerLinks, |xs|, k, t, tables[..], links);
        }
        if !registered {
          return false;
        }
        t := t + 1;
      }
      if Holds(xs, tables[..], links, |xs|, k, |xs|) {
        EndOfRow(xs, tables[..], links, k);
      }
      return true;
    }
  }

  lemma OneAlone(xs: seq<int>, tables: seq<map<int, int>>)
    requires 0 < |xs| == |tables| && tables[0] == map[] && Distinct(xs)
    ensures Holds(xs, tables, [], 1, 0, 1)
  {
  }

  lemma NotYet(xs: seq<int>, tables: seq<map<int, int>>, links: seq<Connection>, m: nat, k: nat, t: nat)
    requires k < t < |xs| == |tables| && k < m <= |xs| && Holds(xs, tables, links, m, k, t)
    ensures xs[t] !in tables[k] && (t < m ==> xs[k] !in tables[t])
  {
    assert !Joined(k, t, k, t) && !Joined(t, k, k, t);
  }

  /** Two descriptions of the same joined pairs. */
  lemma SameJoined(xs: seq<int>, tables: seq<map<int, int>>, links: seq<Connection>,
                   m: nat, k: nat, t: nat, k': nat, t': nat)
    requires m <= |xs| == |tables| && Holds(xs, tables, links, m, k, t)
    requires forall a: nat, b: nat :: a < m && b < |xs| && a != b ==> (Joined(a, b, k, t) <==> Joined(a, b, k', t'))
    ensures Holds(xs, tables, links, m, k', t')
  {
    hide Joined, BothEnds;
  }

  /** Once participant k is connected to all that follow it, the next one is to begin. */
  lemma EndOfRow(xs: seq<int>, tables: seq<map<int, int>>, links: seq<Connection>, k: nat)
    requires |tables| == |xs| && k < |xs| && Holds(xs, tables, links, |xs|, k, |xs|)
    ensures Holds(xs, tables, links, |xs|, k + 1, k + 2)
  {
    hide Holds;
    SameJoined(xs, tables, links, |xs|, k, |xs|, k + 1, k + 2);
  }

  lemma EndOfMesh(xs: seq<int>, tables: seq<map<int, int>>, links: seq<Connection>)
    requires |tables| == |xs| && Holds(xs, tables, links, |xs|, |xs|, |xs| + 1)
    ensures Holds(xs, tables, links, |xs|, |xs|, 0)
  {
    hide Holds;
    SameJoined(xs, tables, links, |xs|, |xs|, |xs| + 1, |xs|, 0);
  }

  /** A new participant starts with an empty table. */
  lemma Enter(xs: seq<int>, tables: seq<map<int, int>>, links: seq<Connection>, t: nat, tables': seq<map<int, int>>)
    requires Distinct(xs) && |tables| == |xs| && t < |xs| && Holds(xs, tables, links, t, 0, t)
    requires tables' == tables[t := map[]]
    ensures Holds(xs, tables', links, t + 1, 0, t)
  {
    assert ExactlyJoined(xs, tables', t + 1, 0, t) by {
      forall a: nat, b: nat | a < t + 1 && b < |xs| && a != b
        ensures xs[b] in tables'[a] <==> Joined(a, b, 0, t)
      {
      }
    }
    forall a: nat, b: nat | a < b < t + 1 && Joined(a, b, 0, t)
      ensures BothEnds(xs, tables', links, a, b)
    {
      assert BothEnds(xs, tables, links, a, b);
    }
  }

  /** A connection joins one more pair. */
  lemma Join(xs: seq<int>, tables: seq<map<int, int>>, links: seq<Connection>, m: nat, k: nat, t: nat,
             tables': seq<map<int, int>>, links': seq<Connection>)
    requires Distinct(xs) && k < t < m <= |xs| == |tables| && Holds(xs, tables, links, m, k, t)
    requires links' == links + [Connection(k, t)]
    requires tables' == tables[t := tables[t][xs[k] := |links|]][k := tables[k][xs[t] := |links|]]
    ensures Holds(xs, tables', links', m, k, t + 1)
  {
    hide BothEnds, OnlyOthers, ExactlyJoined, SharedLinks, EveryLinkUsed;
    NotYet(xs, tables, links, m, k, t);
    JoinOthers(xs, tables, m, k, t, |links|);
    JoinExactly(xs, tables, m, k, t, |links|);
    JoinShared(xs, tables, links, m, k, t);
    JoinUsed(xs, tables, links, m, k, t);
  }

  function Tabled(xs: seq<int>, tables: seq<map<int, int>>, k: nat, t: nat, id: int): (r: seq<map<int, int>>)
    requires k < t < |xs| == |tables|
    ensures |r| == |tables|
  {
    tables[t := tables[t][xs[k] := id]][k := tables[k][xs[t] := id]]
  }

  lemma JoinOthers(xs: seq<int>, tables: seq<map<int, int>>, m: nat, k: nat, t: nat, id: int)
    requires Distinct(xs) && k < t < m <= |xs| == |tables| && OnlyOthers(xs, tables, m)
    ensures OnlyOthers(xs, Tabled(xs, tables, k, t, id), m)
  {
    var tables' := Tabled(xs, tables, k, t, id);
    forall a, x | 0 <= a < m && x in tables'[a]
      ensures x in xs && x != xs[a]
    {
      if x in tables[a] {
      } else if a == k {
        assert x == xs[t];
      } else {
        assert a == t && x == xs[k];
      }
    }
  }

  lemma JoinExactly(xs: seq<int>, tables: seq<map<int, int>>, m: nat, k: nat, t: nat, id: int)
    requires Distinct(xs) && k < t < m <= |xs| == |tables| && ExactlyJoined(xs, tables, m, k, t)
    ensures ExactlyJoined(xs, Tabled(xs, tables, k, t, id), m, k, t + 1)
  {
    forall a: nat, b: nat | a < m && b < |xs| && a != b
      ensures xs[b] in Tabled(xs, tables, k, t, id)[a] <==> Joined(a, b, k, t + 1)
    {
      assert xs[b] in tables[a] <==> Joined(a, b, k, t);
    }
  }

  lemma OtherEntries(xs: seq<int>, tables: seq<map<int, int>>, k: nat, t: nat, id: int, a: nat, b: nat)
    requires Distinct(xs) && k < t < |xs| == |tables| && a < |xs| && b < |xs| && a != b
    requires xs[b] in tables[a] && !(a == k && b == t) && !(a == t && b == k)
    ensures xs[b] in Tabled(xs, tables, k, t, id)[a] && Tabled(xs, tables, k, t, id)[a][xs[b]] == tables[a][xs[b]]
  {
  }

  lemma JoinShared(xs: seq<int>, tables: seq<map<int, int>>, links: seq<Connection>, m: nat, k: nat, t: nat)
    requires Distinct(xs) && k < t < m <= |xs| == |tables| && SharedLinks(xs, tables, links, m, k, t)
    ensures SharedLinks(xs, Tabled(xs, tables, k, t, |links|), links + [Connection(k, t)], m, k, t + 1)
  {
    var tables' := Tabled(xs, tables, k, t, |links|);
    forall a: nat, b: nat | a < b < m && Joined(a, b, k, t + 1)
      ensures BothEnds(xs, tables', links + [Connection(k, t)], a, b)
    {
      if a == k && b == t {
        assert tables'[a][xs[b]] == |links| == tables'[b][xs[a]];
      } else {
        assert Joined(a, b, k, t);
        assert BothEnds(xs, tables, links, a, b);
        OtherEntries(xs, tables, k, t, |links|, a, b);
        OtherEntries(xs, tables, k, t, |links|, b, a);
      }
    }
  }

  lemma JoinUsed(xs: seq<int>, tables: seq<map<int, int>>, links: seq<Connection>, m: nat, k: nat, t: nat)
    requires Distinct(xs) && k < t < m <= |xs| == |tables|
    requires EveryLinkUsed(xs, tables, links, m) && xs[t] !in tables[k]
    ensures EveryLinkUsed(xs, Tabled(xs, tables, k, t, |links|), links + [Connection(k, t)], m)
  {
    var tables', links' := Tabled(xs, tables, k, t, |links|), links + [Connection(k, t)];
    forall c | 0 <= c < |links'|
      ensures links'[c].opener < links'[c].acceptor < m
      ensures xs[links'[c].acceptor] in tables'[links'[c].opener]
      ensures tables'[links'[c].opener][xs[links'[c].acceptor]] == c
    {
      if c < |links| {
        OtherEntries(xs, tables, k, t, |links|, links[c].opener, links[c].acceptor);
      }
    }
  }
}

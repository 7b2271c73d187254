// The peers of a cluster (model.go) and the order-preserving loss of peers.
module Peers {
  type NodeID = string

  const STATE_LEADER := "Leader"
  const STATE_FOLLOWER := "Follower"

  datatype Peer = Peer(address: string, id: NodeID, state: string, suffrage: string) {
    predicate AnyStateOf(states: seq<string>) {
      state in states
    }

    predicate IsActive() {
      AnyStateOf([STATE_LEADER, STATE_FOLLOWER])
    }
  }

  // The zero value of the Go record.
  const NO_PEER := Peer("", "", "", "")

  function IdsOf(peers: seq<Peer>): (ids: seq<NodeID>)
    ensures |ids| == |peers|
    ensures forall i :: 0 <= i < |peers| ==> ids[i] == peers[i].id
  {
    seq(|peers|, i requires 0 <= i < |peers| => peers[i].id)
  }

  ghost predicate Distinct<T>(s: seq<T>) {
    forall i, j :: 0 <= i < j < |s| ==> s[i] != s[j]
  }

  // a can be obtained from b by deleting elements.
  ghost predicate Sublist<T>(a: seq<T>, b: seq<T>) {
    || a == []
    || (b != [] && ((a[0] == b[0] && Sublist(a[1..], b[1..])) || Sublist(a, b[1..])))
  }

  // The active servers, in configuration order.
  function Actives(servers: seq<Peer>): (r: seq<Peer>) {
    if servers == [] then []
    else if servers[0].IsActive() then [servers[0]] + Actives(servers[1..])
    else Actives(servers[1..])
  }

  lemma {:induction false} ActivesConcat(a: seq<Peer>, b: seq<Peer>)
    ensures Actives(a + b) == Actives(a) + Actives(b)
  {
    if a == [] {
      assert a + b == b;
    } else {
      ActivesConcat(a[1..], b);
      assert (a + b)[1..] == a[1..] + b;
    }
  }

  // Actives holds the active servers and nothing else, in configuration order.
  lemma {:induction false} ActivesLaw(servers: seq<Peer>)
    ensures forall p :: p in Actives(servers) <==>
              p in servers && (p.state == "Leader" || p.state == "Follower")
    ensures Sublist(Actives(servers), servers)
  {
    if servers != [] {
      ActivesLaw(servers[1..]);
      assert servers == [servers[0]] + servers[1..];
    }
  }

  // and every occurrence of one of them.
  lemma {:induction false} ActivesCount(servers: seq<Peer>, p: Peer)
    ensures multiset(Actives(servers))[p] ==
            if p.state == "Leader" || p.state == "Follower" then multiset(servers)[p] else 0
  {
    if servers != [] {
      ActivesCount(servers[1..], p);
      assert servers == [servers[0]] + servers[1..];
    }
  }

  method ActivePeers(servers: seq<Peer>) returns (actives: seq<Peer>)
    ensures actives == Actives(servers)
    ensures forall p :: p in actives <==> p in servers && (p.state == "Leader" || p.state == "Follower")
    ensures Sublist(actives, servers)
  {
    actives := [];
    for i := 0 to |servers|
      invariant actives == Actives(servers[..i])
    {
      ActivesConcat(servers[..i], [servers[i]]);
      assert servers[..i + 1] == servers[..i] + [servers[i]];
      if servers[i].IsActive() {
        actives := actives + [servers[i]];
      }
    }
    assert servers[..|servers|] == servers;
    ActivesLaw(servers);
  }

  // after shows some of the servers of before, in the same order, and none of them has become
  // active: servers are only removed from the configuration or lost. One that stays may still
  // turn from follower into leader.
  ghost predicate OnlyLoses(before: seq<Peer>, after: seq<Peer>) {
    || after == []
    || (before != [] &&
        (|| (after[0].id == before[0].id && (after[0].IsActive() ==> before[0].IsActive()) &&
             OnlyLoses(before[1..], after[1..]))
         || OnlyLoses(before[1..], after)))
  }

  // Then the later active peer IDs are a sublist of the earlier ones.
  lemma {:induction false} LosingPeersGivesSublist(before: seq<Peer>, after: seq<Peer>)
    requires OnlyLoses(before, after)
    ensures Sublist(IdsOf(Actives(after)), IdsOf(Actives(before)))
    decreases |before|
  {
    var a, b := IdsOf(Actives(after)), IdsOf(Actives(before));
    if after != [] {
      if before[0].IsActive() {
        assert b[1..] == IdsOf(Actives(before[1..]));
      }
      if after[0].id == before[0].id && (after[0].IsActive() ==> before[0].IsActive()) &&
         OnlyLoses(before[1..], after[1..]) {
        LosingPeersGivesSublist(before[1..], after[1..]);
        if after[0].IsActive() {
          assert a[1..] == IdsOf(Actives(after[1..]));
        }
      } else {
        LosingPeersGivesSublist(before[1..], after);
      }
    }
  }

  lemma {:induction false} SublistAppend<T>(a: seq<T>, b: seq<T>, x: T)
    requires Sublist(a, b)
    ensures Sublist(a, b + [x]) && Sublist(a + [x], b + [x])
    decreases |b|
  {
    var c := b + [x];
    if b == [] {
      assert a + [x] == [x] && c == [x] && c[1..] == [];
    } else {
      assert c[0] == b[0] && c[1..] == b[1..] + [x];
      if a == [] {
        SublistAppend(a, b[1..], x);
      } else if a[0] == b[0] && Sublist(a[1..], b[1..]) {
        SublistAppend(a[1..], b[1..], x);
        assert (a + [x])[1..] == a[1..] + [x];
      } else {
        SublistAppend(a, b[1..], x);
      }
    }
  }

  // An element of a sublist stands no later than in the whole list.
  lemma {:induction false} SublistIndex<T>(a: seq<T>, b: seq<T>, i: nat) returns (j: nat)
    requires Sublist(a, b) && i < |a|
    ensures i <= j < |b| && a[i] == b[j] && |a| <= |b|
  {
    if a[0] == b[0] && Sublist(a[1..], b[1..]) {
      if i == 0 {
        SublistLength(a[1..], b[1..]);
        j := 0;
      } else {
        j := SublistIndex(a[1..], b[1..], i - 1);
        j := j + 1;
      }
    } else {
      j := SublistIndex(a, b[1..], i);
      j := j + 1;
    }
  }

  lemma {:induction false} SublistLength<T>(a: seq<T>, b: seq<T>)
    requires Sublist(a, b)
    ensures |a| <= |b|
    decreases |b|
  {
    if a != [] {
      if a[0] == b[0] && Sublist(a[1..], b[1..]) {
        SublistLength(a[1..], b[1..]);
      } else {
        SublistLength(a, b[1..]);
      }
    }
  }
}

// The sticky distributor of distribute.go, with its map and its loops, proved against the
// allocation function.
module Distribution {
  import opened Peers
  import opened Quotas
  import opened Allocations
  import opened AllocationLaws

  type Quantities = map<NodeID, int>

  // Reading a Go map: a missing key gives zero.
  function Num(m: Quantities, n: NodeID): int {
    if n in m then m[n] else 0
  }

  ghost predicate Counts(m: Quantities, q: multiset<NodeID>) {
    forall n :: Num(m, n) == q[n]
  }

  lemma {:induction false} CountStep(m: Quantities, q: multiset<NodeID>, id: NodeID)
    requires Counts(m, q)
    ensures Counts(m[id := Num(m, id) + 1], q + multiset{id})
  {
    var m' := m[id := Num(m, id) + 1];
    forall n ensures Num(m', n) == (q + multiset{id})[n] {
      assert Num(m, n) == q[n];
    }
  }

  lemma {:induction false} QuotaNext(ids: seq<NodeID>, d: nat)
    requires ids != []
    ensures Quota(ids, d + 1) == Quota(ids, d) + multiset{ids[d % |ids|]}
  {
    TurnIsMod(d, |ids|);
  }

  method MakePeersMap(peers: seq<Peer>, dataLen: nat) returns (peersNumMap: Quantities)
    requires dataLen > 0 ==> peers != []
    ensures forall n :: Num(peersNumMap, n) == Quota(IdsOf(peers), dataLen)[n]
  {
    peersNumMap := map[];
    for i := 0 to dataLen
      invariant Counts(peersNumMap, Quota(IdsOf(peers), i))
    {
      var p := peers[i % |peers|];
      CountStep(peersNumMap, Quota(IdsOf(peers), i), p.id);
      QuotaNext(IdsOf(peers), i);
      peersNumMap := peersNumMap[p.id := Num(peersNumMap, p.id) + 1];
    }
  }

  // The remaining quotas, given what is placed so far.
  ghost predicate Remaining(m: Quantities, quota: multiset<NodeID>, load: multiset<NodeID>) {
    forall n :: Num(m, n) + load[n] == quota[n]
  }

  lemma {:induction false} RemainingStep(m: Quantities, quota: multiset<NodeID>, placed: seq<Placement>, p: Placement)
    requires Remaining(m, quota, Load(placed))
    ensures Remaining(m[p.node := Num(m, p.node) - 1], quota, Load(placed + [p]))
  {
    LoadConcat(placed, [p]);
    assert Nodes([p]) == [p.node];
    assert Load(placed + [p]) == Load(placed) + multiset{p.node};
    var m' := m[p.node := Num(m, p.node) - 1];
    forall n ensures Num(m', n) + Load(placed + [p])[n] == quota[n] {
      assert Num(m, n) + Load(placed)[n] == quota[n];
    }
  }

  // What the second loop still makes of its state.
  ghost function Rest(ids: seq<NodeID>, quota: multiset<NodeID>, placed: seq<Placement>,
                      pending: seq<Item>, sticky: StickyMap): Allocation {
    var chosen := Choices(ids, quota, Load(placed), pending);
    Allocation(placed + chosen, Record(sticky, chosen))
  }

  lemma {:induction false} RestStep(ids: seq<NodeID>, quota: multiset<NodeID>, placed: seq<Placement>,
                 pending: seq<Item>, sticky: StickyMap)
    requires pending != []
    ensures var i := FirstOpen(ids, quota, Load(placed));
            Rest(ids, quota, placed, pending, sticky) ==
            if i == |ids| then Rest(ids, quota, placed, pending[1..], sticky)
            else Rest(ids, quota, placed + [Placement(ids[i], pending[0])], pending[1..],
                      sticky[pending[0].id := ids[i]])
  {
    var i := FirstOpen(ids, quota, Load(placed));
    if i < |ids| {
      var p := Placement(ids[i], pending[0]);
      LoadConcat(placed, [p]);
      assert Nodes([p]) == [p.node];
      var rest := Choices(ids, quota, Load(placed + [p]), pending[1..]);
      assert placed + ([p] + rest) == placed + [p] + rest;
      assert ([p] + rest)[1..] == rest;
    }
  }

  class Distributor {
    var stickyMap: StickyMap

    constructor ()
      ensures stickyMap == map[]
    {
      stickyMap := map[];
    }

    method Put(id: string, nodeID: NodeID)
      modifies this
      ensures stickyMap == old(stickyMap)[id := nodeID]
    {
      stickyMap := stickyMap[id := nodeID];
    }

    method CleanSticky()
      modifies this
      ensures stickyMap == map[]
    {
      stickyMap := map[];
    }

    method CleanKeysNotIn(peers: seq<Peer>)
      modifies this
      ensures stickyMap == Clean(old(stickyMap), IdsOf(peers))
    {
      var peersMap: set<NodeID> := {};
      ghost var ids := IdsOf(peers);
      for i := 0 to |peers|
        invariant forall n :: n in peersMap <==> n in ids[..i]
      {
        peersMap := peersMap + {peers[i].id};
        assert ids[..i + 1] == ids[..i] + [peers[i].id];
      }
      assert ids[..|peers|] == ids;
      var todo := stickyMap.Keys;
      while todo != {}
        invariant todo <= stickyMap.Keys <= old(stickyMap).Keys
        invariant forall id :: id in stickyMap ==> stickyMap[id] == old(stickyMap)[id]
        invariant forall id :: id in old(stickyMap) && id !in todo ==>
                    (id in stickyMap <==> old(stickyMap)[id] in ids)
        decreases |todo|
      {
        var id :| id in todo;
        todo := todo - {id};
        if stickyMap[id] !in peersMap {
          stickyMap := stickyMap - {id};
        }
      }
    }

    // The first loop of Distribute: keep the sticky items, collect the others.
    method KeepSticky(data: seq<Item>, numMap: Quantities, ghost quota: multiset<NodeID>)
      returns (distributed: seq<Placement>, newItems: seq<Item>, peersNumMap: Quantities)
      requires Remaining(numMap, quota, multiset{})
      ensures distributed == Kept(stickyMap, data) && newItems == Unplaced(stickyMap, data)
      ensures Sublist(Items(distributed), data) && Sublist(newItems, data)
      ensures Remaining(peersNumMap, quota, Load(distributed))
    {
      distributed, newItems, peersNumMap := [], [], numMap;
      for i := 0 to |data|
        invariant distributed == Kept(stickyMap, data[..i])
        invariant newItems == Unplaced(stickyMap, data[..i])
        invariant Remaining(peersNumMap, quota, Load(distributed))
      {
        var item := data[i];
        assert data[..i + 1][..i] == data[..i];
        var nodeID := if item.id in stickyMap then stickyMap[item.id] else "";
        if nodeID != "" {
          RemainingStep(peersNumMap, quota, distributed, Placement(nodeID, item));
          distributed := distributed + [Placement(nodeID, item)];
          peersNumMap := peersNumMap[nodeID := Num(peersNumMap, nodeID) - 1];
        } else {
          newItems := newItems + [item];
        }
      }
      assert data[..|data|] == data;
      KeptInOrder(stickyMap, data);
    }

    // The second loop: each new item goes to the first peer with remaining quota.
    method PlaceNew(peers: seq<Peer>, newItems: seq<Item>, kept: seq<Placement>, numMap: Quantities,
                    ghost quota: multiset<NodeID>)
      returns (distributed: seq<Placement>)
      requires Remaining(numMap, quota, Load(kept))
      modifies this
      ensures Allocation(distributed, stickyMap) == Rest(IdsOf(peers), quota, kept, newItems, old(stickyMap))
    {
      distributed := kept;
      var peersNumMap := numMap;
      ghost var ids := IdsOf(peers);
      ghost var target := Rest(ids, quota, kept, newItems, stickyMap);
      for k := 0 to |newItems|
        invariant Remaining(peersNumMap, quota, Load(distributed))
        invariant Rest(ids, quota, distributed, newItems[k..], stickyMap) == target
      {
        var item := newItems[k];
        ghost var rest := newItems[k..];
        assert rest[0] == item && rest[1..] == newItems[k + 1..];
        RestStep(ids, quota, distributed, rest, stickyMap);
        ghost var load := Load(distributed);
        ghost var open := FirstOpen(ids, quota, load);
        for j := 0 to |peers|
          invariant j <= open && Load(distributed) == load
          invariant Remaining(peersNumMap, quota, load)
          invariant Rest(ids, quota, distributed, rest, stickyMap) == target
        {
          var peer := peers[j];
          assert Num(peersNumMap, ids[j]) + load[ids[j]] == quota[ids[j]];
          if Num(peersNumMap, peer.id) <= 0 {
            continue;
          }
          assert j == open;
          Put(item.id, peer.id);
          RemainingStep(peersNumMap, quota, distributed, Placement(peer.id, item));
          distributed := distributed + [Placement(peer.id, item)];
          peersNumMap := peersNumMap[peer.id := Num(peersNumMap, peer.id) - 1];
          break;
        }
      }
      assert newItems[|newItems|..] == [];
    }

    // Go panics on i % len(peers) when there are items and no peers.
    method Distribute(peers: seq<Peer>, data: seq<Item>) returns (distributed: seq<Placement>)
      requires data != [] ==> peers != []
      modifies this
      ensures Allocation(distributed, stickyMap) == Allocate(old(stickyMap), IdsOf(peers), data)
      ensures multiset(Items(distributed)) == multiset(data)
      ensures exists k :: StickyThenNew(old(stickyMap), IdsOf(peers), data, distributed, k)
      ensures forall p :: p in distributed ==> p.node in IdsOf(peers)
    {
      Complete(stickyMap, IdsOf(peers), data);
      ghost var k := PlacedInOrder(stickyMap, IdsOf(peers), data);
      forall p | p in Allocate(stickyMap, IdsOf(peers), data).placed ensures p.node in IdsOf(peers) {
        OnPeers(stickyMap, IdsOf(peers), data, p);
      }
      CleanKeysNotIn(peers);
      var peersNumMap := MakePeersMap(peers, |data|);
      ghost var quota := Quota(IdsOf(peers), |data|);
      var newItems;
      distributed, newItems, peersNumMap := KeepSticky(data, peersNumMap, quota);
      distributed := PlaceNew(peers, newItems, distributed, peersNumMap, quota);
    }
  }
}

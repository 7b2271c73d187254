// The guarantees of one call of Distribute, for every data, every starting sticky map and
// every peer list it accepts.
module AllocationLaws {
  import opened Peers
  import opened Quotas
  import opened Allocations

  // The placements the call keeps: the surviving sticky items.
  ghost function KeptOf(sticky: StickyMap, ids: seq<NodeID>, data: seq<Item>): seq<Placement> {
    Kept(Clean(sticky, ids), data)
  }

  lemma {:induction false} KeptOnPeers(sticky: StickyMap, ids: seq<NodeID>, data: seq<Item>)
    ensures forall p :: p in KeptOf(sticky, ids, data) ==> p.node in ids
  {
    KeptMembers(Clean(sticky, ids), data);
  }

  lemma {:induction false} ItemsConcat(a: seq<Placement>, b: seq<Placement>)
    ensures Items(a + b) == Items(a) + Items(b)
  {
  }

  // Every item is placed exactly once, the sticky items first, then the new ones, both in
  // data order.
  lemma {:induction false} Complete(sticky: StickyMap, ids: seq<NodeID>, data: seq<Item>)
    requires data != [] ==> ids != []
    ensures var out := Allocate(sticky, ids, data).placed;
            var clean := Clean(sticky, ids);
            && multiset(Items(out)) == multiset(data)
            && Items(out) == Items(Kept(clean, data)) + Unplaced(clean, data)
  {
    var clean := Clean(sticky, ids);
    var kept, pending := Kept(clean, data), Unplaced(clean, data);
    var chosen := Choices(ids, Quota(ids, |data|), Load(kept), pending);
    ChoicesPlaceAll(ids, Quota(ids, |data|), Load(kept), pending);
    KeptSplits(clean, data);
    ItemsConcat(kept, chosen);
  }

  // Every placement is on a current peer, and a surviving sticky item stays where it was.
  lemma {:induction false} OnPeers(sticky: StickyMap, ids: seq<NodeID>, data: seq<Item>, p: Placement)
    requires data != [] ==> ids != []
    requires p in Allocate(sticky, ids, data).placed
    ensures p.node in ids && p.item in data
    ensures Sticks(Clean(sticky, ids), p.item) ==> p.node == sticky[p.item.id]
  {
    var clean := Clean(sticky, ids);
    var kept, pending := Kept(clean, data), Unplaced(clean, data);
    var chosen := Choices(ids, Quota(ids, |data|), Load(kept), pending);
    ChoicesPlaceAll(ids, Quota(ids, |data|), Load(kept), pending);
    ChoicesOnPeers(ids, Quota(ids, |data|), Load(kept), pending);
    KeptMembers(clean, data);
    if p !in kept {
      var k :| 0 <= k < |chosen| && chosen[k] == p;
      assert Items(chosen)[k] == p.item;
    }
  }

  // The item has a sticky entry on a node that is still a peer.
  predicate Survives(sticky: StickyMap, ids: seq<NodeID>, id: string) {
    id in sticky && sticky[id] in ids && sticky[id] != ""
  }

  // The first k placements are the surviving sticky items where they were, the rest the other
  // items, and both parts keep the order of the data.
  ghost predicate StickyThenNew(sticky: StickyMap, ids: seq<NodeID>, data: seq<Item>, out: seq<Placement>, k: nat) {
    && k <= |out|
    && Sublist(Items(out[..k]), data) && Sublist(Items(out[k..]), data)
    && (forall p :: p in out[..k] ==> Survives(sticky, ids, p.item.id) && p.node == sticky[p.item.id])
    && (forall p :: p in out[k..] ==> !Survives(sticky, ids, p.item.id))
  }

  lemma {:induction false} KeptSurvive(sticky: StickyMap, ids: seq<NodeID>, data: seq<Item>, p: Placement)
    requires p in KeptOf(sticky, ids, data)
    ensures Survives(sticky, ids, p.item.id) && p.node == sticky[p.item.id]
  {
    KeptMembers(Clean(sticky, ids), data);
  }

  lemma {:induction false} UnplacedDoNot(sticky: StickyMap, ids: seq<NodeID>, data: seq<Item>, x: Item)
    requires x in Unplaced(Clean(sticky, ids), data)
    ensures !Survives(sticky, ids, x.id)
  {
    KeptMembers(Clean(sticky, ids), data);
  }

  lemma {:induction false} ItemOf(ps: seq<Placement>, p: Placement)
    requires p in ps
    ensures p.item in Items(ps)
  {
    var k :| 0 <= k < |ps| && ps[k] == p;
    assert Items(ps)[k] == p.item;
  }

  lemma {:induction false} PartsInOrder(sticky: StickyMap, ids: seq<NodeID>, data: seq<Item>,
                                        kept: seq<Placement>, chosen: seq<Placement>)
    requires kept == KeptOf(sticky, ids, data) && Items(chosen) == Unplaced(Clean(sticky, ids), data)
    ensures StickyThenNew(sticky, ids, data, kept + chosen, |kept|)
  {
    var out, k := kept + chosen, |kept|;
    KeptInOrder(Clean(sticky, ids), data);
    assert out[..k] == kept && out[k..] == chosen;
    forall p | p in kept ensures Survives(sticky, ids, p.item.id) && p.node == sticky[p.item.id] {
      KeptSurvive(sticky, ids, data, p);
    }
    forall p | p in chosen ensures !Survives(sticky, ids, p.item.id) {
      ItemOf(chosen, p);
      UnplacedDoNot(sticky, ids, data, p.item);
    }
  }

  // So is every call's output.
  lemma {:induction false} PlacedInOrder(sticky: StickyMap, ids: seq<NodeID>, data: seq<Item>) returns (k: nat)
    requires data != [] ==> ids != []
    ensures StickyThenNew(sticky, ids, data, Allocate(sticky, ids, data).placed, k)
  {
    var clean := Clean(sticky, ids);
    var kept, pending := Kept(clean, data), Unplaced(clean, data);
    var chosen := Choices(ids, Quota(ids, |data|), Load(kept), pending);
    ChoicesPlaceAll(ids, Quota(ids, |data|), Load(kept), pending);
    PartsInOrder(sticky, ids, data, kept, chosen);
    k := |kept|;
  }

  // ---------- Loads ----------

  // The excess over the quotas is that of the sticky items alone.
  lemma {:induction false} ExcessIsSticky(sticky: StickyMap, ids: seq<NodeID>, data: seq<Item>)
    requires data != [] ==> ids != []
    ensures var quota := Quota(ids, |data|);
            Load(Allocate(sticky, ids, data).placed) - quota == Load(KeptOf(sticky, ids, data)) - quota
  {
    var clean := Clean(sticky, ids);
    var kept, pending := Kept(clean, data), Unplaced(clean, data);
    ChoicesKeepExcess(ids, Quota(ids, |data|), Load(kept), pending);
    LoadConcat(kept, Choices(ids, Quota(ids, |data|), Load(kept), pending));
  }

  // A peer with more sticky items than its quota keeps exactly those; no other peer exceeds
  // its quota or loses a sticky item.
  lemma {:induction false} LoadOfPeer(sticky: StickyMap, ids: seq<NodeID>, data: seq<Item>, n: NodeID)
    requires data != [] ==> ids != []
    ensures var load := Load(Allocate(sticky, ids, data).placed)[n];
            var stuck := Load(KeptOf(sticky, ids, data))[n];
            var quota := Quota(ids, |data|)[n];
            if stuck > quota then load == stuck else stuck <= load <= quota
  {
    ExcessIsSticky(sticky, ids, data);
    var quota, kept := Quota(ids, |data|), KeptOf(sticky, ids, data);
    LoadConcat(kept, Choices(ids, quota, Load(kept), Unplaced(Clean(sticky, ids), data)));
    var load := Load(Allocate(sticky, ids, data).placed);
    assert (load - quota)[n] == (Load(kept) - quota)[n];
  }

  lemma {:induction false} EqualSizeNoExcess<T>(a: multiset<T>, b: multiset<T>)
    requires |a| == |b| && a <= b
    ensures a == b
  {
    assert b == a + (b - a);
  }

  // Every peer ends with exactly its quota if and only if no peer's surviving sticky items
  // exceed its quota before the call.
  lemma {:induction false} QuotaMetIff(sticky: StickyMap, ids: seq<NodeID>, data: seq<Item>)
    requires data != [] ==> ids != []
    ensures Load(Allocate(sticky, ids, data).placed) == Quota(ids, |data|)
            <==> Load(KeptOf(sticky, ids, data)) <= Quota(ids, |data|)
  {
    var load, quota := Load(Allocate(sticky, ids, data).placed), Quota(ids, |data|);
    var stuck := Load(KeptOf(sticky, ids, data));
    forall n | true ensures stuck[n] <= load[n] && (stuck[n] <= quota[n] ==> load[n] <= quota[n]) {
      LoadOfPeer(sticky, ids, data, n);
    }
    if stuck <= quota {
      AllPlaced(sticky, ids, data);
      EqualSizeNoExcess(load, quota);
    }
  }

  lemma {:induction false} AllPlaced(sticky: StickyMap, ids: seq<NodeID>, data: seq<Item>)
    requires data != [] ==> ids != []
    ensures |Allocate(sticky, ids, data).placed| == |data|
  {
    Complete(sticky, ids, data);
    assert |multiset(data)| == |data|;
    assert |multiset(Items(Allocate(sticky, ids, data).placed))| == |data|;
  }

  // ---------- Optimality ----------

  // The number of items above the quotas, and of free places below them.
  ghost function Excess(ps: seq<Placement>, quota: multiset<NodeID>): nat {
    |Load(ps) - quota|
  }

  ghost function Shortfall(ps: seq<Placement>, quota: multiset<NodeID>): nat {
    |quota - Load(ps)|
  }

  // Summed peer by peer: how far a's multiplicity is above b's.
  ghost function SurplusSum(ids: seq<NodeID>, a: multiset<NodeID>, b: multiset<NodeID>): nat {
    if ids == [] then 0
    else SurplusSum(ids[1..], a, b) + if a[ids[0]] > b[ids[0]] then a[ids[0]] - b[ids[0]] else 0
  }

  // For distinct peers that hold everything, the multiset difference counts exactly the sum
  // over the peers of max(0, a - b).
  lemma {:induction false} SurplusSumIsDifference(ids: seq<NodeID>, a: multiset<NodeID>, b: multiset<NodeID>)
    requires Distinct(ids) && forall n :: n in a ==> n in ids
    ensures |a - b| == SurplusSum(ids, a, b)
    decreases |ids|
  {
    if ids == [] {
      assert a == multiset{};
    } else {
      var n, rest := ids[0], ids[1..];
      var a' := a[n := 0];
      assert ids == [n] + rest;
      forall m | m in a' ensures m in rest {
        assert m in a && m != n;
      }
      SurplusSumIsDifference(rest, a', b);
      SurplusSumIgnores(rest, a, a', b, n);
      var here := multiset{}[n := (a - b)[n]];
      assert a - b == (a' - b) + here;
      assert |here| == (a - b)[n];
    }
  }

  lemma {:induction false} SurplusSumIgnores(ids: seq<NodeID>, a: multiset<NodeID>, a': multiset<NodeID>,
                                             b: multiset<NodeID>, n: NodeID)
    requires n !in ids && forall m :: m != n ==> a[m] == a'[m]
    ensures SurplusSum(ids, a, b) == SurplusSum(ids, a', b)
    decreases |ids|
  {
    if ids != [] {
      assert ids[0] in ids;
      SurplusSumIgnores(ids[1..], a, a', b, n);
    }
  }

  // A rival allocation: the same items, every surviving sticky item left where it is.
  ghost predicate KeepsSticky(sticky: StickyMap, ids: seq<NodeID>, data: seq<Item>, rival: seq<Placement>) {
    && multiset(Items(rival)) == multiset(data)
    && forall p :: p in rival && Sticks(Clean(sticky, ids), p.item) ==> p.node == sticky[p.item.id]
  }

  lemma {:induction false} StickyLoadWithin(clean: StickyMap, rival: seq<Placement>)
    requires forall p :: p in rival && Sticks(clean, p.item) ==> p.node == clean[p.item.id]
    ensures Load(Kept(clean, Items(rival))) <= Load(rival)
  {
    if rival != [] {
      var init, p := rival[..|rival| - 1], rival[|rival| - 1];
      assert rival == init + [p];
      StickyLoadWithin(clean, init);
      LoadConcat(init, [p]);
      KeptAfter(clean, init, p);
    }
  }

  lemma {:induction false} KeptAfter(clean: StickyMap, init: seq<Placement>, p: Placement)
    requires Sticks(clean, p.item) ==> p.node == clean[p.item.id]
    ensures Load(Kept(clean, Items(init + [p]))) ==
            Load(Kept(clean, Items(init))) + if Sticks(clean, p.item) then Load([p]) else multiset{}
  {
    assert Items(init + [p])[..|init|] == Items(init);
    LoadConcat(Kept(clean, Items(init)), [p]);
  }

  lemma {:induction false} DifferenceMonotone<T>(a: multiset<T>, b: multiset<T>, c: multiset<T>)
    requires a <= b
    ensures |a - c| <= |b - c|
  {
    CardinalityMonotone(a - c, b - c);
  }

  // The call's own allocation keeps the surviving sticky items,
  lemma {:induction false} KeepsOwnSticky(sticky: StickyMap, ids: seq<NodeID>, data: seq<Item>)
    requires data != [] ==> ids != []
    ensures KeepsSticky(sticky, ids, data, Allocate(sticky, ids, data).placed)
  {
    Complete(sticky, ids, data);
    forall p | p in Allocate(sticky, ids, data).placed && Sticks(Clean(sticky, ids), p.item)
      ensures p.node == sticky[p.item.id]
    {
      OnPeers(sticky, ids, data, p);
    }
  }

  // and no rival that keeps them has less excess.
  lemma {:induction false} Optimal(sticky: StickyMap, ids: seq<NodeID>, data: seq<Item>, rival: seq<Placement>)
    requires data != [] ==> ids != []
    requires KeepsSticky(sticky, ids, data, rival)
    ensures Excess(Allocate(sticky, ids, data).placed, Quota(ids, |data|)) <= Excess(rival, Quota(ids, |data|))
  {
    ExcessIsSticky(sticky, ids, data);
    var clean, quota := Clean(sticky, ids), Quota(ids, |data|);
    StickyLoadWithin(clean, rival);
    KeptLoadPermutes(clean, Items(rival), data);
    DifferenceMonotone(Load(Kept(clean, data)), Load(rival), quota);
  }

  lemma {:induction false} DifferencesBalance<T>(a: multiset<T>, b: multiset<T>)
    requires |a| == |b|
    ensures |a - b| == |b - a|
  {
    assert a == (a * b) + (a - b);
    assert b == (a * b) + (b - a);
  }

  // The least excess, summed over the peers, is what the sticky counts exceed the quotas by,
  lemma {:induction false} ExcessIsSum(sticky: StickyMap, ids: seq<NodeID>, data: seq<Item>)
    requires data != [] ==> ids != []
    requires Distinct(ids)
    ensures Excess(Allocate(sticky, ids, data).placed, Quota(ids, |data|)) ==
            SurplusSum(ids, Load(KeptOf(sticky, ids, data)), Quota(ids, |data|))
  {
    ExcessIsSticky(sticky, ids, data);
    KeptOnPeers(sticky, ids, data);
    SurplusSumIsDifference(ids, Load(KeptOf(sticky, ids, data)), Quota(ids, |data|));
  }

  // and the under-filled peers together miss exactly that many items.
  lemma {:induction false} ShortfallIsExcess(sticky: StickyMap, ids: seq<NodeID>, data: seq<Item>)
    requires data != [] ==> ids != []
    requires Distinct(ids)
    ensures var out, quota := Allocate(sticky, ids, data).placed, Quota(ids, |data|);
            SurplusSum(ids, quota, Load(out)) == Shortfall(out, quota) == Excess(out, quota)
  {
    var out, quota := Allocate(sticky, ids, data).placed, Quota(ids, |data|);
    SurplusSumIsDifference(ids, quota, Load(out));
    AllPlaced(sticky, ids, data);
    DifferencesBalance(Load(out), quota);
  }

  // ---------- Order of the new items ----------

  // The new items fill the peers in contiguous blocks, in peer order.
  lemma {:induction false} NewItemsInBlocks(sticky: StickyMap, ids: seq<NodeID>, data: seq<Item>)
    requires data != [] ==> ids != []
    ensures var out, kept := Allocate(sticky, ids, data).placed, KeptOf(sticky, ids, data);
            |kept| <= |out| && out[..|kept|] == kept && InBlocks(ids, out[|kept|..], 0)
  {
    var clean := Clean(sticky, ids);
    var kept := Kept(clean, data);
    ChoicesInBlocks(ids, Quota(ids, |data|), Load(kept), Unplaced(clean, data), 0);
    var out := Allocate(sticky, ids, data).placed;
    assert out[|kept|..] == Choices(ids, Quota(ids, |data|), Load(kept), Unplaced(clean, data));
  }

  // ---------- The sticky map after the call ----------

  lemma {:induction false} UnplacedIds(clean: StickyMap, data: seq<Item>, id: string)
    ensures id in IdSet(Unplaced(clean, data)) <==>
              id in IdSet(data) && !(id in clean && clean[id] != "")
  {
    KeptMembers(clean, data);
    if x :| x in data && x.id == id && !Sticks(clean, x) {
      assert x in Unplaced(clean, data);
    }
    if id in IdSet(data) && !(id in clean && clean[id] != "") {
      var x :| x in data && x.id == id;
      assert x in Unplaced(clean, data);
    }
  }

  // After a call every entry is on a current peer, an entry of a surviving sticky node is
  // unchanged, and the keys are the surviving ones and the items of the call.
  lemma {:induction false} StickyAfter(sticky: StickyMap, ids: seq<NodeID>, data: seq<Item>, id: string)
    requires data != [] ==> ids != []
    ensures var after := Allocate(sticky, ids, data).sticky;
            && (id in after <==> id in Clean(sticky, ids) || id in IdSet(data))
            && (id in after ==> after[id] in ids)
            && (id in Clean(sticky, ids) && sticky[id] != "" ==> after[id] == sticky[id])
  {
    var clean := Clean(sticky, ids);
    var kept, pending := Kept(clean, data), Unplaced(clean, data);
    var chosen := Choices(ids, Quota(ids, |data|), Load(kept), pending);
    ChoicesPlaceAll(ids, Quota(ids, |data|), Load(kept), pending);
    ChoicesOnPeers(ids, Quota(ids, |data|), Load(kept), pending);
    RecordAt(clean, chosen, id);
    UnplacedIds(clean, data, id);
    assert forall n :: n in Nodes(chosen) ==> n in ids;
  }
}

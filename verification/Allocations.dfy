// What one call of Distributor.Distribute computes, as a function of the sticky map, the peer
// IDs and the items, and what that allocation guarantees.
module Allocations {
  import opened Peers
  import opened Quotas

  datatype Item = Item(id: string, body: string)

  // A receiver value after its Distribute(nodeID, item) method was called.
  datatype Placement = Placement(node: NodeID, item: Item)

  type StickyMap = map<string, NodeID>

  datatype Allocation = Allocation(placed: seq<Placement>, sticky: StickyMap)

  // ---------- Specification ----------

  // cleanKeysNotIn: forget the items whose node left.
  function Clean(sticky: StickyMap, ids: seq<NodeID>): StickyMap {
    map id | id in sticky && sticky[id] in ids :: sticky[id]
  }

  // A missing entry reads as "", and "" means not sticky.
  predicate Sticks(sticky: StickyMap, item: Item) {
    item.id in sticky && sticky[item.id] != ""
  }

  // The placements of the sticky items, in data order.
  function Kept(sticky: StickyMap, data: seq<Item>): (ps: seq<Placement>)
    ensures |ps| <= |data|
  {
    if data == [] then []
    else
      var rest := Kept(sticky, data[..|data| - 1]);
      var item := data[|data| - 1];
      if Sticks(sticky, item) then rest + [Placement(sticky[item.id], item)] else rest
  }

  // The other items, in data order.
  function Unplaced(sticky: StickyMap, data: seq<Item>): (items: seq<Item>)
    ensures |items| == |data| - |Kept(sticky, data)|
  {
    if data == [] then []
    else
      var rest := Unplaced(sticky, data[..|data| - 1]);
      var item := data[|data| - 1];
      if Sticks(sticky, item) then rest else rest + [item]
  }

  function Items(ps: seq<Placement>): (items: seq<Item>)
    ensures |items| == |ps|
    ensures forall i :: 0 <= i < |ps| ==> items[i] == ps[i].item
  {
    seq(|ps|, i requires 0 <= i < |ps| => ps[i].item)
  }

  function Nodes(ps: seq<Placement>): (nodes: seq<NodeID>)
    ensures |nodes| == |ps|
    ensures forall i :: 0 <= i < |ps| ==> nodes[i] == ps[i].node
  {
    seq(|ps|, i requires 0 <= i < |ps| => ps[i].node)
  }

  // How many placements each node holds.
  ghost function Load(ps: seq<Placement>): (load: multiset<NodeID>)
    ensures |load| == |ps|
  {
    multiset(Nodes(ps))
  }

  // The index of the first peer with remaining quota; |ids| when there is none.
  ghost function FirstOpen(ids: seq<NodeID>, quota: multiset<NodeID>, load: multiset<NodeID>): (i: nat)
    ensures i <= |ids|
    ensures forall j :: 0 <= j < i ==> quota[ids[j]] <= load[ids[j]]
    ensures i < |ids| ==> load[ids[i]] < quota[ids[i]]
  {
    if ids == [] || load[ids[0]] < quota[ids[0]] then 0 else 1 + FirstOpen(ids[1..], quota, load)
  }

  // The second loop of Distribute: each new item goes to the first open peer. An item for
  // which the inner loop finds no peer is silently dropped; ChoicesPlaceAll shows there is none.
  ghost function Choices(ids: seq<NodeID>, quota: multiset<NodeID>, load: multiset<NodeID>,
                         pending: seq<Item>): seq<Placement>
    decreases |pending|
  {
    if pending == [] then []
    else
      var i := FirstOpen(ids, quota, load);
      if i == |ids| then Choices(ids, quota, load, pending[1..])
      else [Placement(ids[i], pending[0])] + Choices(ids, quota, load + multiset{ids[i]}, pending[1..])
  }

  // The Put calls of the second loop, in order.
  function Record(sticky: StickyMap, ps: seq<Placement>): StickyMap
    decreases |ps|
  {
    if ps == [] then sticky else Record(sticky[ps[0].item.id := ps[0].node], ps[1..])
  }

  ghost function Allocate(sticky: StickyMap, ids: seq<NodeID>, data: seq<Item>): Allocation
    requires data != [] ==> ids != []
  {
    var clean := Clean(sticky, ids);
    var kept := Kept(clean, data);
    var chosen := Choices(ids, Quota(ids, |data|), Load(kept), Unplaced(clean, data));
    Allocation(kept + chosen, Record(clean, chosen))
  }

  // ---------- Load and Kept ----------

  lemma {:induction false} LoadConcat(a: seq<Placement>, b: seq<Placement>)
    ensures Load(a + b) == Load(a) + Load(b)
  {
    assert Nodes(a + b) == Nodes(a) + Nodes(b);
  }

  lemma {:induction false} KeptLast(sticky: StickyMap, init: seq<Item>, x: Item)
    ensures Kept(sticky, init + [x]) ==
            Kept(sticky, init) + if Sticks(sticky, x) then [Placement(sticky[x.id], x)] else []
  {
    assert (init + [x])[..|init|] == init;
  }

  lemma {:induction false} KeptConcat(sticky: StickyMap, a: seq<Item>, b: seq<Item>)
    ensures Kept(sticky, a + b) == Kept(sticky, a) + Kept(sticky, b)
  {
    if b == [] {
      assert a + b == a;
    } else {
      var init, x := b[..|b| - 1], b[|b| - 1];
      assert b == init + [x] && a + b == (a + init) + [x];
      KeptConcat(sticky, a, init);
      KeptLast(sticky, init, x);
      KeptLast(sticky, a + init, x);
    }
  }

  // Kept holds exactly the sticky items, each on its sticky node; Unplaced exactly the others.
  lemma {:induction false} KeptMembers(sticky: StickyMap, data: seq<Item>)
    ensures forall p :: p in Kept(sticky, data) <==>
              p.item in data && Sticks(sticky, p.item) && p.node == sticky[p.item.id]
    ensures forall x :: x in Unplaced(sticky, data) <==> x in data && !Sticks(sticky, x)
  {
    if data != [] {
      KeptMembers(sticky, data[..|data| - 1]);
      assert data == data[..|data| - 1] + [data[|data| - 1]];
    }
  }

  // Both keep the order of the data.
  lemma {:induction false} KeptInOrder(sticky: StickyMap, data: seq<Item>)
    ensures Sublist(Items(Kept(sticky, data)), data)
    ensures Sublist(Unplaced(sticky, data), data)
  {
    if data != [] {
      var init, x := data[..|data| - 1], data[|data| - 1];
      assert data == init + [x];
      KeptInOrder(sticky, init);
      SublistAppend(Items(Kept(sticky, init)), init, x);
      SublistAppend(Unplaced(sticky, init), init, x);
      if Sticks(sticky, x) {
        assert Items(Kept(sticky, data)) == Items(Kept(sticky, init)) + [x];
      }
    }
  }

  lemma {:induction false} SplitLast(sticky: StickyMap, init: seq<Item>, x: Item)
    ensures multiset(Items(Kept(sticky, init + [x])) + Unplaced(sticky, init + [x])) ==
            multiset(Items(Kept(sticky, init)) + Unplaced(sticky, init)) + multiset{x}
  {
    assert (init + [x])[..|init|] == init;
    var kept := Kept(sticky, init);
    if Sticks(sticky, x) {
      assert Items(kept + [Placement(sticky[x.id], x)]) == Items(kept) + [x];
    }
  }

  // Keeping and not keeping split the data.
  lemma {:induction false} KeptSplits(sticky: StickyMap, data: seq<Item>)
    ensures multiset(Items(Kept(sticky, data)) + Unplaced(sticky, data)) == multiset(data)
  {
    if data != [] {
      var init, x := data[..|data| - 1], data[|data| - 1];
      assert data == init + [x];
      KeptSplits(sticky, init);
      SplitLast(sticky, init, x);
    }
  }

  lemma {:induction false} KeptInsert(sticky: StickyMap, l: seq<Item>, x: Item, r: seq<Item>)
    ensures Load(Kept(sticky, l + [x] + r)) == Load(Kept(sticky, l + r)) + Load(Kept(sticky, [x]))
  {
    KeptConcat(sticky, l, r);
    KeptConcat(sticky, l + [x], r);
    KeptConcat(sticky, l, [x]);
    LoadConcat(Kept(sticky, l), Kept(sticky, r));
    LoadConcat(Kept(sticky, l + [x]), Kept(sticky, r));
    LoadConcat(Kept(sticky, l), Kept(sticky, [x]));
  }

  lemma {:induction false} RemoveOne<T>(init: seq<T>, l: seq<T>, x: T, r: seq<T>)
    requires multiset(init + [x]) == multiset(l + [x] + r)
    ensures multiset(init) == multiset(l + r)
  {
    assert multiset(init) == multiset(init + [x]) - multiset{x};
    assert multiset(l + r) == multiset(l + [x] + r) - multiset{x};
  }

  // The load of the kept placements depends on which items there are, not on their order.
  lemma {:induction false} KeptLoadPermutes(sticky: StickyMap, a: seq<Item>, b: seq<Item>)
    requires multiset(a) == multiset(b)
    ensures Load(Kept(sticky, a)) == Load(Kept(sticky, b))
    decreases |a|
  {
    if a == [] {
      assert b == [] by { assert |multiset(b)| == 0; }
    } else {
      var init, x := a[..|a| - 1], a[|a| - 1];
      assert a == init + [x];
      assert x in multiset(b);
      var j :| 0 <= j < |b| && b[j] == x;
      var l, r := b[..j], b[j + 1..];
      assert b == l + [x] + r;
      RemoveOne(init, l, x, r);
      KeptLoadPermutes(sticky, init, l + r);
      KeptInsert(sticky, l, x, r);
      KeptInsert(sticky, init, x, []);
      assert init + [x] + [] == a && init + [] == init;
    }
  }

  // ---------- The filling loop ----------

  lemma {:induction false} CardinalityMonotone<T>(a: multiset<T>, b: multiset<T>)
    requires forall n :: n in a ==> a[n] <= b[n]
    ensures |a| <= |b|
  {
    assert b == a + (b - a);
  }

  // The pigeonhole: while fewer items are placed than the quotas sum to, some peer is open,
  // however far below zero other peers' remaining quotas may be.
  lemma {:induction false} AlwaysRoom(ids: seq<NodeID>, quota: multiset<NodeID>, load: multiset<NodeID>)
    requires forall n :: n in quota ==> n in ids
    requires |load| < |quota|
    ensures FirstOpen(ids, quota, load) < |ids|
  {
    if forall n :: n in quota ==> quota[n] <= load[n] {
      CardinalityMonotone(quota, load);
    }
    var n :| n in quota && load[n] < quota[n];
    var j :| 0 <= j < |ids| && ids[j] == n;
  }

  // Giving an item to an open peer adds nothing to the excess over the quota.
  lemma {:induction false} ExcessStable(load: multiset<NodeID>, quota: multiset<NodeID>, n: NodeID)
    requires load[n] < quota[n]
    ensures (load + multiset{n}) - quota == load - quota
  {
  }

  lemma {:induction false} PrependPlacement(p: Placement, rest: seq<Placement>)
    ensures Items([p] + rest) == [p.item] + Items(rest)
    ensures Nodes([p] + rest) == [p.node] + Nodes(rest)
    ensures Load([p] + rest) == multiset{p.node} + Load(rest)
  {
  }

  // One round of the second loop, when there is room.
  lemma {:induction false} ChoicesStep(ids: seq<NodeID>, quota: multiset<NodeID>, load: multiset<NodeID>, pending: seq<Item>)
    returns (i: nat, rest: seq<Placement>)
    requires forall n :: n in quota ==> n in ids
    requires pending != [] && |load| + |pending| == |quota|
    ensures i < |ids| && load[ids[i]] < quota[ids[i]]
    ensures forall j :: 0 <= j < i ==> quota[ids[j]] <= load[ids[j]]
    ensures rest == Choices(ids, quota, load + multiset{ids[i]}, pending[1..])
    ensures Choices(ids, quota, load, pending) == [Placement(ids[i], pending[0])] + rest
  {
    AlwaysRoom(ids, quota, load);
    i := FirstOpen(ids, quota, load);
    rest := Choices(ids, quota, load + multiset{ids[i]}, pending[1..]);
  }

  // Filling places every new item once, in order,
  lemma {:induction false} ChoicesPlaceAll(ids: seq<NodeID>, quota: multiset<NodeID>, load: multiset<NodeID>,
                                           pending: seq<Item>)
    requires forall n :: n in quota ==> n in ids
    requires |load| + |pending| == |quota|
    ensures Items(Choices(ids, quota, load, pending)) == pending
    decreases |pending|
  {
    if pending != [] {
      var i, rest := ChoicesStep(ids, quota, load, pending);
      ChoicesPlaceAll(ids, quota, load + multiset{ids[i]}, pending[1..]);
      PrependPlacement(Placement(ids[i], pending[0]), rest);
    }
  }

  // each on a peer.
  lemma {:induction false} ChoicesOnPeers(ids: seq<NodeID>, quota: multiset<NodeID>, load: multiset<NodeID>,
                                          pending: seq<Item>)
    ensures forall p :: p in Choices(ids, quota, load, pending) ==> p.node in ids
    decreases |pending|
  {
    if pending != [] {
      var i := FirstOpen(ids, quota, load);
      if i == |ids| {
        ChoicesOnPeers(ids, quota, load, pending[1..]);
      } else {
        ChoicesOnPeers(ids, quota, load + multiset{ids[i]}, pending[1..]);
      }
    }
  }

  // Filling never pushes a peer over its quota.
  lemma {:induction false} ChoicesKeepExcess(ids: seq<NodeID>, quota: multiset<NodeID>, load: multiset<NodeID>,
                                             pending: seq<Item>)
    requires forall n :: n in quota ==> n in ids
    requires |load| + |pending| == |quota|
    ensures (load + Load(Choices(ids, quota, load, pending))) - quota == load - quota
    decreases |pending|
  {
    if pending == [] {
      assert load + Load([]) == load;
    } else {
      var i, rest := ChoicesStep(ids, quota, load, pending);
      ChoicesKeepExcess(ids, quota, load + multiset{ids[i]}, pending[1..]);
      var p := Placement(ids[i], pending[0]);
      PrependPlacement(p, rest);
      ExcessStable(load, quota, p.node);
      assert load + (multiset{p.node} + Load(rest)) == (load + multiset{p.node}) + Load(rest);
    }
  }

  // The first position of n among the peers.
  ghost function PositionOf(ids: seq<NodeID>, n: NodeID): (i: nat)
    requires n in ids
    ensures i < |ids| && ids[i] == n
    ensures forall j :: 0 <= j < i ==> ids[j] != n
  {
    if ids[0] == n then 0 else 1 + PositionOf(ids[1..], n)
  }

  // The new placements go to peers at or after position lo, in non-decreasing peer order.
  ghost predicate InBlocks(ids: seq<NodeID>, ps: seq<Placement>, lo: nat) {
    && (forall k :: 0 <= k < |ps| ==> ps[k].node in ids && lo <= PositionOf(ids, ps[k].node))
    && (forall j, k :: 0 <= j < k < |ps| ==> PositionOf(ids, ps[j].node) <= PositionOf(ids, ps[k].node))
  }

  lemma {:induction false} PrependInBlocks(ids: seq<NodeID>, p: Placement, rest: seq<Placement>, lo: nat)
    requires p.node in ids && lo <= PositionOf(ids, p.node)
    requires InBlocks(ids, rest, PositionOf(ids, p.node))
    ensures InBlocks(ids, [p] + rest, lo)
  {
    var ps := [p] + rest;
    forall k | 0 <= k < |ps| ensures ps[k].node in ids && PositionOf(ids, p.node) <= PositionOf(ids, ps[k].node) {
      assert k > 0 ==> ps[k] == rest[k - 1];
    }
    forall j, k | 0 <= j < k < |ps| ensures PositionOf(ids, ps[j].node) <= PositionOf(ids, ps[k].node) {
      assert ps[k] == rest[k - 1];
      assert j > 0 ==> ps[j] == rest[j - 1];
    }
  }

  // A peer that is full stays full, so no later item goes before it.
  lemma {:induction false} ChoicesInBlocks(ids: seq<NodeID>, quota: multiset<NodeID>, load: multiset<NodeID>,
                                           pending: seq<Item>, lo: nat)
    requires forall n :: n in quota ==> n in ids
    requires |load| + |pending| == |quota|
    requires lo <= |ids| && forall j :: 0 <= j < lo ==> quota[ids[j]] <= load[ids[j]]
    ensures InBlocks(ids, Choices(ids, quota, load, pending), lo)
    decreases |pending|
  {
    if pending != [] {
      var i, rest := ChoicesStep(ids, quota, load, pending);
      ChoicesInBlocks(ids, quota, load + multiset{ids[i]}, pending[1..], i);
      assert PositionOf(ids, ids[i]) == i >= lo;
      PrependInBlocks(ids, Placement(ids[i], pending[0]), rest, lo);
    }
  }

  ghost predicate DistinctIds(data: seq<Item>) {
    forall i, j :: 0 <= i < j < |data| ==> data[i].id != data[j].id
  }

  ghost function IdSet(data: seq<Item>): set<string> {
    set x | x in data :: x.id
  }

  lemma {:induction false} PrependIds(x: Item, rest: seq<Item>)
    ensures IdSet([x] + rest) == {x.id} + IdSet(rest)
    ensures DistinctIds([x] + rest) ==> DistinctIds(rest) && x.id !in IdSet(rest)
  {
    var s := [x] + rest;
    assert forall y :: y in s <==> y == x || y in rest;
    if DistinctIds(s) {
      assert forall k :: 0 <= k < |rest| ==> rest[k] == s[k + 1];
      forall y | y in rest ensures y.id != x.id {
        var k :| 0 <= k < |rest| && rest[k] == y;
        assert s[0].id != s[k + 1].id;
      }
    }
  }

  // The second loop adds the new items to the sticky map, each on a node chosen in that loop,
  // and touches no other entry.
  lemma {:induction false} RecordAt(sticky: StickyMap, ps: seq<Placement>, id: string)
    ensures id in Record(sticky, ps) <==> id in sticky || id in IdSet(Items(ps))
    ensures id in sticky && id !in IdSet(Items(ps)) ==> Record(sticky, ps)[id] == sticky[id]
    ensures id in IdSet(Items(ps)) ==> Record(sticky, ps)[id] in Nodes(ps)
    decreases |ps|
  {
    if ps != [] {
      var p, rest := ps[0], ps[1..];
      assert ps == [p] + rest;
      RecordAt(sticky[p.item.id := p.node], rest, id);
      PrependPlacement(p, rest);
      PrependIds(p.item, Items(rest));
    }
  }

  // With distinct item IDs every choice is remembered.
  lemma {:induction false} RecordRemembers(sticky: StickyMap, ps: seq<Placement>, p: Placement)
    requires DistinctIds(Items(ps)) && p in ps
    ensures p.item.id in Record(sticky, ps) && Record(sticky, ps)[p.item.id] == p.node
    decreases |ps|
  {
    var q, rest := ps[0], ps[1..];
    assert ps == [q] + rest;
    PrependPlacement(q, rest);
    PrependIds(q.item, Items(rest));
    var sticky' := sticky[q.item.id := q.node];
    if p in rest {
      RecordRemembers(sticky', rest, p);
    } else {
      RecordAt(sticky', rest, p.item.id);
    }
  }
}

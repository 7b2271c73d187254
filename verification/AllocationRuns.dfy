// Whole runs of Distribute calls that share one sticky map.
module AllocationRuns {
  import opened Peers
  import opened Quotas
  import opened Allocations
  import opened AllocationLaws

  datatype Request = Request(ids: seq<NodeID>, data: seq<Item>)

  // Distribute divides by the number of peers when there are items.
  type Call = c: Request | c.data != [] ==> c.ids != [] witness Request([], [])

  // The sticky map after the calls.
  ghost function StickyAfterRun(sticky: StickyMap, calls: seq<Call>): StickyMap
  {
    if calls == [] then sticky
    else
      var last := calls[|calls| - 1];
      Allocate(StickyAfterRun(sticky, calls[..|calls| - 1]), last.ids, last.data).sticky
  }

  // The placements call number k of the run returns.
  ghost function OutputOf(sticky: StickyMap, calls: seq<Call>, k: nat): seq<Placement>
    requires k < |calls|
  {
    Allocate(StickyAfterRun(sticky, calls[..k]), calls[k].ids, calls[k].data).placed
  }

  lemma {:induction false} RunStep(sticky: StickyMap, calls: seq<Call>, k: nat)
    requires k < |calls|
    ensures StickyAfterRun(sticky, calls[..k + 1])
            == Allocate(StickyAfterRun(sticky, calls[..k]), calls[k].ids, calls[k].data).sticky
  {
    assert calls[..k + 1][..k] == calls[..k];
  }

  // ---------- Stickiness ----------

  // With distinct item IDs, the sticky map remembers every placement of the call.
  lemma {:induction false} PlacementRemembered(sticky: StickyMap, ids: seq<NodeID>, data: seq<Item>, p: Placement)
    requires data != [] ==> ids != []
    requires DistinctIds(data)
    requires p in Allocate(sticky, ids, data).placed
    ensures var after := Allocate(sticky, ids, data).sticky;
            p.item.id in after && after[p.item.id] == p.node
  {
    var clean := Clean(sticky, ids);
    var kept, pending := Kept(clean, data), Unplaced(clean, data);
    var chosen := Choices(ids, Quota(ids, |data|), Load(kept), pending);
    ChoicesPlaceAll(ids, Quota(ids, |data|), Load(kept), pending);
    if p in kept {
      KeptMembers(clean, data);
      StickyAfter(sticky, ids, data, p.item.id);
    } else {
      UnplacedDistinct(clean, data);
      RecordRemembers(clean, chosen, p);
    }
  }

  lemma {:induction false} UnplacedDistinct(clean: StickyMap, data: seq<Item>)
    requires DistinctIds(data)
    ensures DistinctIds(Unplaced(clean, data))
  {
    if data != [] {
      var init := data[..|data| - 1];
      UnplacedDistinct(clean, init);
      KeptMembers(clean, init);
      forall x | x in Unplaced(clean, init) ensures x.id != data[|data| - 1].id {
        var k :| 0 <= k < |init| && init[k] == x;
        assert data[k] == x;
      }
    }
  }

  // An entry on a node that is in the peer list of every later call never changes.
  lemma {:induction false} EntrySurvives(sticky: StickyMap, calls: seq<Call>, k: nat, m: nat, id: string)
    requires k <= m <= |calls|
    requires var s := StickyAfterRun(sticky, calls[..k]);
             id in s && s[id] != "" && forall j :: k <= j < m ==> s[id] in calls[j].ids
    ensures id in StickyAfterRun(sticky, calls[..m])
    ensures StickyAfterRun(sticky, calls[..m])[id] == StickyAfterRun(sticky, calls[..k])[id]
    decreases m
  {
    if k < m {
      EntrySurvives(sticky, calls, k, m - 1, id);
      RunStep(sticky, calls, m - 1);
      StickyAfter(StickyAfterRun(sticky, calls[..m - 1]), calls[m - 1].ids, calls[m - 1].data, id);
    }
  }

  lemma {:induction false} PlacedIsHeld(sticky: StickyMap, calls: seq<Call>, k: nat, p: Placement)
    requires k < |calls| && DistinctIds(calls[k].data) && p in OutputOf(sticky, calls, k)
    ensures var s := StickyAfterRun(sticky, calls[..k + 1]);
            p.item.id in s && s[p.item.id] == p.node
  {
    RunStep(sticky, calls, k);
    PlacementRemembered(StickyAfterRun(sticky, calls[..k]), calls[k].ids, calls[k].data, p);
  }

  lemma {:induction false} HeldIsPlaced(sticky: StickyMap, calls: seq<Call>, m: nat, p: Placement, n: NodeID)
    requires m < |calls| && p in OutputOf(sticky, calls, m)
    requires n != "" && n in calls[m].ids
    requires var s := StickyAfterRun(sticky, calls[..m]);
             p.item.id in s && s[p.item.id] == n
    ensures p.node == n
  {
    OnPeers(StickyAfterRun(sticky, calls[..m]), calls[m].ids, calls[m].data, p);
  }

  // Once a call ends with an item on a node, every later call that includes the item places
  // it there, as long as the node was in every peer list since. The calls between need not
  // include the item, and their data is arbitrary.
  lemma {:induction false} StickyOverRuns(sticky: StickyMap, calls: seq<Call>, k: nat, m: nat, p: Placement, p': Placement)
    requires k < m < |calls|
    requires DistinctIds(calls[k].data)
    requires p in OutputOf(sticky, calls, k) && p' in OutputOf(sticky, calls, m)
    requires p.item.id == p'.item.id && p.node != ""
    requires forall j :: k < j <= m ==> p.node in calls[j].ids
    ensures p'.node == p.node
  {
    PlacedIsHeld(sticky, calls, k, p);
    EntrySurvives(sticky, calls, k + 1, m, p.item.id);
    HeldIsPlaced(sticky, calls, m, p', p.node);
  }

  // ---------- Fixed point ----------

  // The items in the given order, each on the node the map holds for it.
  ghost predicate PlacesBySticky(out: seq<Placement>, sticky: StickyMap, data: seq<Item>) {
    && Items(out) == data
    && forall p :: p in out ==> p.item.id in sticky && p.node == sticky[p.item.id]
  }

  lemma {:induction false} AllStick(sticky: StickyMap, data: seq<Item>)
    requires forall x :: x in data ==> Sticks(sticky, x)
    ensures Items(Kept(sticky, data)) == data && Unplaced(sticky, data) == []
  {
    if data != [] {
      AllStick(sticky, data[..|data| - 1]);
      assert data == data[..|data| - 1] + [data[|data| - 1]];
    }
  }

  // After a call, a call with the same peers on any reordering, sublist or repetition of the
  // same items gives every item the same node, in the given order, and changes nothing.
  lemma {:induction false} FixedPoint(sticky: StickyMap, ids: seq<NodeID>, data: seq<Item>, again: seq<Item>)
    requires data != [] ==> ids != []
    requires "" !in ids
    requires IdSet(again) <= IdSet(data)
    requires again != [] ==> ids != []
    ensures var first := Allocate(sticky, ids, data);
            var second := Allocate(first.sticky, ids, again);
            && second.sticky == first.sticky
            && PlacesBySticky(second.placed, first.sticky, again)
            && (DistinctIds(data) ==> forall p, p' :: p in first.placed && p' in second.placed ==>
                  (p.item.id == p'.item.id ==> p'.node == p.node))
  {
    var first := Allocate(sticky, ids, data);
    var s := first.sticky;
    forall id | id in s ensures s[id] in ids {
      StickyAfter(sticky, ids, data, id);
    }
    assert Clean(s, ids) == s;
    forall x | x in again ensures Sticks(s, x) {
      assert x.id in IdSet(again);
      StickyAfter(sticky, ids, data, x.id);
    }
    AllStick(s, again);
    KeptMembers(s, again);
    assert Allocate(s, ids, again).placed == Kept(s, again);
    if DistinctIds(data) {
      forall p | p in first.placed ensures p.item.id in s && s[p.item.id] == p.node {
        PlacementRemembered(sticky, ids, data, p);
      }
    }
  }

  // ---------- Balance ----------

  // The items of a set that the map puts on n.
  ghost function HeldBy(sticky: StickyMap, items: set<string>, n: NodeID): set<string> {
    set id | id in items && id in sticky && sticky[id] == n
  }

  lemma {:induction false} IdSetLast(data: seq<Item>)
    requires data != [] && DistinctIds(data)
    ensures var init, x := data[..|data| - 1], data[|data| - 1];
            DistinctIds(init) && IdSet(data) == IdSet(init) + {x.id} && x.id !in IdSet(init)
  {
    var init, x := data[..|data| - 1], data[|data| - 1];
    assert data == init + [x];
    forall y | y in init ensures y.id != x.id {
      var k :| 0 <= k < |init| && init[k] == y;
      assert data[k] == y;
    }
  }

  lemma {:induction false} HeldByLast(sticky: StickyMap, data: seq<Item>, n: NodeID)
    requires data != [] && DistinctIds(data)
    ensures var init, x := data[..|data| - 1], data[|data| - 1];
            |HeldBy(sticky, IdSet(data), n)| == |HeldBy(sticky, IdSet(init), n)| +
              if x.id in sticky && sticky[x.id] == n then 1 else 0
  {
    var init, x := data[..|data| - 1], data[|data| - 1];
    IdSetLast(data);
    var before := HeldBy(sticky, IdSet(init), n);
    if x.id in sticky && sticky[x.id] == n {
      assert HeldBy(sticky, IdSet(data), n) == before + {x.id};
    } else {
      assert HeldBy(sticky, IdSet(data), n) == before;
    }
  }

  // With distinct item IDs, a node's sticky load counts the entries it holds.
  lemma {:induction false} StickyLoadCounts(sticky: StickyMap, data: seq<Item>, n: NodeID)
    requires DistinctIds(data) && n != ""
    ensures Load(Kept(sticky, data))[n] == |HeldBy(sticky, IdSet(data), n)|
  {
    if data == [] {
      assert HeldBy(sticky, IdSet(data), n) == {};
    } else {
      var init, x := data[..|data| - 1], data[|data| - 1];
      HeldByLast(sticky, data, n);
      StickyLoadCounts(sticky, init, n);
      if Sticks(sticky, x) {
        var p := Placement(sticky[x.id], x);
        LoadConcat(Kept(sticky, init), [p]);
        assert Nodes([p]) == [p.node];
      }
    }
  }

  lemma {:induction false} RepeatCounts<T>(b: seq<T>, i: nat, j: nat)
    requires i < j < |b|
    ensures b[i] == b[j] ==> multiset(b)[b[i]] >= 2
  {
    assert b == b[..j] + [b[j]] + b[j + 1..];
    assert b[i] in b[..j];
  }

  lemma {:induction false} DistinctPermutes(a: seq<Item>, b: seq<Item>)
    requires multiset(a) == multiset(b)
    ensures IdSet(a) == IdSet(b)
    ensures DistinctIds(a) ==> DistinctIds(b)
  {
    assert forall x :: x in a <==> x in multiset(a);
    assert forall x :: x in b <==> x in multiset(b);
    if DistinctIds(a) {
      forall i, j | 0 <= i < j < |b| ensures b[i].id != b[j].id {
        NoRepeats(a, b[i], b[j]);
        RepeatCounts(b, i, j);
      }
    }
  }

  lemma {:induction false} NoRepeats(a: seq<Item>, x: Item, y: Item)
    requires DistinctIds(a)
    ensures multiset(a)[x] <= 1
    ensures x in a && y in a && x != y ==> x.id != y.id
  {
    if a != [] {
      IdSetLast(a);
      var init, z := a[..|a| - 1], a[|a| - 1];
      NoRepeats(init, x, y);
      assert a == init + [z];
      assert forall w :: w in init ==> w.id in IdSet(init);
    }
  }

  // After a call with distinct item IDs, a node's load counts the call's items that the new
  // map puts on it.
  lemma {:induction false} LoadCounts(sticky: StickyMap, ids: seq<NodeID>, data: seq<Item>, n: NodeID)
    requires data != [] ==> ids != []
    requires DistinctIds(data) && "" !in ids && n != ""
    ensures var r := Allocate(sticky, ids, data);
            Load(r.placed)[n] == |HeldBy(r.sticky, IdSet(data), n)|
  {
    var r := Allocate(sticky, ids, data);
    var items := Items(r.placed);
    Complete(sticky, ids, data);
    DistinctPermutes(data, items);
    forall p | p in r.placed ensures p.node != "" && p.item.id in r.sticky && r.sticky[p.item.id] == p.node {
      PlacementRemembered(sticky, ids, data, p);
      OnPeers(sticky, ids, data, p);
    }
    KeptIsPlaced(r.sticky, r.placed);
    StickyLoadCounts(r.sticky, items, n);
  }

  lemma {:induction false} KeptIsPlaced(sticky: StickyMap, ps: seq<Placement>)
    requires forall p :: p in ps ==> p.node != "" && p.item.id in sticky && sticky[p.item.id] == p.node
    ensures Kept(sticky, Items(ps)) == ps
  {
    if ps != [] {
      var init, p := ps[..|ps| - 1], ps[|ps| - 1];
      assert ps == init + [p];
      KeptIsPlaced(sticky, init);
      assert Items(ps)[..|ps| - 1] == Items(init);
    }
  }

  // A run in which peers only leave and items only arrive.
  ghost predicate ShrinkingRun(calls: seq<Call>) {
    && (forall c :: c in calls ==> Distinct(c.ids) && "" !in c.ids && DistinctIds(c.data))
    && (forall k {:trigger calls[k].ids} :: 0 < k < |calls| ==>
          Sublist(calls[k].ids, calls[k - 1].ids) && IdSet(calls[k - 1].data) <= IdSet(calls[k].data))
  }

  // The run so far remembers exactly the last call's items and left each of its peers with
  // exactly its quota.
  ghost predicate Settled(sticky: StickyMap, c: Call)
  {
    && sticky.Keys == IdSet(c.data)
    && forall n :: n in c.ids ==> |HeldBy(sticky, IdSet(c.data), n)| == Quota(c.ids, |c.data|)[n]
  }

  lemma {:induction false} IdSetSize(data: seq<Item>)
    requires DistinctIds(data)
    ensures |IdSet(data)| == |data|
  {
    if data != [] {
      IdSetLast(data);
      IdSetSize(data[..|data| - 1]);
    }
  }

  // A call whose sticky items fit meets every quota and settles.
  lemma {:induction false} FittingCallSettles(sticky: StickyMap, c: Call)
    requires DistinctIds(c.data) && "" !in c.ids
    requires Clean(sticky, c.ids).Keys <= IdSet(c.data)
    requires Load(KeptOf(sticky, c.ids, c.data)) <= Quota(c.ids, |c.data|)
    ensures Load(Allocate(sticky, c.ids, c.data).placed) == Quota(c.ids, |c.data|)
    ensures Settled(Allocate(sticky, c.ids, c.data).sticky, c)
  {
    QuotaMetIff(sticky, c.ids, c.data);
    var after := Allocate(sticky, c.ids, c.data).sticky;
    forall id ensures id in after.Keys <==> id in IdSet(c.data) {
      StickyAfter(sticky, c.ids, c.data, id);
    }
    forall n | n in c.ids ensures |HeldBy(after, IdSet(c.data), n)| == Quota(c.ids, |c.data|)[n] {
      LoadCounts(sticky, c.ids, c.data, n);
    }
  }

  // From a settled map, fewer peers and more items leave every sticky load within its quota.
  lemma {:induction false} SettledFits(sticky: StickyMap, c: Call, c': Call)
    requires Settled(sticky, c)
    requires Distinct(c.ids) && Distinct(c'.ids) && "" !in c'.ids && Sublist(c'.ids, c.ids)
    requires DistinctIds(c.data) && DistinctIds(c'.data) && IdSet(c.data) <= IdSet(c'.data)
    ensures Load(KeptOf(sticky, c'.ids, c'.data)) <= Quota(c'.ids, |c'.data|)
  {
    var clean := Clean(sticky, c'.ids);
    IdSetSize(c.data);
    IdSetSize(c'.data);
    SubsetSize(IdSet(c.data), IdSet(c'.data));
    forall n | n in Load(KeptOf(sticky, c'.ids, c'.data))
      ensures Load(KeptOf(sticky, c'.ids, c'.data))[n] <= Quota(c'.ids, |c'.data|)[n]
    {
      KeptOnPeers(sticky, c'.ids, c'.data);
      assert n in Nodes(KeptOf(sticky, c'.ids, c'.data));
      StickyLoadCounts(clean, c'.data, n);
      assert HeldBy(clean, IdSet(c'.data), n) == HeldBy(sticky, IdSet(c.data), n);
      QuotaMonotone(c.ids, |c.data|, c'.ids, |c'.data|, n);
    }
  }

  lemma {:induction false} SubsetSize<T>(a: set<T>, b: set<T>)
    requires a <= b
    ensures |a| <= |b|
  {
    assert b == a + (b - a);
  }

  lemma {:induction false} ShrinkingRunSettles(calls: seq<Call>, k: nat)
    requires ShrinkingRun(calls) && k < |calls|
    ensures Settled(StickyAfterRun(map[], calls[..k + 1]), calls[k])
    ensures Load(OutputOf(map[], calls, k)) == Quota(calls[k].ids, |calls[k].data|)
    decreases k
  {
    var c := calls[k];
    var sticky := StickyAfterRun(map[], calls[..k]);
    if k == 0 {
      assert KeptOf(sticky, c.ids, c.data) == [] by { KeptMembers(Clean(sticky, c.ids), c.data); KeptEmpty(c.data); }
      assert Clean(sticky, c.ids).Keys == {};
    } else {
      ShrinkingRunSettles(calls, k - 1);
      SettledFits(sticky, calls[k - 1], c);
    }
    FittingCallSettles(sticky, c);
    RunStep(map[], calls, k);
  }

  lemma {:induction false} KeptEmpty(data: seq<Item>)
    ensures Kept(map[], data) == []
  {
    if data != [] {
      KeptEmpty(data[..|data| - 1]);
    }
  }

  // Balance over whole runs: from an empty sticky map, while peers only leave and items only
  // arrive, after every call each peer holds exactly its quota, and so the loads of any two
  // peers differ by at most one.
  lemma {:induction false} BalancedOverRuns(calls: seq<Call>, k: nat, a: NodeID, b: NodeID)
    requires ShrinkingRun(calls) && k < |calls|
    requires a in calls[k].ids && b in calls[k].ids
    ensures Load(OutputOf(map[], calls, k))[a] == Quota(calls[k].ids, |calls[k].data|)[a]
    ensures Load(OutputOf(map[], calls, k))[a] <= Load(OutputOf(map[], calls, k))[b] + 1
  {
    ShrinkingRunSettles(calls, k);
    QuotasDifferByAtMostOne(calls[k].ids, |calls[k].data|, a, b);
  }

  lemma {:induction false} AllOnOneNode(ps: seq<Placement>, n: NodeID, m: NodeID)
    requires forall p :: p in ps ==> p.node == n
    ensures Load(ps)[n] == |ps|
    ensures m != n ==> Load(ps)[m] == 0
  {
    if ps != [] {
      var init, p := ps[..|ps| - 1], ps[|ps| - 1];
      AllOnOneNode(init, n, m);
      assert Nodes(ps) == Nodes(init) + [p.node];
    }
  }

  lemma {:induction false} ArrivalCall(n: NodeID, m: NodeID, data: seq<Item>, s: StickyMap)
    requires n != "" && n != m && s == Allocate(map[], [n], data).sticky
    ensures var load := Load(Allocate(s, [n, m], data).placed);
            load[n] == |data| && load[m] == 0
  {
    var out := Allocate(s, [n, m], data).placed;
    forall p | p in out ensures p.node == n {
      OnPeers(s, [n, m], data, p);
      assert p.item.id in IdSet(data);
      StickyAfter(map[], [n], data, p.item.id);
    }
    AllOnOneNode(out, n, m);
    AllPlaced(s, [n, m], data);
  }

  // A peer that arrives gets nothing when every item already sticks elsewhere: all the items
  // of a call on one peer stay there when the next call has a second peer.
  lemma {:induction false} ArrivalGetsNothing(n: NodeID, m: NodeID, data: seq<Item>)
    requires n != "" && n != m
    ensures var calls := [Request([n], data), Request([n, m], data)];
            var load := Load(OutputOf(map[], calls, 1));
            load[n] == |data| && load[m] == 0
  {
    var calls := [Request([n], data), Request([n, m], data)];
    RunStep(map[], calls, 0);
    assert calls[..0] == [];
    ArrivalCall(n, m, data, StickyAfterRun(map[], calls[..1]));
  }
}

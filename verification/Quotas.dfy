// The round-robin quota of distribute.go (makePeersMap) as a multiset of node IDs:
// the multiplicity of a node is the number of items it may hold.
module Quotas {
  import opened Peers

  // The position round robin is at after i steps over n peers. It equals i % n (TurnIsMod);
  // counting rounds keeps the remainder out of every proof that does not need it.
  ghost function Turn(i: nat, n: nat): (r: nat)
    requires n > 0
    ensures r < n
    decreases i
  {
    if i < n then i else Turn(i - n, n)
  }

  // The node that round robin gives to each of the first d items.
  ghost function Slots(ids: seq<NodeID>, d: nat): (s: seq<NodeID>)
    requires d > 0 ==> ids != []
    ensures |s| == d
    ensures forall n :: n in s ==> n in ids
  {
    if d == 0 then [] else Slots(ids, d - 1) + [ids[Turn(d - 1, |ids|)]]
  }

  ghost function Quota(ids: seq<NodeID>, d: nat): (q: multiset<NodeID>)
    requires d > 0 ==> ids != []
    ensures |q| == d
    ensures forall n :: n in q ==> n in ids
  {
    multiset(Slots(ids, d))
  }

  // The closed form: an equal share, and one of the remaining items for the first peers.
  function Share(d: nat, n: nat, i: nat): nat
    requires i < n
  {
    d / n + if i < d % n then 1 else 0
  }

  lemma {:induction false} ShareStep(d: nat, n: nat, i: nat)
    requires i < n && d > 0
    ensures Share(d, n, i) == Share(d - 1, n, i) + if (d - 1) % n == i then 1 else 0
  {
    var q, r := (d - 1) / n, (d - 1) % n;
    assert d == q * n + (r + 1);
    if r + 1 == n {
      assert d == (q + 1) * n;
      DivModUnique(d, n, q + 1, 0);
    } else {
      DivModUnique(d, n, q, r + 1);
    }
  }

  lemma {:induction false} DivModUnique(d: nat, n: nat, q: nat, r: nat)
    requires r < n && d == q * n + r
    ensures d / n == q && d % n == r
  {
    var q', r' := d / n, d % n;
    assert (q' + 1) * n == q' * n + n;
    assert (q + 1) * n == q * n + n;
    if q > q' {
      MulMonotone(n, q' + 1, q);
    } else if q < q' {
      MulMonotone(n, q + 1, q');
    }
  }

  lemma {:induction false} TurnIsMod(i: nat, n: nat)
    requires n > 0
    ensures Turn(i, n) == i % n
    decreases i
  {
    if i >= n {
      TurnIsMod(i - n, n);
      var q, r := (i - n) / n, (i - n) % n;
      assert i == (q + 1) * n + r by { assert (q + 1) * n == q * n + n; }
      DivModUnique(i, n, q + 1, r);
    } else {
      DivModUnique(i, n, 0, i);
    }
  }

  lemma {:induction false} QuotaStep(ids: seq<NodeID>, d: nat, n: NodeID)
    requires ids != [] && d > 0
    ensures Quota(ids, d)[n] == Quota(ids, d - 1)[n] + if ids[(d - 1) % |ids|] == n then 1 else 0
  {
    TurnIsMod(d - 1, |ids|);
  }

  // For distinct peers, makePeersMap gives the peer at index i its share.
  lemma {:induction false} QuotaClosedForm(ids: seq<NodeID>, d: nat, i: nat)
    requires Distinct(ids) && i < |ids|
    ensures Quota(ids, d)[ids[i]] == Share(d, |ids|, i)
  {
    if d == 0 {
      DivModUnique(0, |ids|, 0, 0);
    } else {
      QuotaClosedForm(ids, d - 1, i);
      ShareStep(d, |ids|, i);
      QuotaStep(ids, d, ids[i]);
      var k := (d - 1) % |ids|;
      assert ids[k] == ids[i] <==> k == i;
    }
  }

  // The share s of index i is the number of positions i, i + n, i + 2n, ... below d.
  lemma {:induction false} ShareBounds(d: nat, n: nat, i: nat)
    requires i < n
    ensures Share(d, n, i) > 0 ==> (Share(d, n, i) - 1) * n + i < d
    ensures d <= Share(d, n, i) * n + i
  {
    var q, r := d / n, d % n;
    assert d == q * n + r;
    assert (q + 1) * n == q * n + n;
    assert q > 0 ==> (q - 1) * n == q * n - n;
  }

  // More items, fewer peers or an earlier place never lower a peer's share.
  lemma {:induction false} ShareMonotone(d: nat, n: nat, i: nat, d': nat, n': nat, i': nat)
    requires i < n && i' < n'
    requires d <= d' && n' <= n && i' <= i
    ensures Share(d, n, i) <= Share(d', n', i')
  {
    var s, s' := Share(d, n, i), Share(d', n', i');
    ShareBounds(d, n, i);
    ShareBounds(d', n', i');
    if s' < s {
      assert s' * n' <= (s - 1) * n' by { MulMonotone(n', s', s - 1); }
      assert (s - 1) * n' <= (s - 1) * n by { MulMonotone(s - 1, n', n); }
    }
  }

  lemma {:induction false} MulMonotone(k: nat, a: nat, b: nat)
    requires a <= b
    ensures k * a <= k * b && a * k <= b * k
  {
    assert k * (b - a) >= 0;
  }

  // The same for whole quotas: losing peers while gaining items never lowers the quota of a
  // peer that stays.
  lemma {:induction false} QuotaMonotone(ids: seq<NodeID>, d: nat, ids': seq<NodeID>, d': nat, n: NodeID)
    requires Distinct(ids) && Distinct(ids') && Sublist(ids', ids)
    requires n in ids' && d <= d'
    ensures n in ids
    ensures Quota(ids, d)[n] <= Quota(ids', d')[n]
  {
    var i' :| 0 <= i' < |ids'| && ids'[i'] == n;
    var i := SublistIndex(ids', ids, i');
    QuotaClosedForm(ids, d, i);
    QuotaClosedForm(ids', d', i');
    ShareMonotone(d, |ids|, i, d', |ids'|, i');
  }

  // Two quotas of one call differ by at most one.
  lemma {:induction false} QuotasDifferByAtMostOne(ids: seq<NodeID>, d: nat, a: NodeID, b: NodeID)
    requires Distinct(ids) && a in ids && b in ids
    ensures Quota(ids, d)[a] <= Quota(ids, d)[b] + 1
  {
    var i :| 0 <= i < |ids| && ids[i] == a;
    var j :| 0 <= j < |ids| && ids[j] == b;
    QuotaClosedForm(ids, d, i);
    QuotaClosedForm(ids, d, j);
  }
}

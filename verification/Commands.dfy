// What RaftStore.Apply (store.go) makes of one committed command, and of a log of them.
module Commands {
  import opened Options

  // time is the parsed time stamp in nanoseconds; None when it does not parse.
  datatype Command = Command(op: string, key: string, value: string, time: Option<int>)

  type Table = map<string, string>

  // The interceptor of Arg.Intercept: a function of the log entry (its index stands for what
  // else it may read) that consumes the command or lets it through.
  type Interceptor = (nat, Command) -> bool

  const WINDOW := 100 * 1_000_000_000  // 100 seconds
  const CLUSTER_KEY := "/raft/cluster"

  predicate Timely(c: Command, now: int) {
    c.time.Some? && c.time.value >= now - WINDOW
  }

  // The command reaches the table as a "set" if it is found timely.
  predicate SetsKey(c: Command, consumed: bool) {
    !consumed && c.op == "set" && c.key != CLUSTER_KEY
  }

  predicate DeletesKey(c: Command, consumed: bool) {
    !consumed && c.op == "delete"
  }

  // timely is the decision Apply takes on the age of the command.
  function ApplyCommand(c: Command, consumed: bool, timely: bool, m: Table): Table {
    if SetsKey(c, consumed) && timely then m[c.key := c.value]
    else if DeletesKey(c, consumed) then m - {c.key}
    else m
  }

  // The cases of Apply: what each kind of command makes of the table.
  lemma {:induction false} ApplyByCases(c: Command, consumed: bool, timely: bool, m: Table)
    ensures consumed || (c.op != "set" && c.op != "delete") ==> ApplyCommand(c, consumed, timely, m) == m
    ensures c.op == "set" && (c.key == "/raft/cluster" || !timely) ==> ApplyCommand(c, consumed, timely, m) == m
    ensures !consumed && c.op == "set" && c.key != "/raft/cluster" && timely ==>
              ApplyCommand(c, consumed, timely, m) == m[c.key := c.value]
    ensures !consumed && c.op == "delete" ==> ApplyCommand(c, consumed, timely, m) == m - {c.key}
  {
  }

  // The age decisions a replica took, one for each entry it applied.
  type Decisions = seq<bool>

  // A set whose time does not parse is refused by every replica at any time.
  ghost predicate Admissible(log: seq<Command>, ages: Decisions) {
    |ages| <= |log| && forall i :: 0 <= i < |ages| && ages[i] ==> log[i].time.Some?
  }

  // The table after applying the first n entries to an empty store.
  ghost function Replay(ic: Interceptor, log: seq<Command>, ages: Decisions, n: nat): Table
    requires n <= |ages| <= |log|
  {
    if n == 0 then map[]
    else ApplyCommand(log[n - 1], ic(n - 1, log[n - 1]), ages[n - 1], Replay(ic, log, ages, n - 1))
  }

  // The decisions of a replica that applies every entry within the window.
  ghost function OnTime(log: seq<Command>, n: nat): (ages: Decisions)
    requires n <= |log|
    ensures |ages| == n && forall i :: 0 <= i < n ==> ages[i] == log[i].time.Some?
    ensures Admissible(log, ages)
  {
    seq(n, i requires 0 <= i < n => log[i].time.Some?)
  }

  // The plain fold of the log: no set is lost for its age.
  ghost function Fold(ic: Interceptor, log: seq<Command>, n: nat): Table
    requires n <= |log|
  {
    Replay(ic, log, OnTime(log, n), n)
  }

  lemma {:induction false} ReplayPrefix(ic: Interceptor, log: seq<Command>, ages: Decisions,
                                        log': seq<Command>, ages': Decisions, n: nat)
    requires n <= |ages| <= |log| && n <= |ages'| <= |log'|
    requires log[..n] == log'[..n] && ages[..n] == ages'[..n]
    ensures Replay(ic, log, ages, n) == Replay(ic, log', ages', n)
  {
    if n > 0 {
      assert log[..n][..n - 1] == log[..n - 1] && log'[..n][..n - 1] == log'[..n - 1];
      assert ages[..n][..n - 1] == ages[..n - 1] && ages'[..n][..n - 1] == ages'[..n - 1];
      ReplayPrefix(ic, log, ages, log', ages', n - 1);
      assert log[n - 1] == log[..n][n - 1] && ages[n - 1] == ages[..n][n - 1];
    }
  }

  // The lookup in a table, as Get returns it.
  function Lookup(m: Table, k: string): Option<string> {
    if k in m then Some(m[k]) else None
  }

  // ---------- The last accepted write ----------

  // Entry i, when not consumed, is a set of key k that the replica found timely, or a delete.
  ghost predicate Accepts(ic: Interceptor, log: seq<Command>, ages: Decisions, i: nat, k: string)
    requires i < |ages| <= |log|
  {
    && log[i].key == k
    && ((SetsKey(log[i], ic(i, log[i])) && ages[i]) || DeletesKey(log[i], ic(i, log[i])))
  }

  // The last entry below n that the replica accepted as a write of k, or n when there is none.
  ghost function LastAccepted(ic: Interceptor, log: seq<Command>, ages: Decisions, n: nat, k: string): (i: nat)
    requires n <= |ages| <= |log|
    ensures i <= n
    ensures i < n ==> Accepts(ic, log, ages, i, k)
    ensures forall j :: 0 <= j < n && (i < j || i == n) ==> !Accepts(ic, log, ages, j, k)
  {
    if n == 0 then 0
    else if Accepts(ic, log, ages, n - 1, k) then n - 1
    else
      var i := LastAccepted(ic, log, ages, n - 1, k);
      if i == n - 1 then n else i
  }

  // What that entry leaves for k: the value it sets, nothing after a delete or without entry.
  ghost function LeftBy(ic: Interceptor, log: seq<Command>, ages: Decisions, n: nat, k: string): Option<string>
    requires n <= |ages| <= |log|
  {
    var i := LastAccepted(ic, log, ages, n, k);
    if i < n && log[i].op == "set" then Some(log[i].value) else None
  }

  // The table holds for every key exactly what the last accepted write of the key leaves.
  lemma {:induction false} ReplayIsLastAccepted(ic: Interceptor, log: seq<Command>, ages: Decisions, n: nat, k: string)
    requires n <= |ages| <= |log|
    ensures Lookup(Replay(ic, log, ages, n), k) == LeftBy(ic, log, ages, n, k)
    decreases n
  {
    if n > 0 {
      ReplayIsLastAccepted(ic, log, ages, n - 1, k);
    }
  }

  lemma {:induction false} NothingAcceptedSince(ic: Interceptor, log: seq<Command>, ages: Decisions,
                                                i: nat, n: nat, k: string)
    requires i <= n <= |ages| <= |log|
    requires forall j :: i <= j < n ==> !Accepts(ic, log, ages, j, k)
    ensures LeftBy(ic, log, ages, n, k) == LeftBy(ic, log, ages, i, k)
    decreases n
  {
    if i < n {
      NothingAcceptedSince(ic, log, ages, i, n - 1, k);
    }
  }

  lemma {:induction false} EqualLookups(a: Table, b: Table)
    requires forall k :: Lookup(a, k) == Lookup(b, k)
    ensures a == b
  {
    forall k ensures k in a <==> k in b {
      assert Lookup(a, k) == Lookup(b, k);
    }
    forall k | k in a ensures a[k] == b[k] {
      assert Lookup(a, k) == Lookup(b, k);
    }
  }

  // A key that no entry below n names was never written.
  lemma {:induction false} UnnamedKey(ic: Interceptor, log: seq<Command>, ages: Decisions, n: nat, k: string)
    requires n <= |ages| <= |log|
    requires forall i :: 0 <= i < n ==> log[i].key != k
    ensures LeftBy(ic, log, ages, n, k) == None
  {
  }

  // For every key the log names, the last accepted writes of two histories leave the same.
  ghost predicate SameWrites(ic: Interceptor, log: seq<Command>, ages: Decisions, ages': Decisions, n: nat)
    requires n <= |ages| <= |log| && n <= |ages'| <= |log|
  {
    forall i :: 0 <= i < n ==>
      LeftBy(ic, log, ages, n, log[i].key) == LeftBy(ic, log, ages', n, log[i].key)
  }

  // The same, except that the first history may have left nothing.
  ghost predicate NoContraryWrite(ic: Interceptor, log: seq<Command>, ages: Decisions, ages': Decisions, n: nat)
    requires n <= |ages| <= |log| && n <= |ages'| <= |log|
  {
    forall i :: 0 <= i < n ==>
      LeftBy(ic, log, ages, n, log[i].key) == None ||
      LeftBy(ic, log, ages, n, log[i].key) == LeftBy(ic, log, ages', n, log[i].key)
  }

  // Two replicas at one index hold the same table if and only if, for every key, the last
  // writes they accepted leave the same.
  lemma {:induction false} TablesEqualIff(ic: Interceptor, log: seq<Command>, ages: Decisions, ages': Decisions, n: nat)
    requires n <= |ages| <= |log| && n <= |ages'| <= |log|
    ensures Replay(ic, log, ages, n) == Replay(ic, log, ages', n) <==> SameWrites(ic, log, ages, ages', n)
  {
    var a, b := Replay(ic, log, ages, n), Replay(ic, log, ages', n);
    forall k
      ensures Lookup(a, k) == LeftBy(ic, log, ages, n, k) && Lookup(b, k) == LeftBy(ic, log, ages', n, k)
      ensures SameWrites(ic, log, ages, ages', n) ==> Lookup(a, k) == Lookup(b, k)
    {
      ReplayIsLastAccepted(ic, log, ages, n, k);
      ReplayIsLastAccepted(ic, log, ages', n, k);
      if forall i :: 0 <= i < n ==> log[i].key != k {
        UnnamedKey(ic, log, ages, n, k);
        UnnamedKey(ic, log, ages', n, k);
      }
    }
    if SameWrites(ic, log, ages, ages', n) {
      EqualLookups(a, b);
    }
  }

  ghost predicate Submap(a: Table, b: Table) {
    forall k :: Lookup(a, k) == None || Lookup(a, k) == Lookup(b, k)
  }

  // One table shows nothing the other contradicts under the matching condition.
  lemma {:induction false} TableWithinIff(ic: Interceptor, log: seq<Command>, ages: Decisions, ages': Decisions, n: nat)
    requires n <= |ages| <= |log| && n <= |ages'| <= |log|
    ensures Submap(Replay(ic, log, ages, n), Replay(ic, log, ages', n)) <==>
            NoContraryWrite(ic, log, ages, ages', n)
  {
    var a, b := Replay(ic, log, ages, n), Replay(ic, log, ages', n);
    forall k
      ensures Lookup(a, k) == LeftBy(ic, log, ages, n, k) && Lookup(b, k) == LeftBy(ic, log, ages', n, k)
      ensures NoContraryWrite(ic, log, ages, ages', n) ==> Lookup(a, k) == None || Lookup(a, k) == Lookup(b, k)
    {
      ReplayIsLastAccepted(ic, log, ages, n, k);
      ReplayIsLastAccepted(ic, log, ages', n, k);
      if forall i :: 0 <= i < n ==> log[i].key != k {
        UnnamedKey(ic, log, ages, n, k);
      }
    }
  }

  // ---------- Against the fold ----------

  // What the fold holds, key by key, without folding: the value of the last write if that is a
  // set, and nothing if it is a delete or there is none.
  lemma {:induction false} FoldIsLastWrite(ic: Interceptor, log: seq<Command>, n: nat, k: string)
    requires n <= |log|
    ensures Lookup(Fold(ic, log, n), k) == LeftBy(ic, log, OnTime(log, n), n, k)
  {
    ReplayIsLastAccepted(ic, log, OnTime(log, n), n, k);
  }

  // Entry j is a set that the replica found too old although it is the last word on its key.
  ghost predicate LostWrite(ic: Interceptor, log: seq<Command>, ages: Decisions, n: nat, j: nat)
    requires n <= |ages| <= |log|
  {
    && j < n && !ages[j] && log[j].op == "set"
    && LastAccepted(ic, log, OnTime(log, n), n, log[j].key) == j
  }

  // Compared with the fold, a key is as the last accepted write before a lost write leaves it,
  // and otherwise as in the fold.
  lemma {:induction false} KeyAfterReplay(ic: Interceptor, log: seq<Command>, ages: Decisions, n: nat, k: string)
    requires n <= |ages| && Admissible(log, ages)
    ensures var j := LastAccepted(ic, log, OnTime(log, n), n, k);
            if j < n && LostWrite(ic, log, ages, n, j) then
              && Lookup(Fold(ic, log, n), k) == Some(log[j].value)
              && Lookup(Replay(ic, log, ages, n), k) == LeftBy(ic, log, ages, j, k)
            else Lookup(Replay(ic, log, ages, n), k) == Lookup(Fold(ic, log, n), k)
  {
    var ideal := OnTime(log, n);
    var j := LastAccepted(ic, log, ideal, n, k);
    ReplayIsLastAccepted(ic, log, ages, n, k);
    ReplayIsLastAccepted(ic, log, ideal, n, k);
    assert forall i :: 0 <= i < n && Accepts(ic, log, ages, i, k) ==> Accepts(ic, log, ideal, i, k);
    if j < n && LostWrite(ic, log, ages, n, j) {
      NothingAcceptedSince(ic, log, ages, j, n, k);
    } else {
      assert j < n ==> Accepts(ic, log, ages, j, k);
      assert LastAccepted(ic, log, ages, n, k) == j;
    }
  }

  // Each lost write sets what the last accepted write before it had left,
  ghost predicate LostWritesRepeat(ic: Interceptor, log: seq<Command>, ages: Decisions, n: nat)
    requires n <= |ages| <= |log|
  {
    forall j: nat {:trigger LostWrite(ic, log, ages, n, j)} :: LostWrite(ic, log, ages, n, j) ==>
      LeftBy(ic, log, ages, j, log[j].key) == Some(log[j].value)
  }

  // or that one had left nothing.
  ghost predicate LostWritesHide(ic: Interceptor, log: seq<Command>, ages: Decisions, n: nat)
    requires n <= |ages| <= |log|
  {
    forall j: nat {:trigger LostWrite(ic, log, ages, n, j)} :: LostWrite(ic, log, ages, n, j) ==>
      LeftBy(ic, log, ages, j, log[j].key) == Some(log[j].value) ||
      LeftBy(ic, log, ages, j, log[j].key) == None
  }

  lemma {:induction false} LookupAfterReplay(ic: Interceptor, log: seq<Command>, ages: Decisions, n: nat, k: string)
    requires n <= |ages| && Admissible(log, ages)
    ensures LostWritesRepeat(ic, log, ages, n) ==>
              Lookup(Replay(ic, log, ages, n), k) == Lookup(Fold(ic, log, n), k)
    ensures LostWritesHide(ic, log, ages, n) ==>
              Lookup(Replay(ic, log, ages, n), k) == None ||
              Lookup(Replay(ic, log, ages, n), k) == Lookup(Fold(ic, log, n), k)
  {
    KeyAfterReplay(ic, log, ages, n, k);
    var j := LastAccepted(ic, log, OnTime(log, n), n, k);
    assert j < n ==> log[j].key == k;
  }

  // A replica equals the fold of its log if and only if each set it refused that is the last
  // word on its key sets what the last accepted write before it had left.
  lemma {:induction false} AgreesIff(ic: Interceptor, log: seq<Command>, ages: Decisions, n: nat)
    requires n <= |ages| && Admissible(log, ages)
    ensures Replay(ic, log, ages, n) == Fold(ic, log, n) <==> LostWritesRepeat(ic, log, ages, n)
  {
    if Replay(ic, log, ages, n) == Fold(ic, log, n) {
      forall j: nat | LostWrite(ic, log, ages, n, j)
        ensures LeftBy(ic, log, ages, j, log[j].key) == Some(log[j].value)
      {
        KeyAfterReplay(ic, log, ages, n, log[j].key);
      }
    }
    if LostWritesRepeat(ic, log, ages, n) {
      forall k ensures Lookup(Replay(ic, log, ages, n), k) == Lookup(Fold(ic, log, n), k) {
        LookupAfterReplay(ic, log, ages, n, k);
      }
      EqualLookups(Replay(ic, log, ages, n), Fold(ic, log, n));
    }
  }

  // A replica may miss keys but shows no wrong value if and only if, before each such set, the
  // last accepted write had left nothing or that very value.
  lemma {:induction false} SubmapIff(ic: Interceptor, log: seq<Command>, ages: Decisions, n: nat)
    requires n <= |ages| && Admissible(log, ages)
    ensures Submap(Replay(ic, log, ages, n), Fold(ic, log, n)) <==> LostWritesHide(ic, log, ages, n)
  {
    if Submap(Replay(ic, log, ages, n), Fold(ic, log, n)) {
      forall j: nat | LostWrite(ic, log, ages, n, j)
        ensures LeftBy(ic, log, ages, j, log[j].key) == Some(log[j].value) ||
                LeftBy(ic, log, ages, j, log[j].key) == None
      {
        KeyAfterReplay(ic, log, ages, n, log[j].key);
      }
    }
    if LostWritesHide(ic, log, ages, n) {
      forall k ensures Lookup(Replay(ic, log, ages, n), k) == None ||
                       Lookup(Replay(ic, log, ages, n), k) == Lookup(Fold(ic, log, n), k)
      {
        LookupAfterReplay(ic, log, ages, n, k);
      }
    }
  }

  // ---------- Catching up ----------

  // Once one set is found timely, every later parsable set is.
  ghost predicate MonotoneAges(log: seq<Command>, ages: Decisions)
    requires |ages| <= |log|
  {
    forall i, j :: 0 <= i < j < |ages| && ages[i] && log[j].op == "set" && log[j].time.Some? ==> ages[j]
  }

  // Catch-up safety: replaying a log from the empty map while freshness only improves may miss
  // keys, but never shows a wrong value and never revives a deleted key.
  lemma {:induction false} CatchUpIsSubmap(ic: Interceptor, log: seq<Command>, ages: Decisions, n: nat)
    requires n <= |ages| && Admissible(log, ages) && MonotoneAges(log, ages)
    ensures Submap(Replay(ic, log, ages, n), Fold(ic, log, n))
  {
    forall j: nat | LostWrite(ic, log, ages, n, j) ensures LeftBy(ic, log, ages, j, log[j].key) == None {
      assert Accepts(ic, log, OnTime(log, n), j, log[j].key);
    }
    SubmapIff(ic, log, ages, n);
  }

  // The ages a replica finds with the given clock readings, one for each entry.
  ghost predicate ReadFrom(log: seq<Command>, ages: Decisions, clock: seq<int>)
    requires |ages| == |clock| <= |log|
  {
    forall i :: 0 <= i < |ages| ==> (ages[i] <==> Timely(log[i], clock[i]))
  }

  // Freshness only improves when the replay runs at least as fast as the sets were issued.
  lemma {:induction false} FastReplayIsMonotone(log: seq<Command>, ages: Decisions, clock: seq<int>)
    requires |ages| == |clock| <= |log| && ReadFrom(log, ages, clock)
    requires forall i, j :: 0 <= i < j < |ages| && log[i].time.Some? && log[j].time.Some? ==>
               clock[j] - clock[i] <= log[j].time.value - log[i].time.value
    ensures Admissible(log, ages) && MonotoneAges(log, ages)
  {
  }

  // Without monotone freshness a stale value can stay: the replica takes the first write of a
  // key and refuses the second one.
  lemma {:induction false} SlowReplayShowsOldValue(k: string, v: string, v': string, t: int)
    requires k != CLUSTER_KEY && v != v'
    ensures var log := [Command("set", k, v, Some(t)), Command("set", k, v', Some(t))];
            var ages := [true, false];
            var ic := (i: nat, c: Command) => false;
            && ReadFrom(log, ages, [t, t + WINDOW + 1])
            && Lookup(Replay(ic, log, ages, 2), k) == Some(v)
            && Lookup(Fold(ic, log, 2), k) == Some(v')
  {
    var log := [Command("set", k, v, Some(t)), Command("set", k, v', Some(t))];
    var ic := (i: nat, c: Command) => false;
    assert Replay(ic, log, [true, false], 1) == map[k := v];
    assert Replay(ic, log, OnTime(log, 2), 1) == map[k := v];
  }

  // Whatever the ages, a key the replica holds was set by an entry with that value, and no
  // entry since then deleted it.
  ghost predicate Justified(ic: Interceptor, log: seq<Command>, n: nat, m: Table)
    requires n <= |log|
  {
    forall k :: k in m ==> exists i :: 0 <= i < n && SetSurvives(ic, log, n, i, k, m[k])
  }

  ghost predicate SetSurvives(ic: Interceptor, log: seq<Command>, n: nat, i: nat, k: string, v: string)
    requires i < n <= |log|
  {
    && SetsKey(log[i], ic(i, log[i])) && log[i].key == k && log[i].value == v
    && forall j :: i < j < n ==> !(DeletesKey(log[j], ic(j, log[j])) && log[j].key == k)
  }

  lemma {:induction false} NeverRevives(ic: Interceptor, log: seq<Command>, ages: Decisions, n: nat)
    requires n <= |ages| <= |log|
    ensures Justified(ic, log, n, Replay(ic, log, ages, n))
  {
    if n > 0 {
      NeverRevives(ic, log, ages, n - 1);
      var before, m := Replay(ic, log, ages, n - 1), Replay(ic, log, ages, n);
      var c := log[n - 1];
      forall k | k in m ensures exists i :: 0 <= i < n && SetSurvives(ic, log, n, i, k, m[k]) {
        if SetsKey(c, ic(n - 1, c)) && ages[n - 1] && c.key == k {
          assert SetSurvives(ic, log, n, n - 1, k, m[k]);
        } else {
          assert k in before && before[k] == m[k];
          var i :| 0 <= i < n - 1 && SetSurvives(ic, log, n - 1, i, k, m[k]);
          assert SetSurvives(ic, log, n, i, k, m[k]);
        }
      }
    }
  }
}

// N replicas of the store over one committed log: every interleaving of appending, applying,
// taking snapshots, crashing with restore, and installing another replica's snapshot.
module Replication {
  import opened Options
  import opened Commands

  // ages records the age decisions behind the table; its length is the index applied up to.
  datatype State = State(m: Table, ages: Decisions)

  datatype Replica = Replica(now: State, saved: Option<State>)

  datatype System = System(log: seq<Command>, replicas: seq<Replica>)

  datatype Step =
    | Append(c: Command)
    | ApplyNext(r: nat, clock: int)
    | TakeSnapshot(r: nat)
    | Crash(r: nat, keepsDisk: bool)
    | Install(from: nat, to: nat)

  const EMPTY := State(map[], [])

  function Init(n: nat): System {
    System([], seq(n, i => Replica(EMPTY, None)))
  }

  predicate Enabled(s: System, step: Step) {
    match step
    case Append(_) => true
    case ApplyNext(r, _) => r < |s.replicas| && |s.replicas[r].now.ages| < |s.log|
    case TakeSnapshot(r) => r < |s.replicas|
    case Crash(r, _) => r < |s.replicas|
    case Install(from, to) => from < |s.replicas| && to < |s.replicas| && s.replicas[from].saved.Some?
  }

  function NextEntry(s: System, r: nat): Command
    requires Enabled(s, ApplyNext(r, 0))
  {
    s.log[|s.replicas[r].now.ages|]
  }

  // Replica r applies the next committed entry at its own clock.
  function ApplyAt(ic: Interceptor, s: System, r: nat, clock: int): State
    requires Enabled(s, ApplyNext(r, clock))
  {
    var st := s.replicas[r].now;
    var c := NextEntry(s, r);
    State(ApplyCommand(c, ic(|st.ages|, c), Timely(c, clock), st.m), st.ages + [Timely(c, clock)])
  }

  function Next(ic: Interceptor, s: System, step: Step): System
    requires Enabled(s, step)
  {
    match step
    case Append(c) => s.(log := s.log + [c])
    case ApplyNext(r, clock) =>
      s.(replicas := s.replicas[r := s.replicas[r].(now := ApplyAt(ic, s, r, clock))])
    case TakeSnapshot(r) =>
      s.(replicas := s.replicas[r := s.replicas[r].(saved := Some(s.replicas[r].now))])
    case Crash(r, keepsDisk) =>
      var saved := if keepsDisk then s.replicas[r].saved else None;
      s.(replicas := s.replicas[r := Replica(if saved.Some? then saved.value else EMPTY, saved)])
    case Install(from, to) =>
      var saved := s.replicas[from].saved;
      s.(replicas := s.replicas[to := Replica(saved.value, saved)])
  }

  // What each step leaves of every replica: only the one it names changes, applying is what
  // the store makes of the next entry, a snapshot saves the table and keeps it, a crash falls
  // back to the snapshot, to the empty table without one or without the disk, and installing
  // gives the target the source's snapshot as table and as its own snapshot.
  lemma {:induction false} StepLeaves(ic: Interceptor, s: System, step: Step, r: nat)
    requires Enabled(s, step) && r < |s.replicas|
    ensures |Next(ic, s, step).replicas| == |s.replicas|
    ensures Next(ic, s, step).log == if step.Append? then s.log + [step.c] else s.log
    ensures var x, x' := s.replicas[r], Next(ic, s, step).replicas[r];
            match step
            case Append(_) => x' == x
            case ApplyNext(q, clock) =>
              if q != r then x' == x
              else
                var i := |x.now.ages|;
                && x'.saved == x.saved && x'.now.ages == x.now.ages + [Timely(s.log[i], clock)]
                && x'.now.m == ApplyCommand(s.log[i], ic(i, s.log[i]), Timely(s.log[i], clock), x.now.m)
            case TakeSnapshot(q) => x'.now == x.now && x'.saved == if q == r then Some(x.now) else x.saved
            case Crash(q, keepsDisk) =>
              if q != r then x' == x
              else if keepsDisk && x.saved.Some? then x'.saved == x.saved && x'.now == x.saved.value
              else x'.saved == None && x'.now.m == map[] && x'.now.ages == []
            case Install(from, to) =>
              if to != r then x' == x
              else x'.saved == s.replicas[from].saved && Some(x'.now) == s.replicas[from].saved
  {
  }

  ghost predicate ValidRun(ic: Interceptor, s: System, steps: seq<Step>)
    decreases |steps|
  {
    steps == [] || (Enabled(s, steps[0]) && ValidRun(ic, Next(ic, s, steps[0]), steps[1..]))
  }

  ghost function Exec(ic: Interceptor, s: System, steps: seq<Step>): System
    requires ValidRun(ic, s, steps)
    decreases |steps|
  {
    if steps == [] then s else Exec(ic, Next(ic, s, steps[0]), steps[1..])
  }

  // ---------- Every table is a replay of the log ----------

  ghost predicate IsReplay(ic: Interceptor, log: seq<Command>, st: State) {
    Admissible(log, st.ages) && st.m == Replay(ic, log, st.ages, |st.ages|)
  }

  ghost predicate AllReplays(ic: Interceptor, s: System) {
    forall r :: 0 <= r < |s.replicas| ==>
      && IsReplay(ic, s.log, s.replicas[r].now)
      && (s.replicas[r].saved.Some? ==> IsReplay(ic, s.log, s.replicas[r].saved.value))
  }

  lemma {:induction false} ReplayOfLongerLog(ic: Interceptor, log: seq<Command>, log': seq<Command>, st: State)
    requires IsReplay(ic, log, st) && log <= log'
    ensures IsReplay(ic, log', st)
  {
    var n := |st.ages|;
    assert log'[..n] == log[..n];
    ReplayPrefix(ic, log, st.ages, log', st.ages, n);
  }

  lemma {:induction false} ReplayExtends(ic: Interceptor, s: System, r: nat, clock: int)
    requires Enabled(s, ApplyNext(r, clock)) && IsReplay(ic, s.log, s.replicas[r].now)
    ensures IsReplay(ic, s.log, ApplyAt(ic, s, r, clock))
  {
    var st, st' := s.replicas[r].now, ApplyAt(ic, s, r, clock);
    var n := |st.ages|;
    assert st'.ages[..n] == st.ages[..n];
    ReplayPrefix(ic, s.log, st.ages, s.log, st'.ages, n);
  }

  lemma {:induction false} StepKeepsReplays(ic: Interceptor, s: System, step: Step)
    requires AllReplays(ic, s) && Enabled(s, step)
    ensures AllReplays(ic, Next(ic, s, step))
  {
    match step
    case Append(c) =>
      forall r | 0 <= r < |s.replicas|
        ensures IsReplay(ic, s.log + [c], s.replicas[r].now)
        ensures s.replicas[r].saved.Some? ==> IsReplay(ic, s.log + [c], s.replicas[r].saved.value)
      {
        ReplayOfLongerLog(ic, s.log, s.log + [c], s.replicas[r].now);
        if s.replicas[r].saved.Some? {
          ReplayOfLongerLog(ic, s.log, s.log + [c], s.replicas[r].saved.value);
        }
      }
    case ApplyNext(r, clock) => ReplayExtends(ic, s, r, clock);
    case TakeSnapshot(_) =>
    case Crash(_, _) =>
    case Install(_, _) =>
  }

  lemma {:induction false} RunKeepsReplays(ic: Interceptor, s: System, steps: seq<Step>)
    requires AllReplays(ic, s) && ValidRun(ic, s, steps)
    ensures AllReplays(ic, Exec(ic, s, steps))
    decreases |steps|
  {
    if steps != [] {
      StepKeepsReplays(ic, s, steps[0]);
      RunKeepsReplays(ic, Next(ic, s, steps[0]), steps[1..]);
    }
  }

  // In every reachable state, at any clock readings, every table and every saved snapshot is a
  // replay of a log prefix, holds only values that prefix justifies, and no key that prefix
  // deleted. A crash shortens the prefix; CrashShowsAgain says what that brings back.
  lemma {:induction false} ReachableIsJustified(ic: Interceptor, n: nat, steps: seq<Step>, r: nat)
    requires ValidRun(ic, Init(n), steps)
    requires r < |Exec(ic, Init(n), steps).replicas|
    ensures var s := Exec(ic, Init(n), steps);
            var st := s.replicas[r].now;
            IsReplay(ic, s.log, st) && Justified(ic, s.log, |st.ages|, st.m)
    ensures var s := Exec(ic, Init(n), steps);
            var saved := s.replicas[r].saved;
            saved.Some? ==> |saved.value.ages| <= |s.log| &&
                            Justified(ic, s.log, |saved.value.ages|, saved.value.m)
  {
    var s := Exec(ic, Init(n), steps);
    RunKeepsReplays(ic, Init(n), steps);
    NeverRevives(ic, s.log, s.replicas[r].now.ages, |s.replicas[r].now.ages|);
    if s.replicas[r].saved.Some? {
      var ages := s.replicas[r].saved.value.ages;
      NeverRevives(ic, s.log, ages, |ages|);
    }
  }

  // ---------- Agreement ----------

  // Every set is applied within its window.
  ghost predicate TimelyStep(ic: Interceptor, s: System, step: Step)
    requires Enabled(s, step)
  {
    step.ApplyNext? ==>
      var c := NextEntry(s, step.r);
      SetsKey(c, ic(|s.replicas[step.r].now.ages|, c)) && c.time.Some? ==> Timely(c, step.clock)
  }

  ghost predicate TimelyRun(ic: Interceptor, s: System, steps: seq<Step>)
    requires ValidRun(ic, s, steps)
    decreases |steps|
  {
    steps == [] || (TimelyStep(ic, s, steps[0]) && TimelyRun(ic, Next(ic, s, steps[0]), steps[1..]))
  }

  ghost predicate NoSetRefused(ic: Interceptor, log: seq<Command>, ages: Decisions) {
    && |ages| <= |log|
    && forall i :: 0 <= i < |ages| && SetsKey(log[i], ic(i, log[i])) && log[i].time.Some? ==> ages[i]
  }

  ghost predicate AllTimely(ic: Interceptor, s: System) {
    forall r :: 0 <= r < |s.replicas| ==>
      && NoSetRefused(ic, s.log, s.replicas[r].now.ages)
      && (s.replicas[r].saved.Some? ==> NoSetRefused(ic, s.log, s.replicas[r].saved.value.ages))
  }

  lemma {:induction false} TimelyRunKeepsSets(ic: Interceptor, s: System, steps: seq<Step>)
    requires ValidRun(ic, s, steps) && TimelyRun(ic, s, steps) && AllTimely(ic, s)
    ensures AllTimely(ic, Exec(ic, s, steps))
    decreases |steps|
  {
    if steps != [] {
      TimelyRunKeepsSets(ic, Next(ic, s, steps[0]), steps[1..]);
    }
  }

  lemma {:induction false} NoLossIsFold(ic: Interceptor, log: seq<Command>, st: State)
    requires IsReplay(ic, log, st) && NoSetRefused(ic, log, st.ages)
    ensures st.m == Fold(ic, log, |st.ages|)
  {
    AgreesIff(ic, log, st.ages, |st.ages|);
  }

  // Replica agreement: if every set is applied within its window, each table is the plain fold
  // of the applied prefix and each saved snapshot the fold at its index, whatever the order of
  // applying, crashing, restoring and installing; so two replicas at one index agree.
  lemma {:induction false} ReplicasAgree(ic: Interceptor, n: nat, steps: seq<Step>, a: nat, b: nat)
    requires ValidRun(ic, Init(n), steps) && TimelyRun(ic, Init(n), steps)
    requires var s := Exec(ic, Init(n), steps); a < |s.replicas| && b < |s.replicas|
    ensures var s := Exec(ic, Init(n), steps);
            var x, y := s.replicas[a].now, s.replicas[b].now;
            && |x.ages| <= |s.log| && x.m == Fold(ic, s.log, |x.ages|)
            && (|x.ages| == |y.ages| ==> x.m == y.m)
    ensures var s := Exec(ic, Init(n), steps);
            var saved := s.replicas[a].saved;
            saved.Some? ==> |saved.value.ages| <= |s.log| && saved.value.m == Fold(ic, s.log, |saved.value.ages|)
  {
    var s := Exec(ic, Init(n), steps);
    RunKeepsReplays(ic, Init(n), steps);
    TimelyRunKeepsSets(ic, Init(n), steps);
    NoLossIsFold(ic, s.log, s.replicas[a].now);
    NoLossIsFold(ic, s.log, s.replicas[b].now);
    if s.replicas[a].saved.Some? {
      NoLossIsFold(ic, s.log, s.replicas[a].saved.value);
    }
  }

  // Without that condition, a replica holds the fold if and only if each set it refused that
  // is the last word on its key sets what the last accepted write before it had left.
  lemma {:induction false} ReachableAgreesIff(ic: Interceptor, n: nat, steps: seq<Step>, r: nat)
    requires ValidRun(ic, Init(n), steps)
    requires r < |Exec(ic, Init(n), steps).replicas|
    ensures var s := Exec(ic, Init(n), steps);
            var st := s.replicas[r].now;
            && Admissible(s.log, st.ages)
            && (st.m == Fold(ic, s.log, |st.ages|) <==> LostWritesRepeat(ic, s.log, st.ages, |st.ages|))
  {
    var s := Exec(ic, Init(n), steps);
    RunKeepsReplays(ic, Init(n), steps);
    AgreesIff(ic, s.log, s.replicas[r].now.ages, |s.replicas[r].now.ages|);
  }

  lemma {:induction false} LogGrows(ic: Interceptor, s: System, steps: seq<Step>)
    requires ValidRun(ic, s, steps)
    ensures s.log <= Exec(ic, s, steps).log
    decreases |steps|
  {
    if steps != [] {
      LogGrows(ic, Next(ic, s, steps[0]), steps[1..]);
    }
  }

  // Two tables at one index are equal if and only if, for every key, the last writes accepted
  // on the way to them leave the same. Replica a is seen after the first steps and replica b
  // after more of them: with no more steps these are two replicas of one state, and with
  // a == b it is one replica before and after a restart.
  lemma {:induction false} ReachableTablesEqualIff(ic: Interceptor, n: nat, steps: seq<Step>, more: seq<Step>, a: nat, b: nat)
    requires ValidRun(ic, Init(n), steps) && ValidRun(ic, Exec(ic, Init(n), steps), more)
    requires var s := Exec(ic, Init(n), steps);
             var s' := Exec(ic, s, more);
             && a < |s.replicas| && b < |s'.replicas|
             && |s.replicas[a].now.ages| == |s'.replicas[b].now.ages|
    ensures var s := Exec(ic, Init(n), steps);
            var s' := Exec(ic, s, more);
            var x, y := s.replicas[a].now, s'.replicas[b].now;
            && |x.ages| <= |s'.log|
            && (x.m == y.m <==> SameWrites(ic, s'.log, x.ages, y.ages, |x.ages|))
  {
    var s := Exec(ic, Init(n), steps);
    var s' := Exec(ic, s, more);
    RunKeepsReplays(ic, Init(n), steps);
    RunKeepsReplays(ic, s, more);
    LogGrows(ic, s, more);
    var x, y := s.replicas[a].now, s'.replicas[b].now;
    ReplayOfLongerLog(ic, s.log, s'.log, x);
    TablesEqualIff(ic, s'.log, x.ages, y.ages, |x.ages|);
  }

  // ---------- What a crash brings back ----------

  // A replica has always applied what it saved, and possibly more.
  ghost predicate SavedBehind(s: System) {
    forall r :: 0 <= r < |s.replicas| && s.replicas[r].saved.Some? ==>
      s.replicas[r].saved.value.ages <= s.replicas[r].now.ages
  }

  lemma {:induction false} RunKeepsSavedBehind(ic: Interceptor, s: System, steps: seq<Step>)
    requires ValidRun(ic, s, steps) && SavedBehind(s)
    ensures SavedBehind(Exec(ic, s, steps))
    decreases |steps|
  {
    if steps != [] {
      RunKeepsSavedBehind(ic, Next(ic, s, steps[0]), steps[1..]);
    }
  }

  // The replica's last accepted write of k is a delete it applied after its snapshot.
  ghost predicate DeletedSinceSnapshot(ic: Interceptor, log: seq<Command>, now: Decisions, saved: Decisions, k: string)
    requires |now| <= |log|
  {
    var j := LastAccepted(ic, log, now, |now|, k);
    |saved| <= j < |now| && log[j].op == "delete"
  }

  lemma {:induction false} MissingSinceSnapshot(ic: Interceptor, log: seq<Command>, now: State, saved: State, k: string)
    requires IsReplay(ic, log, now) && IsReplay(ic, log, saved) && saved.ages <= now.ages
    ensures k in saved.m && k !in now.m <==>
            k in saved.m && DeletedSinceSnapshot(ic, log, now.ages, saved.ages, k)
  {
    ReplayIsLastAccepted(ic, log, now.ages, |now.ages|, k);
    ReplayIsLastAccepted(ic, log, saved.ages, |saved.ages|, k);
    var i := LastAccepted(ic, log, saved.ages, |saved.ages|, k);
    var j := LastAccepted(ic, log, now.ages, |now.ages|, k);
    if k in saved.m {
      assert Accepts(ic, log, now.ages, i, k);
      if j < |saved.ages| {
        assert Accepts(ic, log, saved.ages, j, k);
      }
    }
  }

  // The keys that a crash shows again, in any reachable state: those of the snapshot whose
  // last accepted write is a delete applied after the snapshot was taken.
  lemma {:induction false} CrashShowsAgain(ic: Interceptor, n: nat, steps: seq<Step>, r: nat, k: string)
    requires ValidRun(ic, Init(n), steps)
    requires var s := Exec(ic, Init(n), steps); r < |s.replicas| && s.replicas[r].saved.Some?
    ensures var s := Exec(ic, Init(n), steps);
            var now, saved := s.replicas[r].now, s.replicas[r].saved.value;
            var after := Next(ic, s, Crash(r, true)).replicas[r].now;
            && |now.ages| <= |s.log|
            && (k in after.m && k !in now.m <==>
                k in saved.m && DeletedSinceSnapshot(ic, s.log, now.ages, saved.ages, k))
  {
    var s := Exec(ic, Init(n), steps);
    RunKeepsReplays(ic, Init(n), steps);
    RunKeepsSavedBehind(ic, Init(n), steps);
    MissingSinceSnapshot(ic, s.log, s.replicas[r].now, s.replicas[r].saved.value, k);
  }

  // A replica that caught up from the empty table while freshness only improved never
  // contradicts a replica that refused no set: it may only miss keys.
  lemma {:induction false} CatchUpNeverContradicts(ic: Interceptor, n: nat, steps: seq<Step>, late: nat, prompt: nat)
    requires ValidRun(ic, Init(n), steps)
    requires var s := Exec(ic, Init(n), steps);
             && late < |s.replicas| && prompt < |s.replicas|
             && |s.replicas[late].now.ages| == |s.replicas[prompt].now.ages| <= |s.log|
             && MonotoneAges(s.log, s.replicas[late].now.ages)
             && NoSetRefused(ic, s.log, s.replicas[prompt].now.ages)
    ensures var s := Exec(ic, Init(n), steps);
            Submap(s.replicas[late].now.m, s.replicas[prompt].now.m)
  {
    var s := Exec(ic, Init(n), steps);
    RunKeepsReplays(ic, Init(n), steps);
    var st := s.replicas[late].now;
    CatchUpIsSubmap(ic, s.log, st.ages, |st.ages|);
    NoLossIsFold(ic, s.log, s.replicas[prompt].now);
  }

  // ---------- What late application can do ----------

  function NeverConsumes(i: nat, c: Command): bool { false }

  lemma {:induction false} RunCons(ic: Interceptor, s: System, step: Step, rest: seq<Step>)
    requires Enabled(s, step)
    ensures ValidRun(ic, s, [step] + rest) <==> ValidRun(ic, Next(ic, s, step), rest)
    ensures ValidRun(ic, s, [step] + rest) ==>
              Exec(ic, s, [step] + rest) == Exec(ic, Next(ic, s, step), rest)
  {
    assert ([step] + rest)[1..] == rest;
  }

  // A second replica that applies a set too late misses the key for good.
  lemma {:induction false} LateReplicaMissesKey(k: string, v: string, t: int)
    requires k != CLUSTER_KEY
    ensures var steps := [Append(Command("set", k, v, Some(t)))] +
                         ([ApplyNext(0, t)] + ([ApplyNext(1, t + WINDOW + 1)] + []));
            ValidRun(NeverConsumes, Init(2), steps) &&
            Exec(NeverConsumes, Init(2), steps).replicas ==
            [Replica(State(map[k := v], [true]), None), Replica(State(map[], [false]), None)]
  {
    var ic, c := NeverConsumes, Command("set", k, v, Some(t));
    var late := ApplyNext(1, t + WINDOW + 1);
    var s1 := Next(ic, Init(2), Append(c));
    var s2 := Next(ic, s1, ApplyNext(0, t));
    RunCons(ic, Init(2), Append(c), [ApplyNext(0, t)] + ([late] + []));
    RunCons(ic, s1, ApplyNext(0, t), [late] + []);
    RunCons(ic, s2, late, []);
    assert Init(2).replicas == [Replica(EMPTY, None), Replica(EMPTY, None)];
    assert EMPTY.ages + [true] == [true] && EMPTY.ages + [false] == [false];
    assert map[][k := v] == map[k := v];
    assert s2.replicas == [Replica(State(map[k := v], [true]), None), Replica(EMPTY, None)];
    assert Next(ic, s2, late).replicas ==
           [Replica(State(map[k := v], [true]), None), Replica(State(map[], [false]), None)];
  }

  // A restart can bring an overwritten value back: the snapshot holds the old value and the
  // overwriting set, applied again after the restart, is too old by then.
  lemma {:induction false} RestartShowsOldValue(k: string, v: string, v': string, t: int)
    requires k != CLUSTER_KEY
    ensures var log := [Command("set", k, v, Some(t)), Command("set", k, v', Some(t))];
            var before := System(log, [Replica(State(map[k := v'], [true, true]), Some(State(map[k := v], [true])))]);
            var restart := [Crash(0, true)] + ([ApplyNext(0, t + WINDOW + 1)] + []);
            && ValidRun(NeverConsumes, Init(1), UntilRestart(log, t))
            && Exec(NeverConsumes, Init(1), UntilRestart(log, t)) == before
            && ValidRun(NeverConsumes, before, restart)
            && Exec(NeverConsumes, before, restart).replicas ==
               [Replica(State(map[k := v], [true, false]), Some(State(map[k := v], [true])))]
  {
    var ic, late := NeverConsumes, ApplyNext(0, t + WINDOW + 1);
    var log := [Command("set", k, v, Some(t)), Command("set", k, v', Some(t))];
    var once, twice := State(map[k := v], [true]), State(map[k := v'], [true, true]);
    assert EMPTY.ages + [true] == [true];
    assert [true] + [true] == [true, true] && [true] + [false] == [true, false];
    assert map[][k := v] == map[k := v] && map[k := v][k := v'] == map[k := v'];
    RunUntilRestart(log, t, once, twice);
    var s4, s5 := System(log, [Replica(once, Some(once))]), System(log, [Replica(twice, Some(once))]);
    RunCons(ic, s5, Crash(0, true), [late] + []);
    RunCons(ic, s4, late, []);
    assert Next(ic, s5, Crash(0, true)) == s4;
    assert Next(ic, s4, late).replicas == [Replica(State(map[k := v], [true, false]), Some(once))];
  }

  lemma {:induction false} RunUntilRestart(log: seq<Command>, t: int, once: State, twice: State)
    requires |log| == 2
    requires once == ApplyAt(NeverConsumes, System([log[0]], [Replica(EMPTY, None)]), 0, t)
    requires twice == ApplyAt(NeverConsumes, System(log, [Replica(once, Some(once))]), 0, t)
    ensures ValidRun(NeverConsumes, Init(1), UntilRestart(log, t))
    ensures Exec(NeverConsumes, Init(1), UntilRestart(log, t)) == System(log, [Replica(twice, Some(once))])
  {
    var ic := NeverConsumes;
    assert Init(1) == System([], [Replica(EMPTY, None)]);
    var s1 := System([log[0]], [Replica(EMPTY, None)]);
    var s2 := System([log[0]], [Replica(once, None)]);
    var s3 := System([log[0]], [Replica(once, Some(once))]);
    var s4 := System(log, [Replica(once, Some(once))]);
    var s5 := System(log, [Replica(twice, Some(once))]);
    assert Next(ic, Init(1), Append(log[0])) == s1;
    assert Next(ic, s1, ApplyNext(0, t)) == s2;
    assert Next(ic, s2, TakeSnapshot(0)) == s3;
    assert Next(ic, s3, Append(log[1])) == s4 by { assert [log[0]] + [log[1]] == log; }
    assert Next(ic, s4, ApplyNext(0, t)) == s5;
    RunCons(ic, s4, ApplyNext(0, t), []);
    RunCons(ic, s3, Append(log[1]), [ApplyNext(0, t)] + []);
    RunCons(ic, s2, TakeSnapshot(0), [Append(log[1])] + ([ApplyNext(0, t)] + []));
    RunCons(ic, s1, ApplyNext(0, t), [TakeSnapshot(0)] + ([Append(log[1])] + ([ApplyNext(0, t)] + [])));
    RunCons(ic, Init(1), Append(log[0]),
            [ApplyNext(0, t)] + ([TakeSnapshot(0)] + ([Append(log[1])] + ([ApplyNext(0, t)] + []))));
  }

  // Apply an entry, take a snapshot, apply the next entry.
  function UntilRestart(log: seq<Command>, t: int): seq<Step>
    requires |log| == 2
  {
    [Append(log[0])] + ([ApplyNext(0, t)] + ([TakeSnapshot(0)] + ([Append(log[1])] + ([ApplyNext(0, t)] + []))))
  }

  // A crash shows a deleted key again until the delete is applied once more.
  lemma {:induction false} CrashShowsDeletedKey(k: string, v: string, t: int)
    requires k != CLUSTER_KEY
    ensures var log := [Command("set", k, v, Some(t)), Command("delete", k, "", Some(t))];
            var held, deleted := State(map[k := v], [true]), State(map[], [true, true]);
            && ValidRun(NeverConsumes, Init(1), UntilRestart(log, t))
            && Exec(NeverConsumes, Init(1), UntilRestart(log, t)) == System(log, [Replica(deleted, Some(held))])
            && Next(NeverConsumes, System(log, [Replica(deleted, Some(held))]), Crash(0, true))
               == System(log, [Replica(held, Some(held))])
  {
    var ic := NeverConsumes;
    var log := [Command("set", k, v, Some(t)), Command("delete", k, "", Some(t))];
    var held, deleted := State(map[k := v], [true]), State(map[], [true, true]);
    assert EMPTY.ages + [true] == [true] && [true] + [true] == [true, true];
    assert map[][k := v] == map[k := v] && map[k := v] - {k} == map[];
    RunUntilRestart(log, t, held, deleted);
  }
}

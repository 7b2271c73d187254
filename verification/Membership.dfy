// Membership changes of RaftStore (store.go): Join and Remove over the library's
// configuration calls, each of which may fail.
module Membership {
  import opened Options

  datatype Suffrage = Voter | Nonvoter | Staging

  datatype Server = Server(id: string, addr: string, suffrage: Suffrage)

  type Config = seq<Server>

  // The ID-to-address relation is injective both ways.
  ghost predicate Injective(cfg: Config) {
    forall i, j :: 0 <= i < j < |cfg| ==> cfg[i].id != cfg[j].id && cfg[i].addr != cfg[j].addr
  }

  predicate Same(srv: Server, id: string, addr: string) {
    srv.id == id && srv.addr == addr
  }

  predicate Conflicts(srv: Server, id: string, addr: string) {
    (srv.id == id || srv.addr == addr) && !Same(srv, id, addr)
  }

  ghost predicate Member(cfg: Config, id: string, addr: string) {
    exists s :: s in cfg && Same(s, id, addr)
  }

  function Filter(cfg: Config, keep: Server -> bool): (r: Config) {
    if cfg == [] then []
    else if keep(cfg[0]) then [cfg[0]] + Filter(cfg[1..], keep)
    else Filter(cfg[1..], keep)
  }

  function OtherId(id: string): Server -> bool {
    (s: Server) => s.id != id
  }

  // Sharing neither the ID nor the address.
  function Apart(id: string, addr: string): Server -> bool {
    (s: Server) => s.id != id && s.addr != addr
  }

  function Without(cfg: Config, id: string): Config {
    Filter(cfg, OtherId(id))
  }

  function Survivors(cfg: Config, id: string, addr: string): Config {
    Filter(cfg, Apart(id, addr))
  }

  // The configuration after Join's walk has dealt with the first k servers.
  function Purged(cfg: Config, id: string, addr: string, k: nat): Config
    requires k <= |cfg|
  {
    Survivors(cfg[..k], id, addr) + cfg[k..]
  }

  // ---------- The library calls ----------

  function WithVoter(cfg: Config, id: string, addr: string): Config {
    if cfg == [] then [Server(id, addr, Voter)]
    else if cfg[0].id == id then [Server(id, addr, Voter)] + cfg[1..]
    else [cfg[0]] + WithVoter(cfg[1..], id, addr)
  }

  // The part of hashicorp/raft that RaftStore relies on: each call fails and changes nothing
  // but the record that a call was refused, or does its one edit.
  class Raft {
    var config: Config
    ghost var refused: bool

    method GetConfiguration() returns (r: Option<Config>)
      modifies this`refused
      ensures r.Some? ==> r.value == config
      ensures refused == (old(refused) || r.None?)
    {
      var ok: bool := *;
      refused := refused || !ok;
      r := if ok then Some(config) else None;
    }

    method RemoveServer(id: string) returns (ok: bool)
      modifies this
      ensures config == if ok then Without(old(config), id) else old(config)
      ensures refused == (old(refused) || !ok)
    {
      ok := *;
      refused := refused || !ok;
      if ok {
        config := Without(config, id);
      }
    }

    method AddVoter(id: string, addr: string) returns (ok: bool)
      modifies this
      ensures config == if ok then WithVoter(old(config), id, addr) else old(config)
      ensures refused == (old(refused) || !ok)
    {
      ok := *;
      refused := refused || !ok;
      if ok {
        config := WithVoter(config, id, addr);
      }
    }
  }

  // ---------- What one call may do ----------

  datatype JoinResult = Joined | AlreadyMember | NotLeader | Failed

  datatype Op = JoinOp(id: string, addr: string, result: JoinResult) | RemoveOp(id: string, ok: bool)

  // A successful Join leaves the servers that share neither ID nor address and adds the new
  // one; a member is left alone; a failed Join has dealt with a prefix of the conflicts.
  ghost predicate OpStep(cfg: Config, op: Op, cfg': Config) {
    match op
    case JoinOp(id, addr, Joined) =>
      !Member(cfg, id, addr) && cfg' == Survivors(cfg, id, addr) + [Server(id, addr, Voter)]
    case JoinOp(id, addr, AlreadyMember) => Member(cfg, id, addr) && cfg' == cfg
    case JoinOp(_, _, NotLeader) => cfg' == cfg
    case JoinOp(id, addr, Failed) =>
      if Member(cfg, id, addr) then cfg' == cfg
      else exists k: nat :: k <= |cfg| && cfg' == Purged(cfg, id, addr, k)
    case RemoveOp(id, ok) => cfg' == if ok then Without(cfg, id) else cfg
  }

  lemma {:induction false} FilterMembers(cfg: Config, keep: Server -> bool, s: Server)
    ensures s in Filter(cfg, keep) <==> s in cfg && keep(s)
  {
    if cfg != [] {
      FilterMembers(cfg[1..], keep, s);
      assert cfg == [cfg[0]] + cfg[1..];
    }
  }

  lemma {:induction false} FilterConcat(a: Config, b: Config, keep: Server -> bool)
    ensures Filter(a + b, keep) == Filter(a, keep) + Filter(b, keep)
  {
    if a == [] {
      assert a + b == b;
    } else {
      FilterConcat(a[1..], b, keep);
      assert (a + b)[1..] == a[1..] + b;
    }
  }

  lemma {:induction false} FilterAll(cfg: Config, keep: Server -> bool)
    requires forall s :: s in cfg ==> keep(s)
    ensures Filter(cfg, keep) == cfg
  {
    if cfg != [] {
      FilterAll(cfg[1..], keep);
    }
  }

  lemma {:induction false} FilterInjective(cfg: Config, keep: Server -> bool)
    requires Injective(cfg)
    ensures Injective(Filter(cfg, keep))
  {
    if cfg != [] {
      FilterInjective(cfg[1..], keep);
      if keep(cfg[0]) {
        forall s | s in Filter(cfg[1..], keep) ensures s.id != cfg[0].id && s.addr != cfg[0].addr {
          FilterMembers(cfg[1..], keep, s);
          var k :| 0 <= k < |cfg[1..]| && cfg[1..][k] == s;
          assert cfg[k + 1] == s;
        }
      }
    }
  }

  lemma {:induction false} WithoutOne(head: Config, srv: Server, tail: Config)
    requires forall s :: s in head || s in tail ==> s.id != srv.id
    ensures Without(head + ([srv] + tail), srv.id) == head + tail
  {
    FilterConcat(head, [srv] + tail, OtherId(srv.id));
    FilterConcat([srv], tail, OtherId(srv.id));
    FilterAll(head, OtherId(srv.id));
    FilterAll(tail, OtherId(srv.id));
    assert Filter([srv], OtherId(srv.id)) == [];
  }

  lemma {:induction false} SurvivorsStep(cfg: Config, id: string, addr: string, k: nat)
    requires k < |cfg|
    ensures Survivors(cfg[..k + 1], id, addr) ==
            Survivors(cfg[..k], id, addr) + if Apart(id, addr)(cfg[k]) then [cfg[k]] else []
  {
    assert cfg[..k + 1] == cfg[..k] + [cfg[k]];
    FilterConcat(cfg[..k], [cfg[k]], Apart(id, addr));
    assert Filter([cfg[k]], Apart(id, addr)) == if Apart(id, addr)(cfg[k]) then [cfg[k]] else [];
  }

  // One round of the walk over a conflicting server: removing its ID takes just this server
  // out of the live configuration.
  lemma {:induction false} PurgeConflict(cfg: Config, id: string, addr: string, k: nat)
    requires Injective(cfg) && k < |cfg| && (cfg[k].id == id || cfg[k].addr == addr)
    ensures Without(Purged(cfg, id, addr, k), cfg[k].id) == Purged(cfg, id, addr, k + 1)
  {
    var head, tail := Survivors(cfg[..k], id, addr), cfg[k + 1..];
    SurvivorsStep(cfg, id, addr, k);
    forall s | s in head || s in tail ensures s.id != cfg[k].id {
      FilterMembers(cfg[..k], Apart(id, addr), s);
    }
    assert cfg[k..] == [cfg[k]] + tail;
    WithoutOne(head, cfg[k], tail);
  }

  lemma {:induction false} PurgeOther(cfg: Config, id: string, addr: string, k: nat)
    requires k < |cfg| && cfg[k].id != id && cfg[k].addr != addr
    ensures Purged(cfg, id, addr, k + 1) == Purged(cfg, id, addr, k)
  {
    SurvivorsStep(cfg, id, addr, k);
    assert cfg[k..] == [cfg[k]] + cfg[k + 1..];
  }

  // When the walk meets the pair itself, it has removed nothing before.
  lemma {:induction false} PurgeBeforeMember(cfg: Config, id: string, addr: string, k: nat)
    requires Injective(cfg) && k < |cfg| && Same(cfg[k], id, addr)
    ensures Purged(cfg, id, addr, k) == cfg
  {
    FilterAll(cfg[..k], Apart(id, addr));
    assert cfg[..k] + cfg[k..] == cfg;
  }

  lemma {:induction false} WithVoterAppends(cfg: Config, id: string, addr: string)
    requires forall s :: s in cfg ==> s.id != id
    ensures WithVoter(cfg, id, addr) == cfg + [Server(id, addr, Voter)]
  {
    if cfg != [] {
      assert cfg[0] in cfg;
      WithVoterAppends(cfg[1..], id, addr);
    }
  }

  // A conflict and the pair itself cannot both be in an injective configuration.
  lemma {:induction false} NoMemberBeside(cfg: Config, id: string, addr: string, k: nat)
    requires Injective(cfg) && k < |cfg| && Conflicts(cfg[k], id, addr)
    ensures !Member(cfg, id, addr)
  {
    forall j | 0 <= j < |cfg| ensures !Same(cfg[j], id, addr) {
    }
  }

  datatype Walk = Finished | AlreadyThere | Stopped

  ghost predicate WalkStep(cfg: Config, id: string, addr: string, walk: Walk, cfg': Config) {
    match walk
    case Finished => !Member(cfg, id, addr) && cfg' == Survivors(cfg, id, addr)
    case AlreadyThere => Member(cfg, id, addr) && cfg' == cfg
    case Stopped =>
      if Member(cfg, id, addr) then cfg' == cfg
      else exists k: nat :: k <= |cfg| && cfg' == Purged(cfg, id, addr, k)
  }

  // The walk has passed the first k servers and not met the pair.
  ghost predicate InWalk(cfg: Config, id: string, addr: string, k: nat, live: Config)
    requires k <= |cfg|
  {
    && (forall j :: 0 <= j < k ==> !Same(cfg[j], id, addr))
    && live == Purged(cfg, id, addr, k)
  }

  lemma {:induction false} WalkStarts(cfg: Config, id: string, addr: string)
    ensures InWalk(cfg, id, addr, 0, cfg)
    ensures WalkStep(cfg, id, addr, Stopped, cfg)
  {
    assert Purged(cfg, id, addr, 0) == cfg;
  }

  lemma {:induction false} WalkMeets(cfg: Config, id: string, addr: string, k: nat, live: Config)
    requires Injective(cfg) && k < |cfg| && InWalk(cfg, id, addr, k, live) && Same(cfg[k], id, addr)
    ensures WalkStep(cfg, id, addr, AlreadyThere, live)
  {
    PurgeBeforeMember(cfg, id, addr, k);
    assert cfg[k] in cfg;
  }

  lemma {:induction false} WalkRemoves(cfg: Config, id: string, addr: string, k: nat, live: Config)
    requires Injective(cfg) && k < |cfg| && InWalk(cfg, id, addr, k, live) && Conflicts(cfg[k], id, addr)
    ensures InWalk(cfg, id, addr, k + 1, Without(live, cfg[k].id))
    ensures WalkStep(cfg, id, addr, Stopped, live)
  {
    PurgeConflict(cfg, id, addr, k);
    NoMemberBeside(cfg, id, addr, k);
  }

  lemma {:induction false} WalkPasses(cfg: Config, id: string, addr: string, k: nat, live: Config)
    requires k < |cfg| && InWalk(cfg, id, addr, k, live)
    requires !Same(cfg[k], id, addr) && !Conflicts(cfg[k], id, addr)
    ensures InWalk(cfg, id, addr, k + 1, live)
  {
    PurgeOther(cfg, id, addr, k);
  }

  lemma {:induction false} WalkEnds(cfg: Config, id: string, addr: string, live: Config)
    requires InWalk(cfg, id, addr, |cfg|, live)
    ensures WalkStep(cfg, id, addr, Finished, live)
  {
    WalkDone(cfg, id, addr);
  }

  lemma {:induction false} WalkDone(cfg: Config, id: string, addr: string)
    ensures Purged(cfg, id, addr, |cfg|) == Survivors(cfg, id, addr)
    ensures forall s :: s in Survivors(cfg, id, addr) ==> s.id != id
  {
    assert cfg[..|cfg|] == cfg;
    forall s | s in Survivors(cfg, id, addr) ensures s.id != id {
      FilterMembers(cfg, Apart(id, addr), s);
    }
  }

  // The membership part of the Go type RaftStore.
  class MemberStore {
    const raft: Raft

    constructor (raft: Raft)
      ensures this.raft == raft
    {
      this.raft := raft;
    }

    method Remove(nodeID: string, isLeader: bool) returns (ok: bool)
      modifies raft
      ensures OpStep(old(raft.config), RemoveOp(nodeID, ok), raft.config)
      ensures !isLeader ==> !ok && raft.refused == old(raft.refused)
      ensures isLeader && !old(raft.refused) ==> (ok <==> !raft.refused)
    {
      if !isLeader {
        return false;
      }
      ok := raft.RemoveServer(nodeID);
    }

    // The function Join hands to the walk, for server k of the copied configuration; the
    // calls change the live one. The result says why the walk stops, Finished to go on.
    method Visit(srv: Server, nodeID: string, addr: string, ghost cfg: Config, ghost k: nat) returns (walk: Walk)
      requires k < |cfg| && srv == cfg[k]
      requires Injective(cfg) ==> InWalk(cfg, nodeID, addr, k, raft.config)
      modifies raft
      ensures Injective(cfg) ==>
                if walk.Finished? then InWalk(cfg, nodeID, addr, k + 1, raft.config)
                else WalkStep(cfg, nodeID, addr, walk, raft.config)
      ensures raft.refused == (old(raft.refused) || walk.Stopped?)
    {
      var idEquals, addrEquals := srv.id == nodeID, srv.addr == addr;
      if addrEquals && idEquals {
        if Injective(cfg) {
          WalkMeets(cfg, nodeID, addr, k, raft.config);
        }
        return AlreadyThere;
      }
      if idEquals || addrEquals {
        if Injective(cfg) {
          WalkRemoves(cfg, nodeID, addr, k, raft.config);
        }
        var ok := raft.RemoveServer(srv.id);
        return if ok then Finished else Stopped;
      }
      if Injective(cfg) {
        WalkPasses(cfg, nodeID, addr, k, raft.config);
      }
      return Finished;
    }

    method WalkServers(servers: Config, nodeID: string, addr: string) returns (walk: Walk)
      requires servers == raft.config
      modifies raft
      ensures Injective(servers) ==> WalkStep(servers, nodeID, addr, walk, raft.config)
      ensures raft.refused == (old(raft.refused) || walk.Stopped?)
    {
      WalkStarts(servers, nodeID, addr);
      for k := 0 to |servers|
        invariant Injective(servers) ==> InWalk(servers, nodeID, addr, k, raft.config)
        invariant raft.refused == old(raft.refused)
      {
        walk := Visit(servers[k], nodeID, addr, servers, k);
        if !walk.Finished? {
          return walk;
        }
      }
      if Injective(servers) {
        WalkEnds(servers, nodeID, addr, raft.config);
      }
      return Finished;
    }

    method WalkRaftServers(nodeID: string, addr: string) returns (walk: Walk)
      modifies raft
      ensures Injective(old(raft.config)) ==> WalkStep(old(raft.config), nodeID, addr, walk, raft.config)
      ensures raft.refused == (old(raft.refused) || walk.Stopped?)
    {
      WalkStarts(raft.config, nodeID, addr);
      var servers := raft.GetConfiguration();
      if servers.None? {
        return Stopped;
      }
      walk := WalkServers(servers.value, nodeID, addr);
    }

    // Join fails exactly when the library refuses a call it makes.
    method Join(nodeID: string, addr: string, isLeader: bool) returns (result: JoinResult)
      modifies raft
      ensures Injective(old(raft.config)) ==> OpStep(old(raft.config), JoinOp(nodeID, addr, result), raft.config)
      ensures result == NotLeader <==> !isLeader
      ensures raft.refused == (old(raft.refused) || result == Failed)
      ensures isLeader && !raft.refused && Injective(old(raft.config)) ==>
                result == if old(Member(raft.config, nodeID, addr)) then AlreadyMember else Joined
    {
      if !isLeader {
        return NotLeader;
      }
      ghost var cfg := raft.config;
      var walk := WalkRaftServers(nodeID, addr);
      if walk.Stopped? {
        return Failed;
      }
      if walk.AlreadyThere? {
        return AlreadyMember;
      }
      if Injective(cfg) {
        WalkDone(cfg, nodeID, addr);
        WithVoterAppends(raft.config, nodeID, addr);
      }
      var ok := raft.AddVoter(nodeID, addr);
      if !ok {
        return Failed;
      }
      return Joined;
    }
  }

  // Server by server: a successful Join leaves every server that shares neither ID nor
  // address as it was and adds the new one as a voter; a successful Remove drops the server
  // with the ID and no other; any other call that leaves the configuration adds nothing.
  lemma {:induction false} ServerAfter(cfg: Config, op: Op, cfg': Config, s: Server)
    requires OpStep(cfg, op, cfg')
    ensures op.JoinOp? && op.result == Joined ==>
              (s in cfg' <==> s == Server(op.id, op.addr, Voter) ||
                              (s in cfg && s.id != op.id && s.addr != op.addr))
    ensures op.JoinOp? && op.result == Failed ==>
              (s in cfg' ==> s in cfg) && (s in cfg && s.id != op.id && s.addr != op.addr ==> s in cfg')
    ensures op.JoinOp? && (op.result == AlreadyMember || op.result == NotLeader) ==> (s in cfg' <==> s in cfg)
    ensures op.RemoveOp? ==> (s in cfg' <==> s in cfg && (op.ok ==> s.id != op.id))
  {
    match op
    case JoinOp(id, addr, Joined) => FilterMembers(cfg, Apart(id, addr), s);
    case JoinOp(id, addr, Failed) =>
      if !Member(cfg, id, addr) {
        var k: nat :| k <= |cfg| && cfg' == Purged(cfg, id, addr, k);
        FilterMembers(cfg[..k], Apart(id, addr), s);
        assert cfg == cfg[..k] + cfg[k..];
      }
    case RemoveOp(id, ok) => FilterMembers(cfg, OtherId(id), s);
    case _ =>
  }

  // ---------- The abstract relation ----------

  ghost function Pairs(cfg: Config): set<(string, string)> {
    set s | s in cfg :: (s.id, s.addr)
  }

  // A successful Join is one update of the relation: drop what shares the ID or the address,
  // then add the pair.
  lemma {:induction false} JoinRefinesUpdate(cfg: Config, id: string, addr: string, result: JoinResult, cfg': Config)
    requires Injective(cfg) && OpStep(cfg, JoinOp(id, addr, result), cfg')
    requires result == Joined || result == AlreadyMember
    ensures Pairs(cfg') == (set p | p in Pairs(cfg) && p.0 != id && p.1 != addr) + {(id, addr)}
  {
    var kept := set p | p in Pairs(cfg) && p.0 != id && p.1 != addr;
    forall p ensures p in Pairs(cfg') <==> p in kept + {(id, addr)} {
      if result == Joined {
        PairOfJoined(cfg, id, addr, p);
      } else {
        PairOfMember(cfg, id, addr, p);
      }
    }
  }

  lemma {:induction false} PairOfJoined(cfg: Config, id: string, addr: string, p: (string, string))
    ensures p in Pairs(Survivors(cfg, id, addr) + [Server(id, addr, Voter)]) <==>
            p == (id, addr) || (p in Pairs(cfg) && p.0 != id && p.1 != addr)
  {
    var keep := Apart(id, addr);
    var cfg' := Survivors(cfg, id, addr) + [Server(id, addr, Voter)];
    assert cfg'[|cfg'| - 1] == Server(id, addr, Voter);
    if s :| s in cfg' && (s.id, s.addr) == p {
      FilterMembers(cfg, keep, s);
    }
    if s :| s in cfg && (s.id, s.addr) == p {
      FilterMembers(cfg, keep, s);
      assert keep(s) ==> s in cfg';
    }
  }

  lemma {:induction false} PairOfMember(cfg: Config, id: string, addr: string, p: (string, string))
    requires Injective(cfg) && Member(cfg, id, addr)
    ensures p in Pairs(cfg) <==> p == (id, addr) || (p in Pairs(cfg) && p.0 != id && p.1 != addr)
  {
    var m :| m in cfg && Same(m, id, addr);
    if s :| s in cfg && (s.id, s.addr) == p {
      var i :| 0 <= i < |cfg| && cfg[i] == m;
      var j :| 0 <= j < |cfg| && cfg[j] == s;
    }
  }

  // ---------- Runs ----------

  // cfgs[i + 1] is what call i made of cfgs[i].
  ghost predicate Run(cfgs: seq<Config>, ops: seq<Op>) {
    && |cfgs| == |ops| + 1
    && forall i :: 0 <= i < |ops| ==> OpStep(cfgs[i], ops[i], cfgs[i + 1])
  }

  lemma {:induction false} StepKeepsInjective(cfg: Config, op: Op, cfg': Config)
    requires Injective(cfg) && OpStep(cfg, op, cfg')
    ensures Injective(cfg')
  {
    match op
    case JoinOp(id, addr, Joined) =>
      FilterInjective(cfg, Apart(id, addr));
      forall s | s in Survivors(cfg, id, addr) ensures s.id != id && s.addr != addr {
        FilterMembers(cfg, Apart(id, addr), s);
      }
    case JoinOp(id, addr, Failed) =>
      if !Member(cfg, id, addr) {
        var k: nat :| k <= |cfg| && cfg' == Purged(cfg, id, addr, k);
        PurgedInjective(cfg, id, addr, k);
      }
    case RemoveOp(id, ok) => FilterInjective(cfg, OtherId(id));
    case _ =>
  }

  lemma {:induction false} PurgedInjective(cfg: Config, id: string, addr: string, k: nat)
    requires Injective(cfg) && k <= |cfg|
    ensures Injective(Purged(cfg, id, addr, k))
  {
    var keep := Apart(id, addr);
    var head := Filter(cfg[..k], keep);
    FilterInjective(cfg[..k], keep);
    forall s, t | s in head && t in cfg[k..] ensures s.id != t.id && s.addr != t.addr {
      FilterMembers(cfg[..k], keep, s);
      var i :| 0 <= i < k && cfg[i] == s;
      var j :| 0 <= j < |cfg[k..]| && cfg[k..][j] == t;
      assert cfg[k + j] == t;
    }
  }

  // IDs and addresses stay pairwise distinct over any sequence of calls, however they fail.
  lemma {:induction false} RunKeepsInjective(cfgs: seq<Config>, ops: seq<Op>, n: nat)
    requires Run(cfgs, ops) && n <= |ops| && Injective(cfgs[0])
    ensures Injective(cfgs[n])
  {
    if n > 0 {
      RunKeepsInjective(cfgs, ops, n - 1);
      StepKeepsInjective(cfgs[n - 1], ops[n - 1], cfgs[n]);
    }
  }

  // The call asks for a membership the pair cannot share.
  predicate OpConflicts(op: Op, p: (string, string)) {
    match op
    case JoinOp(id, addr, _) => (id == p.0 || addr == p.1) && (id, addr) != p
    case RemoveOp(id, _) => id == p.0
  }

  predicate Succeeds(op: Op) {
    match op
    case JoinOp(_, _, result) => result == Joined || result == AlreadyMember
    case RemoveOp(_, ok) => ok
  }

  lemma {:induction false} PurgedKeeps(cfg: Config, id: string, addr: string, k: nat, s: Server)
    requires k <= |cfg| && s in cfg && Apart(id, addr)(s)
    ensures s in Purged(cfg, id, addr, k)
  {
    FilterMembers(cfg[..k], Apart(id, addr), s);
    assert cfg == cfg[..k] + cfg[k..];
  }

  lemma {:induction false} StepKeepsPair(cfg: Config, op: Op, cfg': Config, p: (string, string))
    requires OpStep(cfg, op, cfg') && p in Pairs(cfg) && !OpConflicts(op, p)
    ensures p in Pairs(cfg')
  {
    var s :| s in cfg && (s.id, s.addr) == p;
    match op
    case JoinOp(id, addr, Joined) =>
      assert (id, addr) != p;
      PairOfJoined(cfg, id, addr, p);
    case JoinOp(id, addr, Failed) =>
      if !Member(cfg, id, addr) {
        var k: nat :| k <= |cfg| && cfg' == Purged(cfg, id, addr, k);
        PurgedKeeps(cfg, id, addr, k, s);
      }
    case RemoveOp(id, ok) =>
      FilterMembers(cfg, OtherId(id), s);
      assert s in cfg';
    case _ =>
  }

  // A server in no conflict with the calls survives them.
  lemma {:induction false} BystanderSurvives(cfgs: seq<Config>, ops: seq<Op>, k: nat, n: nat, p: (string, string))
    requires Run(cfgs, ops) && k <= n <= |ops|
    requires p in Pairs(cfgs[k]) && forall i :: k <= i < n ==> !OpConflicts(ops[i], p)
    ensures p in Pairs(cfgs[n])
  {
    if k < n {
      BystanderSurvives(cfgs, ops, k, n - 1, p);
      StepKeepsPair(cfgs[n - 1], ops[n - 1], cfgs[n], p);
    }
  }

  lemma {:induction false} NewPairWasJoined(cfg: Config, op: Op, cfg': Config, p: (string, string))
    requires OpStep(cfg, op, cfg') && p in Pairs(cfg') && p !in Pairs(cfg)
    ensures op == JoinOp(p.0, p.1, Joined)
  {
    var s :| s in cfg' && (s.id, s.addr) == p;
    match op
    case JoinOp(id, addr, Joined) => PairOfJoined(cfg, id, addr, p);
    case JoinOp(id, addr, Failed) =>
      if !Member(cfg, id, addr) {
        var k: nat :| k <= |cfg| && cfg' == Purged(cfg, id, addr, k);
        FilterMembers(cfg[..k], Apart(id, addr), s);
      }
    case RemoveOp(id, ok) =>
      FilterMembers(cfg, OtherId(id), s);
    case _ =>
  }

  lemma {:induction false} ConflictRemoves(cfg: Config, op: Op, cfg': Config, p: (string, string))
    requires Injective(cfg) && OpStep(cfg, op, cfg') && Succeeds(op) && OpConflicts(op, p)
    ensures p !in Pairs(cfg')
  {
    match op
    case JoinOp(id, addr, Joined) => PairOfJoined(cfg, id, addr, p);
    case JoinOp(id, addr, AlreadyMember) => PairOfMember(cfg, id, addr, p);
    case RemoveOp(id, _) =>
      forall s | s in cfg' ensures s.id != id {
        FilterMembers(cfg, OtherId(id), s);
      }
  }

  // The pair came from the start (k == 0) or from call k - 1, and no call since both
  // conflicted with it and succeeded.
  ghost predicate CameFrom(cfgs: seq<Config>, ops: seq<Op>, n: nat, p: (string, string), k: nat)
    requires Run(cfgs, ops) && k <= n <= |ops|
  {
    && (if k == 0 then p in Pairs(cfgs[0]) else ops[k - 1] == JoinOp(p.0, p.1, Joined))
    && forall i :: k <= i < n ==> !(OpConflicts(ops[i], p) && Succeeds(ops[i]))
  }

  // Every member was there at the start or joined, with no later successful conflict.
  lemma {:induction false} MemberHasOrigin(cfgs: seq<Config>, ops: seq<Op>, n: nat, p: (string, string)) returns (k: nat)
    requires Run(cfgs, ops) && n <= |ops| && Injective(cfgs[0])
    requires p in Pairs(cfgs[n])
    ensures k <= n && CameFrom(cfgs, ops, n, p, k)
  {
    if n == 0 {
      k := 0;
    } else if p in Pairs(cfgs[n - 1]) {
      k := MemberHasOrigin(cfgs, ops, n - 1, p);
      RunKeepsInjective(cfgs, ops, n - 1);
      if OpConflicts(ops[n - 1], p) && Succeeds(ops[n - 1]) {
        ConflictRemoves(cfgs[n - 1], ops[n - 1], cfgs[n], p);
      }
    } else {
      NewPairWasJoined(cfgs[n - 1], ops[n - 1], cfgs[n], p);
      k := n;
    }
  }

  // When no call that conflicts with the pair fails, the calls alone decide membership.
  lemma {:induction false} MembershipDecided(cfgs: seq<Config>, ops: seq<Op>, n: nat, p: (string, string))
    requires Run(cfgs, ops) && n <= |ops| && Injective(cfgs[0])
    requires forall i :: 0 <= i < n && OpConflicts(ops[i], p) ==> Succeeds(ops[i])
    ensures p in Pairs(cfgs[n]) <==> exists k :: 0 <= k <= n && CameFrom(cfgs, ops, n, p, k)
  {
    if p in Pairs(cfgs[n]) {
      var k := MemberHasOrigin(cfgs, ops, n, p);
    }
    if k :| 0 <= k <= n && CameFrom(cfgs, ops, n, p, k) {
      if k > 0 {
        assert OpStep(cfgs[k - 1], ops[k - 1], cfgs[k]);
        PairOfJoined(cfgs[k - 1], p.0, p.1, p);
      }
      BystanderSurvives(cfgs, ops, k, n, p);
    }
  }
}

// Servers admitted through join requests (service_raft.go) over whole membership runs.
module Admission {
  import opened Options
  import opened Membership
  import opened Addresses

  ghost predicate AllConsistent(cfg: Config) {
    forall s :: s in cfg ==> Consistent(s.id, s.addr)
  }

  // The call is what handleJoin makes of a request whose two Raft ports agree.
  ghost predicate FromRequest(op: Op) {
    op.JoinOp? ==>
      exists r: Addresses.Request, remote: string ::
        && ',' in r.nodeID && ',' !in remote
        && PortOf(r.addr) == PortOf(RaftAddr(r.nodeID).value)
        && FixRequest(r, remote) == Some(Request(op.addr, op.id))
  }

  // A cluster that admits only such requests can only have inconsistent servers it started
  // with.
  lemma {:induction false} OnlyFoundersInconsistent(cfgs: seq<Config>, ops: seq<Op>, n: nat, s: Server)
    requires Run(cfgs, ops) && n <= |ops|
    requires Injective(cfgs[0])
    requires forall op :: op in ops ==> FromRequest(op)
    requires s in cfgs[n]
    ensures Consistent(s.id, s.addr) || (s.id, s.addr) in Pairs(cfgs[0])
  {
    var p := (s.id, s.addr);
    assert p in Pairs(cfgs[n]);
    var k := MemberHasOrigin(cfgs, ops, n, p);
    if k > 0 {
      var op := ops[k - 1];
      assert FromRequest(op);
      var r: Addresses.Request, remote: string :|
        && ',' in r.nodeID && ',' !in remote
        && PortOf(r.addr) == PortOf(RaftAddr(r.nodeID).value)
        && FixRequest(r, remote) == Some(Request(op.addr, op.id));
      FixedRequestConsistentIff(r, remote);
    }
  }

  // If it starts with consistent servers, every server in every later configuration is
  // consistent.
  lemma {:induction false} AdmittedServersConsistent(cfgs: seq<Config>, ops: seq<Op>, n: nat)
    requires Run(cfgs, ops) && n <= |ops|
    requires Injective(cfgs[0]) && AllConsistent(cfgs[0])
    requires forall op :: op in ops ==> FromRequest(op)
    ensures AllConsistent(cfgs[n])
  {
    forall s | s in cfgs[n] ensures Consistent(s.id, s.addr) {
      OnlyFoundersInconsistent(cfgs, ops, n, s);
      if (s.id, s.addr) in Pairs(cfgs[0]) {
        assert exists t :: t in cfgs[0] && (t.id, t.addr) == (s.id, s.addr);
      }
    }
  }

  // The configuration Open bootstraps: the node itself, by the ID it derived, at its own Raft
  // address.
  function Founder(http: string, raft: string, hostIP: string): Server
    requires FixID(MakeID(http, raft), hostIP).Some?
  {
    Server(FixID(MakeID(http, raft), hostIP).value, raft, Voter)
  }

  // Starting from that single server, a configuration is consistent if and only if the
  // founder's Raft address is at its host IP or the founder is no longer a member.
  lemma {:induction false} ClusterConsistentIff(http: string, raft: string, hostIP: string,
                                                cfgs: seq<Config>, ops: seq<Op>, n: nat)
    requires ',' !in http && ',' !in raft && ',' !in hostIP && Plain(hostIP)
    requires SplitHostPort(raft).Some? && FixID(MakeID(http, raft), hostIP).Some?
    requires Run(cfgs, ops) && n <= |ops| && cfgs[0] == [Founder(http, raft, hostIP)]
    requires forall op :: op in ops ==> FromRequest(op)
    ensures var founder := Founder(http, raft, hostIP);
            AllConsistent(cfgs[n]) <==>
            HostOf(raft) == hostIP || !Member(cfgs[n], founder.id, founder.addr)
  {
    var founder := Founder(http, raft, hostIP);
    OwnIDConsistentIff(http, raft, hostIP);
    forall s | s in cfgs[n] ensures Consistent(s.id, s.addr) || Same(s, founder.id, founder.addr) {
      OnlyFoundersInconsistent(cfgs, ops, n, s);
    }
  }
}

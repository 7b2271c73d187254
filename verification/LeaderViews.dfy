// The two views of the leader that RaftStore derives from a configuration (store.go):
// LeadServer stops at the first match, Cluster walks on and keeps the last one.
module LeaderViews {
  import opened Options
  import opened Peers
  import opened Membership

  // current and leader keep the zero value when no server matches.
  datatype RaftCluster = RaftCluster(current: Peer, leader: Peer, servers: seq<Peer>)

  // What Cluster reads besides the configuration: the leader address, the local node and its
  // state, and the state other nodes report ("" for no answer).
  datatype Surroundings = Surroundings(leader: string, self: NodeID, selfState: string, stateOf: NodeID -> string)

  function SuffrageName(s: Suffrage): string {
    match s
    case Voter => "Voter"
    case Nonvoter => "Nonvoter"
    case Staging => "Staging"
  }

  function PeerOf(srv: Server, state: string): Peer {
    Peer(srv.addr, srv.id, state, SuffrageName(srv.suffrage))
  }

  function StateOf(srv: Server, env: Surroundings): (state: string)
    ensures state != ""
  {
    var first := if env.self == srv.id then env.selfState
                 else if env.leader == srv.addr then STATE_LEADER else "";
    var second := if first == "" then env.stateOf(srv.id) else first;
    if second == "" then "Lost" else second
  }

  function FirstAt(cfg: Config, addr: string): Option<Server> {
    if cfg == [] then None
    else if cfg[0].addr == addr then Some(cfg[0])
    else FirstAt(cfg[1..], addr)
  }

  function LastWith(cfg: Config, hit: Server -> bool): Option<Server> {
    if cfg == [] then None
    else if hit(cfg[|cfg| - 1]) then Some(cfg[|cfg| - 1])
    else LastWith(cfg[..|cfg| - 1], hit)
  }

  function AtAddress(addr: string): Server -> bool {
    (s: Server) => s.addr == addr
  }

  function WithId(id: string): Server -> bool {
    (s: Server) => s.id == id
  }

  function PeerOrNone(srv: Option<Server>, state: string): Peer {
    if srv.None? then NO_PEER else PeerOf(srv.value, state)
  }

  // servers is None when the library cannot give the configuration.
  method LeadServer(leader: string, servers: Option<Config>) returns (peer: Option<Peer>)
    ensures peer == if leader == "" || servers.None? then None
                    else match FirstAt(servers.value, leader)
                         case None => None
                         case Some(srv) => if srv.id == "" then None
                                           else Some(Peer(srv.addr, srv.id, STATE_LEADER, ""))
  {
    if leader == "" || servers.None? {
      return None;
    }
    var found := NO_PEER;
    var cfg := servers.value;
    assert cfg[0..] == cfg;
    for i := 0 to |cfg|
      invariant found == NO_PEER
      invariant FirstAt(cfg, leader) == FirstAt(cfg[i..], leader)
    {
      if leader == cfg[i].addr {
        found := Peer(cfg[i].addr, cfg[i].id, STATE_LEADER, "");
        break;
      }
    }
    if found.id == "" {
      return None;
    }
    return Some(found);
  }

  // The function Cluster hands to the walk.
  method Visit(env: Surroundings, srv: Server, before: RaftCluster) returns (c: RaftCluster)
    ensures c.servers == before.servers + [PeerOf(srv, StateOf(srv, env))]
    ensures c.leader == if srv.addr == env.leader then PeerOf(srv, STATE_LEADER) else before.leader
    ensures c.current == if srv.id == env.self then PeerOf(srv, env.selfState) else before.current
  {
    c := before;
    var peer := PeerOf(srv, "");
    if env.leader == srv.addr {
      peer := peer.(state := STATE_LEADER);
      c := c.(leader := peer);
    }
    if env.self == peer.id {
      peer := peer.(state := env.selfState);
      c := c.(current := peer);
    }
    if peer.state == "" {
      peer := peer.(state := env.stateOf(peer.id));
    }
    if peer.state == "" {
      peer := peer.(state := "Lost");
    }
    c := c.(servers := c.servers + [peer]);
  }

  // The whole walk over a configuration.
  ghost predicate IsView(c: RaftCluster, env: Surroundings, cfg: Config) {
    && |c.servers| == |cfg|
    && (forall i :: 0 <= i < |cfg| ==> c.servers[i] == PeerOf(cfg[i], StateOf(cfg[i], env)))
    && c.leader == PeerOrNone(LastWith(cfg, AtAddress(env.leader)), STATE_LEADER)
    && c.current == PeerOrNone(LastWith(cfg, WithId(env.self)), env.selfState)
  }

  method Cluster(env: Surroundings, servers: Option<Config>) returns (cluster: Option<RaftCluster>)
    ensures cluster.Some? <==> servers.Some?
    ensures cluster.Some? ==> IsView(cluster.value, env, servers.value)
  {
    if servers.None? {
      return None;
    }
    var cfg := servers.value;
    var c := RaftCluster(NO_PEER, NO_PEER, []);
    for i := 0 to |cfg|
      invariant |c.servers| == i
      invariant forall j :: 0 <= j < i ==> c.servers[j] == PeerOf(cfg[j], StateOf(cfg[j], env))
      invariant c.leader == PeerOrNone(LastWith(cfg[..i], AtAddress(env.leader)), STATE_LEADER)
      invariant c.current == PeerOrNone(LastWith(cfg[..i], WithId(env.self)), env.selfState)
    {
      LastWithStep(cfg, i, AtAddress(env.leader));
      LastWithStep(cfg, i, WithId(env.self));
      c := Visit(env, cfg[i], c);
    }
    assert cfg[..|cfg|] == cfg;
    return Some(c);
  }

  lemma {:induction false} LastWithStep(cfg: Config, i: nat, hit: Server -> bool)
    requires i < |cfg|
    ensures LastWith(cfg[..i + 1], hit) == if hit(cfg[i]) then Some(cfg[i]) else LastWith(cfg[..i], hit)
  {
    assert cfg[..i + 1][..i] == cfg[..i];
  }

  lemma {:induction false} FirstAtFinds(cfg: Config, addr: string)
    ensures FirstAt(cfg, addr).Some? <==> exists s :: s in cfg && s.addr == addr
    ensures FirstAt(cfg, addr).Some? ==> FirstAt(cfg, addr).value in cfg && FirstAt(cfg, addr).value.addr == addr
  {
    if cfg != [] {
      FirstAtFinds(cfg[1..], addr);
      assert cfg == [cfg[0]] + cfg[1..];
    }
  }

  // FirstAt is the match that no other precedes,
  lemma {:induction false} FirstAtIsFirst(cfg: Config, addr: string, i: nat)
    requires i < |cfg| && cfg[i].addr == addr && forall j :: 0 <= j < i ==> cfg[j].addr != addr
    ensures FirstAt(cfg, addr) == Some(cfg[i])
  {
    if i > 0 {
      assert cfg[0].addr != addr;
      FirstAtIsFirst(cfg[1..], addr, i - 1);
    }
  }

  // LastWith the one that no other follows.
  lemma {:induction false} LastWithIsLast(cfg: Config, hit: Server -> bool, i: nat)
    requires i < |cfg| && hit(cfg[i]) && forall j :: i < j < |cfg| ==> !hit(cfg[j])
    ensures LastWith(cfg, hit) == Some(cfg[i])
    decreases |cfg|
  {
    if i < |cfg| - 1 {
      LastWithIsLast(cfg[..|cfg| - 1], hit, i);
    }
  }

  lemma {:induction false} LastWithFinds(cfg: Config, hit: Server -> bool)
    ensures LastWith(cfg, hit).Some? <==> exists s :: s in cfg && hit(s)
    ensures LastWith(cfg, hit).Some? ==> LastWith(cfg, hit).value in cfg && hit(LastWith(cfg, hit).value)
  {
    if cfg != [] {
      LastWithFinds(cfg[..|cfg| - 1], hit);
      assert cfg == cfg[..|cfg| - 1] + [cfg[|cfg| - 1]];
    }
  }

  // With distinct addresses and non-empty addresses and IDs, LeadServer succeeds exactly when
  // Cluster sets its leader, and both name the same server.
  lemma {:induction false} ViewsAgree(cfg: Config, leader: string)
    requires Injective(cfg) && forall s :: s in cfg ==> s.id != "" && s.addr != ""
    ensures var first, last := FirstAt(cfg, leader), LastWith(cfg, AtAddress(leader));
            && first == last
            && ((leader != "" && first.Some? && first.value.id != "") <==>
                PeerOrNone(last, STATE_LEADER).id != "")
  {
    FirstAtFinds(cfg, leader);
    LastWithFinds(cfg, AtAddress(leader));
    var first, last := FirstAt(cfg, leader), LastWith(cfg, AtAddress(leader));
    if first.Some? {
      assert AtAddress(leader)(first.value);
      var i :| 0 <= i < |cfg| && cfg[i] == first.value;
      var j :| 0 <= j < |cfg| && cfg[j] == last.value;
    }
  }

  // The peer shows the server's address, ID and suffrage.
  predicate Shows(peer: Peer, srv: Server) {
    && peer.id == srv.id && peer.address == srv.addr
    && (peer.suffrage == "Voter" <==> srv.suffrage == Voter)
    && (peer.suffrage == "Nonvoter" <==> srv.suffrage == Nonvoter)
    && (peer.suffrage == "Staging" <==> srv.suffrage == Staging)
  }

  // The server is listed in the state the local node knows for itself, as leader when it is a
  // remote one at the leader address, and else in the state it reports or as lost.
  predicate Lists(peer: Peer, srv: Server, env: Surroundings) {
    && Shows(peer, srv)
    && peer.state ==
         if srv.id == env.self && env.selfState != "" then env.selfState
         else if srv.id != env.self && srv.addr == env.leader then "Leader"
         else if env.stateOf(srv.id) != "" then env.stateOf(srv.id)
         else "Lost"
  }

  lemma {:induction false} ViewLists(c: RaftCluster, env: Surroundings, cfg: Config, i: nat)
    requires IsView(c, env, cfg) && i < |cfg|
    ensures Lists(c.servers[i], cfg[i], env)
  {
  }

  // The current peer is the local node, when it is in the configuration.
  lemma {:induction false} ViewCurrent(c: RaftCluster, env: Surroundings, cfg: Config, i: nat)
    requires IsView(c, env, cfg) && Injective(cfg)
    requires i < |cfg| && cfg[i].id == env.self
    ensures Shows(c.current, cfg[i]) && c.current.state == env.selfState
  {
    LastWithIsLast(cfg, WithId(env.self), i);
  }

  // The leader is the server at the leader address, when there is one.
  lemma {:induction false} ViewLeader(c: RaftCluster, env: Surroundings, cfg: Config, i: nat)
    requires IsView(c, env, cfg) && Injective(cfg)
    requires i < |cfg| && cfg[i].addr == env.leader
    ensures Shows(c.leader, cfg[i]) && c.leader.state == "Leader"
  {
    LastWithIsLast(cfg, AtAddress(env.leader), i);
  }

  lemma {:induction false} ViewWithout(c: RaftCluster, env: Surroundings, cfg: Config)
    requires IsView(c, env, cfg)
    ensures (forall s :: s in cfg ==> s.addr != env.leader) ==> c.leader == Peer("", "", "", "")
    ensures (forall s :: s in cfg ==> s.id != env.self) ==> c.current == Peer("", "", "", "")
  {
    LastWithFinds(cfg, AtAddress(env.leader));
    LastWithFinds(cfg, WithId(env.self));
  }

  // Both views of one configuration and one leader address, as callers see them: they agree
  // on the leader, and every server is listed in order.
  method BothViews(env: Surroundings, cfg: Config) returns (lead: Option<Peer>, cluster: RaftCluster)
    requires Injective(cfg) && forall s :: s in cfg ==> s.id != "" && s.addr != ""
    ensures lead.Some? <==> cluster.leader.id != ""
    ensures lead.Some? ==> lead.value.id == cluster.leader.id && lead.value.address == cluster.leader.address
    ensures lead.Some? ==> lead.value.state == cluster.leader.state == "Leader"
    ensures lead.Some? ==> lead.value.suffrage == ""
    ensures forall i :: 0 <= i < |cfg| && cfg[i].addr == env.leader ==> Shows(cluster.leader, cfg[i])
    ensures (forall s :: s in cfg ==> s.addr != env.leader) ==> cluster.leader == Peer("", "", "", "")
    ensures |cluster.servers| == |cfg|
    ensures forall i :: 0 <= i < |cfg| ==> Lists(cluster.servers[i], cfg[i], env)
    ensures forall i :: 0 <= i < |cfg| && cfg[i].id == env.self ==>
              Shows(cluster.current, cfg[i]) && cluster.current.state == env.selfState
    ensures (forall s :: s in cfg ==> s.id != env.self) ==> cluster.current == Peer("", "", "", "")
  {
    ViewsAgree(cfg, env.leader);
    lead := LeadServer(env.leader, Some(cfg));
    var r := Cluster(env, Some(cfg));
    cluster := r.value;
    ViewFacts(cluster, env, cfg);
  }

  lemma {:induction false} ViewFacts(c: RaftCluster, env: Surroundings, cfg: Config)
    requires IsView(c, env, cfg) && Injective(cfg)
    ensures forall i :: 0 <= i < |cfg| ==> Lists(c.servers[i], cfg[i], env)
    ensures forall i :: 0 <= i < |cfg| && cfg[i].addr == env.leader ==> Shows(c.leader, cfg[i])
    ensures forall i :: 0 <= i < |cfg| && cfg[i].id == env.self ==>
              Shows(c.current, cfg[i]) && c.current.state == env.selfState
    ensures (forall s :: s in cfg ==> s.addr != env.leader) ==> c.leader == Peer("", "", "", "")
    ensures (forall s :: s in cfg ==> s.id != env.self) ==> c.current == Peer("", "", "", "")
  {
    forall i | 0 <= i < |cfg| ensures Lists(c.servers[i], cfg[i], env) {
      ViewLists(c, env, cfg, i);
    }
    forall i | 0 <= i < |cfg| && cfg[i].addr == env.leader ensures Shows(c.leader, cfg[i]) {
      ViewLeader(c, env, cfg, i);
    }
    forall i | 0 <= i < |cfg| && cfg[i].id == env.self
      ensures Shows(c.current, cfg[i]) && c.current.state == env.selfState
    {
      ViewCurrent(c, env, cfg, i);
    }
    ViewWithout(c, env, cfg);
  }
}

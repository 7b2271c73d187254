// Addresses and node IDs: fixAddr and NodeID (arg.go), JoinRequest.Fix (model.go).
module Addresses {
  import opened Options
  import opened Decimals

  // ---------- Go's string helpers ----------

  function If(cond: bool, s: string, t: string): string {
    if cond then s else t
  }

  function EqualsThen(s: string, e: string, t: string): string {
    if s == e then t else s
  }

  // strings.Split with a one-character separator.
  function Split(s: string, c: char): (parts: seq<string>)
    ensures parts != []
    ensures |parts| > 1 <==> c in s
    ensures forall p :: p in parts ==> c !in p
  {
    if s == "" then [""]
    else
      var rest := Split(s[1..], c);
      if s[0] == c then [""] + rest
      else [[s[0]] + rest[0]] + rest[1..]
  }

  datatype HostPort = HostPort(host: string, port: string)

  // net.SplitHostPort for addresses without brackets; None is its error.
  function SplitHostPort(s: string): Option<HostPort> {
    var parts := Split(s, ':');
    if '[' in s || ']' in s || |parts| != 2 then None else Some(HostPort(parts[0], parts[1]))
  }

  function JoinHostPort(host: string, port: string): string {
    host + ":" + port
  }

  // Where the error is ignored, the results are empty.
  function PortOf(addr: string): string {
    match SplitHostPort(addr)
    case None => ""
    case Some(hp) => hp.port
  }

  function HostOf(addr: string): string {
    match SplitHostPort(addr)
    case None => ""
    case Some(hp) => hp.host
  }

  // strconv.Atoi, whose error the callers drop: 0 for malformed text, and the nearest
  // 64-bit number when out of range.
  const MAX_INT := 0x7fff_ffff_ffff_ffff

  function Atoi(s: string): int {
    var signed := s != "" && (s[0] == '+' || s[0] == '-');
    var digits := if signed then s[1..] else s;
    if digits == "" || !AllDigits(digits) then 0
    else
      var v: int := Value(digits);
      if signed && s[0] == '-' then if v > MAX_INT + 1 then -MAX_INT - 1 else -v
      else if v > MAX_INT then MAX_INT else v
  }

  // The %d of fmt.Sprintf.
  function FormatInt(n: int): string {
    if n < 0 then "-" + Decimal(-n) else Decimal(n)
  }

  // No character that the address formats give a meaning.
  predicate Plain(s: string) {
    ':' !in s && '[' !in s && ']' !in s
  }

  lemma {:induction false} SplitWhole(a: string, c: char)
    requires c !in a
    ensures Split(a, c) == [a]
  {
    if a != "" {
      SplitWhole(a[1..], c);
      assert a == [a[0]] + a[1..];
    }
  }

  lemma {:induction false} SplitPrefix(a: string, c: char, b: string)
    requires c !in a
    ensures Split(a + [c] + b, c) == [a] + Split(b, c)
  {
    var s := a + [c] + b;
    if a == "" {
      assert s[1..] == b;
    } else {
      SplitPrefix(a[1..], c, b);
      assert s[0] == a[0] && s[1..] == a[1..] + [c] + b;
      var rest := [a[1..]] + Split(b, c);
      assert rest[1..] == Split(b, c);
      assert a == [a[0]] + a[1..];
    }
  }

  lemma {:induction false} SplitChars(s: string, c: char, x: char)
    requires x !in s
    ensures forall p :: p in Split(s, c) ==> x !in p
  {
    if s != "" {
      SplitChars(s[1..], c, x);
      assert s == [s[0]] + s[1..];
    }
  }

  // Joining plain parts and splitting gives them back.
  lemma {:induction false} SplitJoined(host: string, port: string)
    requires Plain(host) && Plain(port)
    ensures SplitHostPort(JoinHostPort(host, port)) == Some(HostPort(host, port))
  {
    SplitPrefix(host, ':', port);
    SplitWhole(port, ':');
    assert JoinHostPort(host, port) == host + [':'] + port;
  }

  lemma {:induction false} SplitRejoins(s: string, c: char)
    ensures |Split(s, c)| == 1 ==> s == Split(s, c)[0]
    ensures |Split(s, c)| == 2 ==> s == Split(s, c)[0] + [c] + Split(s, c)[1]
  {
    if s != "" {
      SplitRejoins(s[1..], c);
      var rest := Split(s[1..], c);
      assert s == [s[0]] + s[1..];
      if s[0] == c {
        assert |rest| == 1 ==> s == "" + [c] + rest[0];
      } else {
        assert |rest| == 2 ==> s == ([s[0]] + rest[0]) + [c] + rest[1];
      }
    }
  }

  // An address that splits is its host and port joined again.
  lemma {:induction false} AddressRejoins(addr: string)
    requires SplitHostPort(addr).Some?
    ensures addr == JoinHostPort(HostOf(addr), PortOf(addr))
  {
    SplitRejoins(addr, ':');
  }

  lemma {:induction false} SplitIsPlain(addr: string)
    ensures Plain(HostOf(addr)) && Plain(PortOf(addr))
    ensures forall x :: x !in addr ==> x !in HostOf(addr) && x !in PortOf(addr)
  {
    forall x | x !in addr ensures x !in HostOf(addr) && x !in PortOf(addr) {
      SplitChars(addr, ':', x);
    }
  }

  lemma {:induction false} DecimalIsPlain(n: int)
    ensures Plain(FormatInt(n)) && ',' !in FormatInt(n)
    ensures 0 <= n <= MAX_INT ==> Atoi(FormatInt(n)) == n
    ensures n > MAX_INT ==> Atoi(FormatInt(n)) == MAX_INT
  {
    if n >= 0 {
      PaddedValue(n, 0);
    }
  }

  lemma {:induction false} IntReadsBack(n: int)
    requires -MAX_INT - 1 <= n <= MAX_INT
    ensures Atoi(FormatInt(n)) == n
  {
    if n >= 0 {
      DecimalIsPlain(n);
    } else {
      assert FormatInt(n)[1..] == Decimal(-n);
      PaddedValue(-n, 0);
    }
  }

  // ---------- fixAddr ----------

  datatype Addrs = Addrs(http: string, raft: string)

  // fixAddrHost; None is a panic.
  function FixAddrHost(addr: string, hostIP: string, isLocal: string -> bool): Option<string> {
    match SplitHostPort(addr)
    case None => None
    case Some(hp) => Some(JoinHostPort(If(isLocal(hp.host), hostIP, hp.host), hp.port))
  }

  // What fixAddr makes of the two addresses; None is a panic.
  function FixAddrs(a: Addrs, hostIP: string, isLocal: string -> bool): Option<Addrs> {
    if a.raft == "" && a.http == "" then
      Some(Addrs(JoinHostPort(hostIP, "11000"), JoinHostPort(hostIP, "12000")))
    else if a.raft == "" then
      match SplitHostPort(a.http)
      case None => None
      case Some(hp) =>
        var por := Atoi(hp.port);
        var host := If(isLocal(hp.host), hostIP, hp.host);
        if por > 35565 - 1000 then None
        else Some(Addrs(JoinHostPort(host, FormatInt(por)), JoinHostPort(host, FormatInt(por + 1000))))
    else if a.http == "" then
      match SplitHostPort(a.raft)
      case None => None
      case Some(hp) =>
        var por := Atoi(hp.port);
        var host := If(isLocal(hp.host), hostIP, hp.host);
        if por < 1024 + 1000 then None
        else Some(Addrs(JoinHostPort(host, FormatInt(por - 1000)), JoinHostPort(host, FormatInt(por))))
    else
      match (FixAddrHost(a.raft, hostIP, isLocal), FixAddrHost(a.http, hostIP, isLocal))
      case (Some(raft), Some(http)) => Some(Addrs(http, raft))
      case _ => None
  }

  // HostIP is a plain address that counts as local.
  predicate HostKnown(hostIP: string, isLocal: string -> bool) {
    Plain(hostIP) && isLocal(hostIP)
  }

  // A host:port text with a local host replaced by the host IP.
  function Resolved(host: string, port: string, hostIP: string, isLocal: string -> bool): string {
    JoinHostPort(If(isLocal(host), hostIP, host), port)
  }

  lemma {:induction false} FixResolved(host: string, port: string, hostIP: string, isLocal: string -> bool)
    requires HostKnown(hostIP, isLocal) && Plain(host) && Plain(port)
    ensures var addr := Resolved(host, port, hostIP, isLocal);
            addr != "" && FixAddrHost(addr, hostIP, isLocal) == Some(addr)
  {
    SplitJoined(If(isLocal(host), hostIP, host), port);
  }

  // One address given: the port is read, and the other one is a fixed distance away.
  lemma {:induction false} PortTextIsPlain(addr: string, shift: int)
    ensures Plain(HostOf(addr))
    ensures Plain(FormatInt(Atoi(PortOf(addr)))) && Plain(FormatInt(Atoi(PortOf(addr)) + shift))
  {
    SplitIsPlain(addr);
    DecimalIsPlain(Atoi(PortOf(addr)));
    DecimalIsPlain(Atoi(PortOf(addr)) + shift);
  }

  // Everything fixAddr accepts it turns into two resolved addresses of plain parts.
  lemma {:induction false} FixedShape(a: Addrs, hostIP: string, isLocal: string -> bool) returns (h: HostPort, r: HostPort)
    requires HostKnown(hostIP, isLocal)
    ensures Plain(h.host) && Plain(h.port) && Plain(r.host) && Plain(r.port)
    ensures var b := FixAddrs(a, hostIP, isLocal);
            b.Some? ==> b.value == Addrs(Resolved(h.host, h.port, hostIP, isLocal),
                                         Resolved(r.host, r.port, hostIP, isLocal))
  {
    if a.raft == "" && a.http == "" {
      h, r := HostPort(hostIP, "11000"), HostPort(hostIP, "12000");
    } else if a.raft == "" {
      PortTextIsPlain(a.http, 1000);
      h := HostPort(HostOf(a.http), FormatInt(Atoi(PortOf(a.http))));
      r := HostPort(HostOf(a.http), FormatInt(Atoi(PortOf(a.http)) + 1000));
    } else if a.http == "" {
      PortTextIsPlain(a.raft, -1000);
      h := HostPort(HostOf(a.raft), FormatInt(Atoi(PortOf(a.raft)) - 1000));
      r := HostPort(HostOf(a.raft), FormatInt(Atoi(PortOf(a.raft))));
    } else {
      SplitIsPlain(a.raft);
      SplitIsPlain(a.http);
      h, r := HostPort(HostOf(a.http), PortOf(a.http)), HostPort(HostOf(a.raft), PortOf(a.raft));
    }
  }

  // Whatever addresses fixAddr accepts, applying it to its own result changes nothing.
  lemma {:induction false} FixAddrsIdempotent(a: Addrs, hostIP: string, isLocal: string -> bool)
    requires HostKnown(hostIP, isLocal)
    ensures var b := FixAddrs(a, hostIP, isLocal);
            b.Some? ==> FixAddrs(b.value, hostIP, isLocal) == b
  {
    var h, r := FixedShape(a, hostIP, isLocal);
    FixResolved(h.host, h.port, hostIP, isLocal);
    FixResolved(r.host, r.port, hostIP, isLocal);
  }

  // The host of an address with a local one replaced by the host IP.
  function HostFor(addr: string, hostIP: string, isLocal: string -> bool): string {
    if isLocal(HostOf(addr)) then hostIP else HostOf(addr)
  }

  // Both addresses given: each keeps its own port, and its own host unless that is local; the
  // call panics exactly when one of them does not split.
  lemma {:induction false} BothGiven(a: Addrs, hostIP: string, isLocal: string -> bool)
    requires a.http != "" && a.raft != "" && Plain(hostIP)
    ensures var b := FixAddrs(a, hostIP, isLocal);
            && (b.Some? <==> SplitHostPort(a.http).Some? && SplitHostPort(a.raft).Some?)
            && (b.Some? ==>
                  && HostOf(b.value.http) == HostFor(a.http, hostIP, isLocal) && PortOf(b.value.http) == PortOf(a.http)
                  && HostOf(b.value.raft) == HostFor(a.raft, hostIP, isLocal) && PortOf(b.value.raft) == PortOf(a.raft))
  {
    SplitIsPlain(a.http);
    SplitIsPlain(a.raft);
    SplitJoined(HostFor(a.http, hostIP, isLocal), PortOf(a.http));
    SplitJoined(HostFor(a.raft, hostIP, isLocal), PortOf(a.raft));
  }

  // Only the HTTP address given: both results are at its host, unless that is local, the port
  // is kept as a number, and the Raft port is 1000 above; the call panics exactly when the
  // address does not split or its port is too large.
  lemma {:induction false} HTTPGiven(addr: string, hostIP: string, isLocal: string -> bool)
    requires addr != "" && Plain(hostIP)
    ensures var b, por := FixAddrs(Addrs(addr, ""), hostIP, isLocal), Atoi(PortOf(addr));
            && (b.Some? <==> SplitHostPort(addr).Some? && por <= 34565)
            && (b.Some? ==> PlacedAt(b.value, HostFor(addr, hostIP, isLocal), por))
  {
    SplitIsPlain(addr);
    if Atoi(PortOf(addr)) <= 34565 {
      PortsPlaced(HostFor(addr, hostIP, isLocal), Atoi(PortOf(addr)));
    }
  }

  // Only the Raft address given: the same with the HTTP port 1000 below, and the call panics
  // when that would need privileges.
  lemma {:induction false} RaftGiven(addr: string, hostIP: string, isLocal: string -> bool)
    requires addr != "" && Plain(hostIP)
    ensures var b, por := FixAddrs(Addrs("", addr), hostIP, isLocal), Atoi(PortOf(addr));
            && (b.Some? <==> SplitHostPort(addr).Some? && por >= 2024)
            && (b.Some? ==> PlacedAt(b.value, HostFor(addr, hostIP, isLocal), por - 1000))
  {
    SplitIsPlain(addr);
    if Atoi(PortOf(addr)) >= 2024 {
      PortsPlaced(HostFor(addr, hostIP, isLocal), Atoi(PortOf(addr)) - 1000);
    }
  }

  predicate PlacedAt(b: Addrs, host: string, httpPort: int) {
    && HostOf(b.http) == host && Atoi(PortOf(b.http)) == httpPort
    && HostOf(b.raft) == host && Atoi(PortOf(b.raft)) == httpPort + 1000
  }

  lemma {:induction false} PortsPlaced(host: string, p: int)
    requires Plain(host) && -MAX_INT - 1 <= p && p + 1000 <= MAX_INT
    ensures PlacedAt(Addrs(JoinHostPort(host, FormatInt(p)), JoinHostPort(host, FormatInt(p + 1000))), host, p)
  {
    DecimalIsPlain(p);
    DecimalIsPlain(p + 1000);
    IntReadsBack(p);
    IntReadsBack(p + 1000);
    SplitJoined(host, FormatInt(p));
    SplitJoined(host, FormatInt(p + 1000));
  }

  function FromHTTP(host: string, p: nat, hostIP: string, isLocal: string -> bool): Option<Addrs> {
    FixAddrs(Addrs(JoinHostPort(host, Decimal(p)), ""), hostIP, isLocal)
  }

  function FromRaft(host: string, p: nat, hostIP: string, isLocal: string -> bool): Option<Addrs> {
    FixAddrs(Addrs("", JoinHostPort(host, Decimal(p + 1000))), hostIP, isLocal)
  }

  // The two addresses a node gets for HTTP port p.
  function DerivedPair(host: string, p: nat, hostIP: string, isLocal: string -> bool): Addrs {
    Addrs(Resolved(host, Decimal(p), hostIP, isLocal), Resolved(host, Decimal(p + 1000), hostIP, isLocal))
  }

  lemma {:induction false} ViaHTTP(host: string, p: nat, hostIP: string, isLocal: string -> bool)
    requires Plain(host)
    ensures FromHTTP(host, p, hostIP, isLocal) ==
            if p <= 34565 then Some(DerivedPair(host, p, hostIP, isLocal)) else None
  {
    DecimalIsPlain(p);
    SplitJoined(host, Decimal(p));
  }

  lemma {:induction false} ViaRaft(host: string, p: nat, hostIP: string, isLocal: string -> bool)
    requires Plain(host) && p + 1000 <= MAX_INT
    ensures FromRaft(host, p, hostIP, isLocal) ==
            if p >= 1024 then Some(DerivedPair(host, p, hostIP, isLocal)) else None
  {
    DecimalIsPlain(p + 1000);
    SplitJoined(host, Decimal(p + 1000));
  }

  // Deriving both addresses from HTTP port p alone and from Raft port p + 1000 alone succeeds
  // with the same result exactly for the ports 1024 to 34565: above, the HTTP address is
  // refused, below, the Raft address is.
  lemma {:induction false} DerivationsAgreeIff(host: string, p: nat, hostIP: string, isLocal: string -> bool)
    requires Plain(host)
    ensures var viaHTTP, viaRaft := FromHTTP(host, p, hostIP, isLocal), FromRaft(host, p, hostIP, isLocal);
            && (viaHTTP.Some? && viaHTTP == viaRaft <==> 1024 <= p <= 34565)
            && (viaHTTP.Some? ==> viaHTTP.value == DerivedPair(host, p, hostIP, isLocal))
  {
    ViaHTTP(host, p, hostIP, isLocal);
    if p <= 34565 {
      ViaRaft(host, p, hostIP, isLocal);
    }
  }

  // With no address given, they are the default ports of the host IP, which is what the HTTP address hostIP:11000 alone gives.
  lemma {:induction false} DefaultIsDerived(hostIP: string, isLocal: string -> bool)
    requires HostKnown(hostIP, isLocal)
    ensures FixAddrs(Addrs("", ""), hostIP, isLocal) == FromHTTP(hostIP, 11000, hostIP, isLocal)
    ensures FixAddrs(Addrs("", ""), hostIP, isLocal) == Some(Addrs(hostIP + ":" + "11000", hostIP + ":" + "12000"))
  {
    DerivationsAgreeIff(hostIP, 11000, hostIP, isLocal);
    DefaultPorts();
  }

  lemma {:induction false} DefaultPorts()
    ensures Decimal(11000) == "11000" && Decimal(12000) == "12000"
  {
    assert Padded(1, -4) == "1" && Padded(11, -3) == "11" && Padded(110, -2) == "110" && Padded(1100, -1) == "1100";
    assert Padded(12, -3) == "12" && Padded(120, -2) == "120" && Padded(1200, -1) == "1200";
  }

  // ---------- Node IDs ----------

  function HTTPAddr(id: string): string {
    Split(id, ',')[0]
  }

  // None is the index panic of an ID without a comma.
  function RaftAddr(id: string): Option<string> {
    var parts := Split(id, ',');
    if |parts| > 1 then Some(parts[1]) else None
  }

  function MakeID(http: string, raft: string): string {
    http + "," + raft
  }

  // NodeID.Fix; None is a panic.
  function FixID(id: string, host: string): Option<string> {
    match RaftAddr(id)
    case None => None
    case Some(raft) => Some(MakeID(JoinHostPort(host, PortOf(HTTPAddr(id))), JoinHostPort(host, PortOf(raft))))
  }

  lemma {:induction false} MakeIDSplits(http: string, raft: string)
    requires ',' !in http && ',' !in raft
    ensures HTTPAddr(MakeID(http, raft)) == http && RaftAddr(MakeID(http, raft)) == Some(raft)
  {
    assert MakeID(http, raft) == http + [','] + raft;
    SplitPrefix(http, ',', raft);
    SplitWhole(raft, ',');
  }

  lemma {:induction false} JoinedHasNoComma(host: string, port: string)
    requires ',' !in host && ',' !in port
    ensures ',' !in JoinHostPort(host, port)
  {
  }

  // For every ID with a comma and every plain host, the fixed ID splits into host:port parts
  // with the ports of the original, and fixing it again changes nothing.
  lemma {:induction false} FixIDLaw(id: string, host: string)
    requires Plain(host) && ',' !in host && ',' in id
    ensures FixID(id, host).Some?
    ensures var out := FixID(id, host).value;
            && HTTPAddr(out) == JoinHostPort(host, PortOf(HTTPAddr(id)))
            && RaftAddr(out) == Some(JoinHostPort(host, PortOf(RaftAddr(id).value)))
            && PortOf(HTTPAddr(out)) == PortOf(HTTPAddr(id))
            && PortOf(RaftAddr(out).value) == PortOf(RaftAddr(id).value)
            && FixID(out, host) == Some(out)
  {
    var h, r := HTTPAddr(id), RaftAddr(id).value;
    SplitIsPlain(h);
    SplitIsPlain(r);
    JoinedHasNoComma(host, PortOf(h));
    JoinedHasNoComma(host, PortOf(r));
    MakeIDSplits(JoinHostPort(host, PortOf(h)), JoinHostPort(host, PortOf(r)));
    SplitJoined(host, PortOf(h));
    SplitJoined(host, PortOf(r));
  }

  // ---------- The records the methods rewrite ----------

  class Arg {
    var raftAddr: string
    var httpAddr: string
    var hostIP: string
    var nodeID: string
    const isLocalHost: string -> bool

    constructor (http: string, raft: string, ip: string, isLocal: string -> bool)
      ensures httpAddr == http && raftAddr == raft && hostIP == ip && isLocalHost == isLocal
    {
      httpAddr, raftAddr, hostIP, nodeID := http, raft, ip, "";
      isLocalHost := isLocal;
    }

    // Returns false where Go panics.
    method FixAddr() returns (ok: bool)
      modifies this`raftAddr, this`httpAddr
      ensures ok <==> FixAddrs(old(Addrs(httpAddr, raftAddr)), hostIP, isLocalHost).Some?
      ensures ok ==> Addrs(httpAddr, raftAddr) == FixAddrs(old(Addrs(httpAddr, raftAddr)), hostIP, isLocalHost).value
    {
      if raftAddr == "" && httpAddr == "" {
        raftAddr := hostIP + ":12000";
        httpAddr := hostIP + ":11000";
        assert ":" + "12000" == ":12000" && ":" + "11000" == ":11000";
        assert hostIP + ":" + "12000" == hostIP + (":" + "12000");
        assert hostIP + ":" + "11000" == hostIP + (":" + "11000");
      } else if raftAddr == "" {
        var hp := SplitHostPort(httpAddr);
        if hp.None? {
          return false;
        }
        var por := Atoi(hp.value.port);
        if por > 35565 - 1000 {
          return false;
        }
        var host := If(isLocalHost(hp.value.host), hostIP, hp.value.host);
        httpAddr := JoinHostPort(host, FormatInt(por));
        raftAddr := JoinHostPort(host, FormatInt(por + 1000));
      } else if httpAddr == "" {
        var hp := SplitHostPort(raftAddr);
        if hp.None? {
          return false;
        }
        var por := Atoi(hp.value.port);
        if por < 1024 + 1000 {
          return false;
        }
        var host := If(isLocalHost(hp.value.host), hostIP, hp.value.host);
        httpAddr := JoinHostPort(host, FormatInt(por - 1000));
        raftAddr := JoinHostPort(host, FormatInt(por));
      } else {
        var raft := FixAddrHost(raftAddr, hostIP, isLocalHost);
        if raft.None? {
          return false;
        }
        raftAddr := raft.value;
        var http := FixAddrHost(httpAddr, hostIP, isLocalHost);
        if http.None? {
          return false;
        }
        httpAddr := http.value;
      }
      return true;
    }

    method ParseFlagRaftNodeID()
      modifies this`nodeID
      ensures FixID(MakeID(httpAddr, raftAddr), hostIP) == Some(nodeID)
    {
      nodeID := httpAddr + "," + raftAddr;
      assert ',' in nodeID by { assert nodeID[|httpAddr|] == ','; }
      nodeID := FixID(nodeID, hostIP).value;
    }
  }

  datatype Request = Request(addr: string, nodeID: string)

  // JoinRequest.Fix with the remote address of the HTTP request; None is a panic.
  function FixRequest(r: Request, remoteAddr: string): Option<Request> {
    var host := EqualsThen(HostOf(remoteAddr), "127.0.0.1", "");
    match FixID(r.nodeID, host)
    case None => None
    case Some(id) => Some(Request(JoinHostPort(host, PortOf(r.addr)), id))
  }

  class JoinRequest {
    var addr: string
    var nodeID: string

    constructor (raftAddr: string, id: string)
      ensures addr == raftAddr && nodeID == id
    {
      addr, nodeID := raftAddr, id;
    }

    method Fix(remoteAddr: string) returns (ok: bool)
      modifies this
      ensures ok <==> FixRequest(old(Request(addr, nodeID)), remoteAddr).Some?
      ensures ok ==> Request(addr, nodeID) == FixRequest(old(Request(addr, nodeID)), remoteAddr).value
    {
      var remoteHost := HostOf(remoteAddr);
      var host := EqualsThen(remoteHost, "127.0.0.1", "");
      var port := PortOf(addr);
      addr := JoinHostPort(host, port);
      var id := FixID(nodeID, host);
      if id.None? {
        return false;
      }
      nodeID := id.value;
      return true;
    }
  }

  // The fixed request is at the remote host in all three places, the loopback address becoming
  // the empty host, and keeps its three ports.
  lemma {:induction false} FixRequestLaw(r: Request, remoteAddr: string)
    requires ',' in r.nodeID && ',' !in remoteAddr
    ensures FixRequest(r, remoteAddr).Some?
    ensures var f := FixRequest(r, remoteAddr).value;
            var host := if HostOf(remoteAddr) == "127.0.0.1" then "" else HostOf(remoteAddr);
            && f.addr == host + ":" + PortOf(r.addr)
            && HostOf(f.addr) == host && PortOf(f.addr) == PortOf(r.addr)
            && HTTPAddr(f.nodeID) == host + ":" + PortOf(HTTPAddr(r.nodeID))
            && HostOf(HTTPAddr(f.nodeID)) == host && PortOf(HTTPAddr(f.nodeID)) == PortOf(HTTPAddr(r.nodeID))
            && RaftAddr(f.nodeID) == Some(host + ":" + PortOf(RaftAddr(r.nodeID).value))
            && HostOf(RaftAddr(f.nodeID).value) == host
            && PortOf(RaftAddr(f.nodeID).value) == PortOf(RaftAddr(r.nodeID).value)
  {
    var host := if HostOf(remoteAddr) == "127.0.0.1" then "" else HostOf(remoteAddr);
    SplitIsPlain(remoteAddr);
    FixIDLaw(r.nodeID, host);
    RejoinedParts(host, r.addr);
    RejoinedParts(host, HTTPAddr(r.nodeID));
    RejoinedParts(host, RaftAddr(r.nodeID).value);
  }

  // A plain host before the port of any address is read back with that port.
  lemma {:induction false} RejoinedParts(host: string, addr: string)
    requires Plain(host)
    ensures HostOf(JoinHostPort(host, PortOf(addr))) == host
    ensures PortOf(JoinHostPort(host, PortOf(addr))) == PortOf(addr)
  {
    SplitIsPlain(addr);
    SplitJoined(host, PortOf(addr));
  }

  // The server will be known under the Raft address in its own ID.
  predicate Consistent(id: string, addr: string) {
    RaftAddr(id) == Some(addr)
  }

  // A fixed request is consistent exactly when the Raft ports of its two fields agreed.
  lemma {:induction false} FixedRequestConsistentIff(r: Request, remoteAddr: string)
    requires ',' in r.nodeID && ',' !in remoteAddr
    ensures var f := FixRequest(r, remoteAddr);
            f.Some? && (Consistent(f.value.nodeID, f.value.addr) <==>
                        PortOf(r.addr) == PortOf(RaftAddr(r.nodeID).value))
  {
    var host := EqualsThen(HostOf(remoteAddr), "127.0.0.1", "");
    SplitIsPlain(remoteAddr);
    FixIDLaw(r.nodeID, host);
    JoinInjective(host, PortOf(r.addr), PortOf(RaftAddr(r.nodeID).value));
  }

  lemma {:induction false} JoinInjective(host: string, p: string, q: string)
    ensures JoinHostPort(host, p) == JoinHostPort(host, q) <==> p == q
  {
    assert JoinHostPort(host, p)[|host| + 1..] == p;
    assert JoinHostPort(host, q)[|host| + 1..] == q;
  }

  // From start to admission: the request a node sends with its own addresses and the ID it
  // derived from them is consistent once the leader has fixed it, wherever it came from.
  lemma {:induction false} OwnRequestConsistent(http: string, raft: string, hostIP: string, remoteAddr: string)
    requires ',' !in http && ',' !in raft && ',' !in hostIP && Plain(hostIP) && ',' !in remoteAddr
    ensures var id := FixID(MakeID(http, raft), hostIP);
            id.Some? &&
            var f := FixRequest(Request(raft, id.value), remoteAddr);
            f.Some? && Consistent(f.value.nodeID, f.value.addr)
  {
    MakeIDSplits(http, raft);
    assert MakeID(http, raft)[|http|] == ',';
    FixIDLaw(MakeID(http, raft), hostIP);
    var id := FixID(MakeID(http, raft), hostIP).value;
    FixedRequestConsistentIff(Request(raft, id), remoteAddr);
  }

  lemma {:induction false} SameHostIff(host: string, host': string, port: string)
    ensures JoinHostPort(host, port) == JoinHostPort(host', port) <==> host == host'
  {
    var a, b := JoinHostPort(host, port), JoinHostPort(host', port);
    assert a[..|host|] == host && b[..|host'|] == host';
    assert a == b ==> |host| == |host'|;
  }

  // The ID a node derives from its addresses holds its own Raft address exactly when that
  // address is at the host IP: the ID's hosts are rewritten, the address is not.
  lemma {:induction false} OwnIDConsistentIff(http: string, raft: string, hostIP: string)
    requires ',' !in http && ',' !in raft && ',' !in hostIP && Plain(hostIP)
    requires SplitHostPort(raft).Some?
    ensures var id := FixID(MakeID(http, raft), hostIP);
            id.Some? && (Consistent(id.value, raft) <==> HostOf(raft) == hostIP)
  {
    MakeIDSplits(http, raft);
    assert MakeID(http, raft)[|http|] == ',';
    FixIDLaw(MakeID(http, raft), hostIP);
    AddressRejoins(raft);
    SameHostIff(hostIP, HostOf(raft), PortOf(raft));
  }

  // For the addresses fixAddr leaves, that is when the Raft host counts as local.
  lemma {:induction false} StartConsistentIff(a: Addrs, hostIP: string, isLocal: string -> bool)
    requires HostKnown(hostIP, isLocal) && ',' !in hostIP
    requires var b := FixAddrs(a, hostIP, isLocal); b.Some? && ',' !in b.value.http && ',' !in b.value.raft
    ensures var b := FixAddrs(a, hostIP, isLocal).value;
            var id := FixID(MakeID(b.http, b.raft), hostIP);
            id.Some? && (Consistent(id.value, b.raft) <==> isLocal(HostOf(b.raft)))
  {
    var b := FixAddrs(a, hostIP, isLocal).value;
    var _, r := FixedShape(a, hostIP, isLocal);
    SplitJoined(If(isLocal(r.host), hostIP, r.host), r.port);
    OwnIDConsistentIff(b.http, b.raft, hostIP);
  }
}

/** From resources with their targets to Traefik's dynamic configuration. */
module TraefikConfig {
  import opened Wrappers
  import opened Clock
  import opened Text
  import HostRule

  const PRIMARY_FRESHNESS := 45 * SECOND

  datatype Target = Target(address: string, port: int, role: string, external: bool, lastSeen: Option<int>,
                           nodeName: Option<string>)

  const ZERO_TARGET := Target("", 0, "", false, None, None)

  datatype Resource = Resource(name: string, protocol: string, domain: Option<string>, entryPoint: string,
                               certResolver: Option<string>, targetScheme: string, targetSkipVerify: bool,
                               sticky: bool, targets: seq<Target>)

  datatype TLS = TLS(certResolver: string, domains: seq<string>)
  datatype Router = Router(rule: string, service: string, entryPoints: seq<string>, tls: Option<TLS>)
  datatype Server = Server(url: string, address: string)
  datatype HealthCheck = HealthCheck(path: string, interval: string, timeout: string)
  datatype Service = Service(servers: seq<Server>, stickyCookie: Option<string>, healthCheck: Option<HealthCheck>,
                             serversTransport: string)

  /** `transports` maps a name to its insecureSkipVerify flag. */
  datatype ProtocolConfig = ProtocolConfig(routers: map<string, Router>, services: map<string, Service>,
                                           transports: map<string, bool>)

  const EMPTY := ProtocolConfig(map[], map[], map[])

  datatype Config = Config(http: Option<ProtocolConfig>, tcp: Option<ProtocolConfig>, udp: Option<ProtocolConfig>)

  // ----- choosing between primary and backup -----

  /** The last target with this role, or the zero target. */
  function LastWith(targets: seq<Target>, role: string): Target {
    if targets == [] then ZERO_TARGET
    else if targets[|targets| - 1].role == role then targets[|targets| - 1]
    else LastWith(targets[..|targets| - 1], role)
  }

  predicate Fresh(t: Target, now: int) {
    t.lastSeen.Some? && now - t.lastSeen.value <= PRIMARY_FRESHNESS
  }

  function Selected(targets: seq<Target>, now: int): Target {
    if |targets| == 1 then targets[0]
    else
      var primary := LastWith(targets, "primary");
      if primary.external || Fresh(primary, now) then primary else LastWith(targets, "backup")
  }

  /** selectMasterBackupTarget. */
  method SelectMasterBackupTarget(targets: seq<Target>, now: int) returns (t: Target)
    ensures t == Selected(targets, now)
  {
    if |targets| == 1 {
      return targets[0];
    }
    var primary, backup := ZERO_TARGET, ZERO_TARGET;
    for i := 0 to |targets|
      invariant primary == LastWith(targets[..i], "primary") && backup == LastWith(targets[..i], "backup")
    {
      assert targets[..i + 1][..i] == targets[..i];
      if targets[i].role == "primary" {
        primary := targets[i];
      } else if targets[i].role == "backup" {
        backup := targets[i];
      }
    }
    assert targets[..|targets|] == targets;
    if primary.external {
      return primary;
    }
    if primary.lastSeen != None && now - primary.lastSeen.value <= PRIMARY_FRESHNESS {
      return primary;
    }
    return backup;
  }

  lemma {:induction false} LastOfTwo(ts: seq<Target>, p: Target, b: Target)
    requires p.role == "primary" && b.role == "backup" && (ts == [p, b] || ts == [b, p])
    ensures LastWith(ts, "primary") == p && LastWith(ts, "backup") == b
  {
    assert ts[..1] == [ts[0]] && [ts[0]][..0] == [];
    assert LastWith([ts[0]], "primary") == if ts[0] == p then p else ZERO_TARGET;
    assert LastWith([ts[0]], "backup") == if ts[0] == b then b else ZERO_TARGET;
  }

  /** Of a primary and a backup, in either order: the primary if it is external or fresh. */
  lemma {:induction false} SelectedOfPair(ts: seq<Target>, p: Target, b: Target, now: int)
    requires p.role == "primary" && b.role == "backup" && (ts == [p, b] || ts == [b, p])
    ensures Selected(ts, now) == if p.external || Fresh(p, now) then p else b
  {
    LastOfTwo(ts, p, b);
  }

  // ----- one resource -----

  function HttpRule(r: Resource): string {
    if r.domain.Some? && r.domain.value != "" then HostRule.Rule(r.domain.value) else "PathPrefix(`/`)"
  }

  function HttpTls(r: Resource): Option<TLS> {
    if r.certResolver.Some? && r.certResolver.value != "" then
      Some(TLS(r.certResolver.value,
               if r.domain.Some? && HostRule.IsWildcard(r.domain.value) then [r.domain.value] else []))
    else None
  }

  function Scheme(r: Resource): string {
    if r.targetScheme == "" then "http" else r.targetScheme
  }

  predicate Insecure(r: Resource) {
    r.protocol == "http" && Scheme(r) == "https" && r.targetSkipVerify
  }

  function TransportName(name: string): string {
    name + "-insecure"
  }

  function HttpServer(scheme: string, t: Target): Server {
    Server(scheme + "://" + t.address + ":" + Decimal(t.port), "")
  }

  function HttpServers(scheme: string, targets: seq<Target>): seq<Server> {
    seq(|targets|, i requires 0 <= i < |targets| => HttpServer(scheme, targets[i]))
  }

  function HttpService(r: Resource): Service {
    Service(HttpServers(Scheme(r), r.targets),
            if r.sticky then Some("rvtx_lb_" + r.name) else None,
            if r.sticky then Some(HealthCheck("/", "10s", "3s")) else None,
            if Insecure(r) then TransportName(r.name) else "")
  }

  function TcpRule(r: Resource): string {
    if r.domain.Some? && r.domain.value != "" then "HostSNI(`" + r.domain.value + "`)" else "HostSNI(`*`)"
  }

  /** The one server of a tcp or udp service. */
  function SelectedService(r: Resource, now: int): Service {
    var t := Selected(r.targets, now);
    Service([Server("", t.address + ":" + Decimal(t.port))], None, None, "")
  }

  function RouterOf(r: Resource): Router {
    if r.protocol == "http" then Router(HttpRule(r), r.name, [r.entryPoint], HttpTls(r))
    else if r.protocol == "tcp" then Router(TcpRule(r), r.name, [r.entryPoint], None)
    else Router("", r.name, [r.entryPoint], None)
  }

  function ServiceOf(r: Resource, now: int): Service {
    if r.protocol == "http" then HttpService(r) else SelectedService(r, now)
  }

  // ----- all resources -----

  /** What each resource puts into its section: a router, a service and perhaps an insecure transport. */
  datatype Entries = Entries(router: Resource -> Router, service: Resource -> Service, insecure: Resource -> bool,
                             transportName: string -> string)

  function EntriesAt(now: int): Entries {
    Entries(RouterOf, r => ServiceOf(r, now), Insecure, TransportName)
  }

  /** One resource's entries, added to a section. */
  function AddEntries(s: ProtocolConfig, r: Resource, e: Entries): ProtocolConfig {
    ProtocolConfig(s.routers[r.name := e.router(r)], s.services[r.name := e.service(r)],
                   if e.insecure(r) then s.transports[e.transportName(r.name) := true] else s.transports)
  }

  /** ... which is created when the first resource needs it. */
  function AddTo(section: Option<ProtocolConfig>, r: Resource, e: Entries): Option<ProtocolConfig> {
    Some(AddEntries(if section.Some? then section.value else EMPTY, r, e))
  }

  function Section(cfg: Config, protocol: string): Option<ProtocolConfig> {
    if protocol == "http" then cfg.http else if protocol == "tcp" then cfg.tcp else if protocol == "udp" then cfg.udp
        else None
  }

  function Add(cfg: Config, r: Resource, now: int): Config {
    if r.protocol == "http" then cfg.(http := AddTo(cfg.http, r, EntriesAt(now)))
    else if r.protocol == "tcp" then cfg.(tcp := AddTo(cfg.tcp, r, EntriesAt(now)))
    else if r.protocol == "udp" then cfg.(udp := AddTo(cfg.udp, r, EntriesAt(now)))
    else cfg
  }

  function Compiled(rs: seq<Resource>, now: int): Config {
    if rs == [] then Config(None, None, None) else Add(Compiled(rs[..|rs| - 1], now), rs[|rs| - 1], now)
  }

  /** The loop over an http resource's targets. */
  method ServersFor(scheme: string, targets: seq<Target>) returns (servers: seq<Server>)
    ensures servers == HttpServers(scheme, targets)
  {
    servers := [];
    for i := 0 to |targets|
      invariant |servers| == i && forall j :: 0 <= j < i ==> servers[j] == HttpServer(scheme, targets[j])
    {
      var t := targets[i];
      servers := servers + [Server(scheme + "://" + t.address + ":" + Decimal(t.port), "")];
    }
  }

  method HttpRouter(r: Resource) returns (router: Router)
    requires r.protocol == "http"
    ensures router == RouterOf(r)
  {
    var rule := "PathPrefix(`/`)";
    if r.domain != None && r.domain.value != "" {
      rule := HostRule.Rule(r.domain.value);
    }
    var tls := None;
    if r.certResolver != None && r.certResolver.value != "" {
      tls := Some(TLS(r.certResolver.value, []));
      if r.domain != None && HostRule.IsWildcard(r.domain.value) {
        tls := Some(TLS(r.certResolver.value, [r.domain.value]));
      }
    }
    router := Router(rule, r.name, [r.entryPoint], tls);
  }

  /** Generate's http branch. */
  method AddHttp(http: Option<ProtocolConfig>, r: Resource, now: int) returns (section: Option<ProtocolConfig>)
    requires r.protocol == "http"
    ensures section == AddTo(http, r, EntriesAt(now))
  {
    var s := if http == None then EMPTY else http.value;
    var router := HttpRouter(r);
    var scheme := if r.targetScheme == "" then "http" else r.targetScheme;
    var servers := ServersFor(scheme, r.targets);
    var service := Service(servers, None, None, "");
    var transports := s.transports;
    if scheme == "https" && r.targetSkipVerify {
      var transportName := r.name + "-insecure";
      transports := transports[transportName := true];
      service := service.(serversTransport := transportName);
    }
    if r.sticky {
      service := service.(stickyCookie := Some("rvtx_lb_" + r.name),
                          healthCheck := Some(HealthCheck("/", "10s", "3s")));
    }
    section := Some(ProtocolConfig(s.routers[r.name := router], s.services[r.name := service], transports));
  }

  /** Generate's tcp branch. */
  method AddTcp(tcp: Option<ProtocolConfig>, r: Resource, now: int) returns (section: Option<ProtocolConfig>)
    requires r.protocol == "tcp"
    ensures section == AddTo(tcp, r, EntriesAt(now))
  {
    var s := if tcp == None then EMPTY else tcp.value;
    var rule := "HostSNI(`*`)";
    if r.domain != None && r.domain.value != "" {
      rule := "HostSNI(`" + r.domain.value + "`)";
    }
    var target := SelectMasterBackupTarget(r.targets, now);
    var service := Service([Server("", target.address + ":" + Decimal(target.port))], None, None, "");
    section := Some(ProtocolConfig(s.routers[r.name := Router(rule, r.name, [r.entryPoint], None)],
                                   s.services[r.name := service], s.transports));
  }

  /** Generate's udp branch. */
  method AddUdp(udp: Option<ProtocolConfig>, r: Resource, now: int) returns (section: Option<ProtocolConfig>)
    requires r.protocol == "udp"
    ensures section == AddTo(udp, r, EntriesAt(now))
  {
    var s := if udp == None then EMPTY else udp.value;
    var target := SelectMasterBackupTarget(r.targets, now);
    var service := Service([Server("", target.address + ":" + Decimal(target.port))], None, None, "");
    section := Some(ProtocolConfig(s.routers[r.name := Router("", r.name, [r.entryPoint], None)],
                                   s.services[r.name := service], s.transports));
  }

  /** Generate, filling the maps resource by resource. */
  method Generate(resources: seq<Resource>, now: int) returns (cfg: Config)
    ensures cfg == Compiled(resources, now)
  {
    cfg := Config(None, None, None);
    for n := 0 to |resources|
      invariant cfg == Compiled(resources[..n], now)
    {
      assert resources[..n + 1][..n] == resources[..n];
      var r := resources[n];
      if r.protocol == "http" {
        var http := AddHttp(cfg.http, r, now);
        cfg := cfg.(http := http);
      } else if r.protocol == "tcp" {
        var tcp := AddTcp(cfg.tcp, r, now);
        cfg := cfg.(tcp := tcp);
      } else if r.protocol == "udp" {
        var udp := AddUdp(cfg.udp, r, now);
        cfg := cfg.(udp := udp);
      }
    }
    assert resources[..|resources|] == resources;
  }

  // ----- the configuration as a whole -----

  /** Unique resource names, as the table guarantees. */
  ghost predicate UniqueNames(rs: seq<Resource>) {
    forall i, j :: 0 <= i < j < |rs| ==> rs[i].name != rs[j].name
  }

  predicate Known(protocol: string) {
    protocol == "http" || protocol == "tcp" || protocol == "udp"
  }

  ghost function NamesOf(rs: seq<Resource>, protocol: string): set<string> {
    set r | r in rs && r.protocol == protocol :: r.name
  }

  ghost function InsecureNames(rs: seq<Resource>, protocol: string, e: Entries): set<string> {
    set r | r in rs && r.protocol == protocol && e.insecure(r) :: e.transportName(r.name)
  }

  ghost predicate KeysExact(s: ProtocolConfig, rs: seq<Resource>, protocol: string, e: Entries) {
    && s.routers.Keys == NamesOf(rs, protocol) && s.services.Keys == NamesOf(rs, protocol)
    && s.transports.Keys == InsecureNames(rs, protocol, e)
  }

  ghost predicate EntriesExact(s: ProtocolConfig, rs: seq<Resource>, protocol: string, e: Entries)
    requires KeysExact(s, rs, protocol, e)
  {
    && (forall r :: r in rs && r.protocol == protocol ==>
       s.routers[r.name] == e.router(r) && s.services[r.name] == e.service(r))
    && AllSkip(s.transports)
  }

  predicate AllSkip(transports: map<string, bool>) {
    forall n :: n in transports ==> transports[n]
  }

  lemma {:induction false} SameSkips(a: map<string, bool>, b: map<string, bool>)
    requires a.Keys == b.Keys && AllSkip(a) && AllSkip(b)
    ensures a == b
  {
  }

  /** The entries of one of its resources. */
  lemma {:induction false} EntryOf(s: ProtocolConfig, rs: seq<Resource>, protocol: string, e: Entries, r: Resource)
    requires KeysExact(s, rs, protocol, e) && EntriesExact(s, rs, protocol, e) && r in rs && r.protocol == protocol
    ensures r.name in s.routers && s.routers[r.name] == e.router(r) && r.name in s.services
    ensures s.services[r.name] == e.service(r)
    ensures e.insecure(r) ==> e.transportName(r.name) in s.transports
  {
    assert r.name in NamesOf(rs, protocol);
  }

  /** The resource behind a name. */
  lemma {:induction false} ResourceAt(s: ProtocolConfig, rs: seq<Resource>, protocol: string, e: Entries, n: string)
      returns (r: Resource)
    requires KeysExact(s, rs, protocol, e) && EntriesExact(s, rs, protocol, e) && n in s.routers.Keys + s.services.Keys
    ensures r in rs && r.protocol == protocol && r.name == n
    ensures n in s.routers && s.routers[n] == e.router(r) && n in s.services && s.services[n] == e.service(r)
    ensures e.insecure(r) ==> e.transportName(n) in s.transports
  {
    r :| r in rs && r.protocol == protocol && r.name == n;
    EntryOf(s, rs, protocol, e, r);
  }

  /** One section holds exactly the entries of its protocol's resources; it is absent when there are none. */
  ghost predicate SectionExact(section: Option<ProtocolConfig>, rs: seq<Resource>, protocol: string, e: Entries) {
    && (section.None? <==> NamesOf(rs, protocol) == {})
    && (section.Some? ==> KeysExact(section.value, rs, protocol, e) && EntriesExact(section.value, rs, protocol, e))
  }

  lemma {:induction false} NamesSnoc(rs: seq<Resource>, r: Resource, protocol: string, e: Entries)
    ensures NamesOf(rs + [r], protocol) == NamesOf(rs, protocol) + if r.protocol == protocol then {r.name} else {}
    ensures InsecureNames(rs + [r], protocol, e)
         == InsecureNames(rs, protocol, e) + if r.protocol == protocol && e.insecure(r) then {e.transportName(r.name)}
             else {}
  {
    var all := rs + [r];
    assert forall q :: q in all <==> q in rs || q == r;
    assert r in all;
  }

  lemma {:induction false} NoneNamed(rs: seq<Resource>, protocol: string, e: Entries)
    requires NamesOf(rs, protocol) == {}
    ensures InsecureNames(rs, protocol, e) == {} && forall r :: r in rs ==> r.protocol != protocol
  {
    assert forall r :: r in rs && r.protocol == protocol ==> r.name in NamesOf(rs, protocol);
  }

  lemma {:induction false} EmptyExact(rs: seq<Resource>, protocol: string, e: Entries)
    requires NamesOf(rs, protocol) == {}
    ensures KeysExact(EMPTY, rs, protocol, e) && EntriesExact(EMPTY, rs, protocol, e)
  {
    NoneNamed(rs, protocol, e);
  }

  lemma {:induction false} AddedKeys(s: ProtocolConfig, rs: seq<Resource>, r: Resource, e: Entries)
    requires KeysExact(s, rs, r.protocol, e)
    ensures KeysExact(AddEntries(s, r, e), rs + [r], r.protocol, e)
  {
    NamesSnoc(rs, r, r.protocol, e);
  }

  lemma {:induction false} AddedEntry(s: ProtocolConfig, rs: seq<Resource>, r: Resource, e: Entries, q: Resource)
    requires KeysExact(s, rs, r.protocol, e) && EntriesExact(s, rs, r.protocol, e) && q in rs + [r]
    requires q.protocol == r.protocol
    requires forall p :: p in rs ==> p.name != r.name
    ensures var t := AddEntries(s, r, e);
            q.name in t.routers && t.routers[q.name] == e.router(q) && q.name in t.services
                && t.services[q.name] == e.service(q)
  {
    if q != r {
      assert q in rs;
      EntryOf(s, rs, r.protocol, e, q);
    }
  }

  lemma {:induction false} AddedExact(s: ProtocolConfig, rs: seq<Resource>, r: Resource, e: Entries)
    requires KeysExact(s, rs, r.protocol, e) && EntriesExact(s, rs, r.protocol, e)
    requires forall q :: q in rs ==> q.name != r.name
    ensures KeysExact(AddEntries(s, r, e), rs + [r], r.protocol, e)
    ensures EntriesExact(AddEntries(s, r, e), rs + [r], r.protocol, e)
  {
    AddedKeys(s, rs, r, e);
    forall q | q in rs + [r] && q.protocol == r.protocol
      ensures var t := AddEntries(s, r, e);
              q.name in t.routers && t.routers[q.name] == e.router(q) && q.name in t.services
                  && t.services[q.name] == e.service(q)
    {
      AddedEntry(s, rs, r, e, q);
    }
  }

  lemma {:induction false} AddToExact(section: Option<ProtocolConfig>, rs: seq<Resource>, r: Resource, e: Entries)
    requires SectionExact(section, rs, r.protocol, e)
    requires forall q :: q in rs ==> q.name != r.name
    ensures SectionExact(AddTo(section, r, e), rs + [r], r.protocol, e)
  {
    if section.None? {
      EmptyExact(rs, r.protocol, e);
    }
    AddedExact(if section.Some? then section.value else EMPTY, rs, r, e);
    AddedName(rs, r);
  }

  lemma {:induction false} AddedName(rs: seq<Resource>, r: Resource)
    ensures r.name in NamesOf(rs + [r], r.protocol)
  {
    assert (rs + [r])[|rs|] == r && r in rs + [r];
  }

  lemma {:induction false} OtherSection(section: Option<ProtocolConfig>, rs: seq<Resource>, r: Resource,
                                        protocol: string, e: Entries)
    requires SectionExact(section, rs, protocol, e) && r.protocol != protocol
    ensures SectionExact(section, rs + [r], protocol, e)
  {
    NamesSnoc(rs, r, protocol, e);
    assert forall q :: q in rs + [r] <==> q in rs || q == r;
  }

  /** For uniquely named resources every section is exact. */
  lemma {:induction false} CompiledExact(rs: seq<Resource>, protocol: string, now: int)
    requires UniqueNames(rs) && Known(protocol)
    ensures SectionExact(Section(Compiled(rs, now), protocol), rs, protocol, EntriesAt(now))
  {
    if rs == [] {
      assert NamesOf(rs, protocol) == {};
    } else {
      var front, r := rs[..|rs| - 1], rs[|rs| - 1];
      CompiledExact(front, protocol, now);
      assert rs == front + [r];
      if r.protocol == protocol {
        forall q | q in front
          ensures q.name != r.name
        {
          var i :| 0 <= i < |front| && front[i] == q;
          assert rs[i].name != rs[|rs| - 1].name;
        }
        AddToExact(Section(Compiled(front, now), protocol), front, r, EntriesAt(now));
      } else {
        OtherSection(Section(Compiled(front, now), protocol), front, r, protocol, EntriesAt(now));
      }
    }
  }

  lemma TransportNameInjective(a: string, b: string)
    ensures TransportName(a) == TransportName(b) ==> a == b
  {
    if TransportName(a) == TransportName(b) {
      assert |a| == |b|;
      assert a == TransportName(a)[..|a|] && b == TransportName(b)[..|b|];
    }
  }

  /**
   * Entries that name themselves: routers point at the service of the same name, services at no transport but
   * their own.
   */
  ghost predicate SelfNamed(e: Entries) {
    && (forall r :: e.router(r).service == r.name)
    && (forall r :: e.service(r).serversTransport == if e.insecure(r) then e.transportName(r.name) else "")
    && (forall a, b :: e.transportName(a) == e.transportName(b) ==> a == b)
    && (forall a :: e.transportName(a) != "")
  }

  lemma EntriesSelfNamed(now: int)
    ensures SelfNamed(EntriesAt(now))
  {
    var e := EntriesAt(now);
    forall a, b | e.transportName(a) == e.transportName(b)
      ensures a == b
    {
      TransportNameInjective(a, b);
    }
  }

  /** Every reference resolves in the section. */
  ghost predicate Resolves(s: ProtocolConfig) {
    && s.routers.Keys == s.services.Keys
    && (forall n :: n in s.routers ==> s.routers[n].service == n && s.routers[n].service in s.services)
    && (forall n :: n in s.services && s.services[n].serversTransport != "" ==>
       s.services[n].serversTransport in s.transports)
  }

  /** Every transport skips verification, and is there for exactly one service. */
  ghost predicate UsedOnce(s: ProtocolConfig) {
    && AllSkip(s.transports)
    && (forall t :: t in s.transports ==> exists n :: n in s.services && s.services[n].serversTransport == t)
    && (forall m, n ::
          (&& m in s.services && n in s.services
           && s.services[m].serversTransport == s.services[n].serversTransport != "") ==> m == n)
  }

  ghost predicate Closed(s: ProtocolConfig) {
    Resolves(s) && UsedOnce(s)
  }

  lemma {:induction false} ServiceTransport(s: ProtocolConfig, rs: seq<Resource>, protocol: string, e: Entries,
                                            n: string)
    requires KeysExact(s, rs, protocol, e) && EntriesExact(s, rs, protocol, e) && SelfNamed(e) && n in s.services
    ensures n in s.routers && s.routers[n].service == n && s.services[n].serversTransport in {"", e.transportName(n)}
    ensures s.services[n].serversTransport != "" ==> s.services[n].serversTransport in s.transports
  {
    var r := ResourceAt(s, rs, protocol, e, n);
  }

  lemma {:induction false} TransportUser(s: ProtocolConfig, rs: seq<Resource>, protocol: string, e: Entries, t: string)
      returns (n: string)
    requires KeysExact(s, rs, protocol, e) && EntriesExact(s, rs, protocol, e) && SelfNamed(e) && t in s.transports
    ensures n in s.services && s.services[n].serversTransport == t
  {
    assert t in InsecureNames(rs, protocol, e);
    var r :| r in rs && r.protocol == protocol && e.insecure(r) && e.transportName(r.name) == t;
    EntryOf(s, rs, protocol, e, r);
    n := r.name;
  }

  lemma {:induction false} ExactResolves(s: ProtocolConfig, rs: seq<Resource>, protocol: string, e: Entries)
    requires KeysExact(s, rs, protocol, e) && EntriesExact(s, rs, protocol, e) && SelfNamed(e)
    ensures Resolves(s)
  {
    forall n | n in s.services
      ensures n in s.routers && s.routers[n].service == n
      ensures s.services[n].serversTransport != "" ==> s.services[n].serversTransport in s.transports
    {
      ServiceTransport(s, rs, protocol, e, n);
    }
  }

  lemma {:induction false} ExactUsedOnce(s: ProtocolConfig, rs: seq<Resource>, protocol: string, e: Entries)
    requires KeysExact(s, rs, protocol, e) && EntriesExact(s, rs, protocol, e) && SelfNamed(e)
    ensures UsedOnce(s)
  {
    forall t | t in s.transports
      ensures exists n :: n in s.services && s.services[n].serversTransport == t
    {
      var n := TransportUser(s, rs, protocol, e, t);
    }
    forall m, n | m in s.services && n in s.services
        && s.services[m].serversTransport == s.services[n].serversTransport != ""
      ensures m == n
    {
      ServiceTransport(s, rs, protocol, e, m);
      ServiceTransport(s, rs, protocol, e, n);
    }
  }

  /** For uniquely named resources, every section has exactly its resources' names and is closed. */
  lemma ConfigClosed(rs: seq<Resource>, protocol: string, now: int)
    requires UniqueNames(rs) && Known(protocol)
    ensures var section := Section(Compiled(rs, now), protocol);
            && (section.None? <==> NamesOf(rs, protocol) == {})
            && (section.Some? ==> section.value.routers.Keys == NamesOf(rs, protocol) && Closed(section.value))
  {
    CompiledExact(rs, protocol, now);
    EntriesSelfNamed(now);
    var section := Section(Compiled(rs, now), protocol);
    if section.Some? {
      ExactResolves(section.value, rs, protocol, EntriesAt(now));
      ExactUsedOnce(section.value, rs, protocol, EntriesAt(now));
    }
  }

  /** An insecure transport exists for an http resource exactly when it is https and skips verification. */
  lemma {:induction false} InsecureExactly(rs: seq<Resource>, r: Resource, now: int)
    requires UniqueNames(rs) && r in rs && r.protocol == "http"
    ensures var s := Section(Compiled(rs, now), "http");
            s.Some? && (TransportName(r.name) in s.value.transports
                <==> r.targetScheme == "https" && r.targetSkipVerify)
  {
    CompiledExact(rs, "http", now);
    assert r.name in NamesOf(rs, "http");
    if TransportName(r.name) in InsecureNames(rs, "http", EntriesAt(now)) {
      var q :| q in rs && Insecure(q) && TransportName(q.name) == TransportName(r.name);
      TransportNameInjective(q.name, r.name);
      SameName(rs, q, r);
    }
  }

  lemma SameName(rs: seq<Resource>, q: Resource, r: Resource)
    requires UniqueNames(rs) && q in rs && r in rs && q.name == r.name
    ensures q == r
  {
    var i :| 0 <= i < |rs| && rs[i] == q;
    var j :| 0 <= j < |rs| && rs[j] == r;
    assert i == j;
  }

  lemma {:induction false} ExactDetermines(a: ProtocolConfig, b: ProtocolConfig, rs: seq<Resource>, qs: seq<Resource>,
                                           protocol: string, e: Entries)
    requires KeysExact(a, rs, protocol, e) && EntriesExact(a, rs, protocol, e)
    requires KeysExact(b, qs, protocol, e) && EntriesExact(b, qs, protocol, e)
    requires NamesOf(rs, protocol) == NamesOf(qs, protocol)
    requires InsecureNames(rs, protocol, e) == InsecureNames(qs, protocol, e)
    requires forall r :: r in rs <==> r in qs
    ensures a == b
  {
    forall n | n in a.routers
      ensures n in a.services && n in b.routers && n in b.services && a.routers[n] == b.routers[n]
      ensures a.services[n] == b.services[n]
    {
      var r := ResourceAt(a, rs, protocol, e, n);
      EntryOf(b, qs, protocol, e, r);
    }
    SameSkips(a.transports, b.transports);
    MapsEqual(a.routers, b.routers);
    MapsEqual(a.services, b.services);
  }

  lemma {:induction false} MapsEqual<V>(a: map<string, V>, b: map<string, V>)
    requires a.Keys == b.Keys && forall n :: n in a ==> n in b && a[n] == b[n]
    ensures a == b
  {
  }

  /** The order in which resources come does not matter. */
  lemma {:induction false} PermutationInvariant(rs: seq<Resource>, qs: seq<Resource>, now: int)
    requires UniqueNames(rs) && UniqueNames(qs) && forall r :: r in rs <==> r in qs
    ensures Compiled(rs, now) == Compiled(qs, now)
  {
    forall p | Known(p)
      ensures Section(Compiled(rs, now), p) == Section(Compiled(qs, now), p)
    {
      CompiledExact(rs, p, now);
      CompiledExact(qs, p, now);
      assert NamesOf(rs, p) == NamesOf(qs, p)
          && InsecureNames(rs, p, EntriesAt(now)) == InsecureNames(qs, p, EntriesAt(now));
      var a, b := Section(Compiled(rs, now), p), Section(Compiled(qs, now), p);
      if a.Some? {
        ExactDetermines(a.value, b.value, rs, qs, p, EntriesAt(now));
      }
    }
    assert Known("http") && Known("tcp") && Known("udp");
    var a, b := Compiled(rs, now), Compiled(qs, now);
    assert Section(a, "http") == Section(b, "http") && Section(a, "tcp") == Section(b, "tcp")
        && Section(a, "udp") == Section(b, "udp");
  }

  /**
   * Changing one resource, its protocol included, leaves every other resource's router, service and transport as
   * they were.
   */
  lemma {:induction false} Isolation(rs: seq<Resource>, i: nat, changed: Resource, j: nat, now: int)
    requires UniqueNames(rs) && i < |rs| && j < |rs| && i != j && changed.name == rs[i].name && Known(rs[j].protocol)
    ensures var a := Section(Compiled(rs, now), rs[j].protocol);
            var b := Section(Compiled(rs[i := changed], now), rs[j].protocol);
            var n := rs[j].name;
            && a.Some? && b.Some? && n in a.value.routers && n in b.value.routers && n in a.value.services
               && n in b.value.services
            && a.value.routers[n] == b.value.routers[n] && a.value.services[n] == b.value.services[n]
            && (TransportName(n) in a.value.transports <==> TransportName(n) in b.value.transports)
  {
    var qs, r := rs[i := changed], rs[j];
    assert qs[j] == r && r in rs && r in qs;
    CompiledExact(rs, r.protocol, now);
    CompiledExact(qs, r.protocol, now);
    assert r.name in NamesOf(rs, r.protocol) && r.name in NamesOf(qs, r.protocol);
    if r.protocol == "http" {
      InsecureExactly(rs, r, now);
      InsecureExactly(qs, r, now);
    }
  }

  /** Whether a rule matches by pattern shows in its text. */
  lemma RuleShape(domain: string)
    ensures HostRule.IsWildcard(domain) <==> |HostRule.Rule(domain)| > 4 && HostRule.Rule(domain)[4] == 'R'
  {
  }

  /** With a resolver set, explicit TLS domains are emitted exactly for `HostRegexp` rules, and then for that domain. */
  lemma TlsDomainsForWildcards(rs: seq<Resource>, r: Resource, now: int)
    requires UniqueNames(rs) && r in rs && r.protocol == "http"
    requires r.certResolver.Some? && r.certResolver.value != "" && r.domain.Some? && r.domain.value != ""
    ensures var s := Section(Compiled(rs, now), "http");
            && s.Some? && r.name in s.value.routers && s.value.routers[r.name].tls.Some?
            && var router := s.value.routers[r.name];
               && (router.tls.value.domains != [] <==> |router.rule| > 4 && router.rule[4] == 'R')
               && (router.tls.value.domains != [] ==> router.tls.value.domains == [r.domain.value])
  {
    CompiledExact(rs, "http", now);
    assert r.name in NamesOf(rs, "http");
    RuleShape(r.domain.value);
  }

  /** Two targets give the same server text, http or not, exactly if they have the same address and port. */
  lemma {:induction false} ServerShowsTarget(scheme: string, t: Target, u: Target)
    ensures HttpServer(scheme, t) == HttpServer(scheme, u) <==> t.address == u.address && t.port == u.port
    ensures t.address + ":" + Decimal(t.port) == u.address + ":" + Decimal(u.port)
            <==> t.address == u.address && t.port == u.port
  {
    var x, y := scheme + "://" + t.address, scheme + "://" + u.address;
    HostPortInjective(x, t.port, y, u.port);
    HostPortInjective(t.address, t.port, u.address, u.port);
    if x == y {
      assert t.address == x[|scheme| + 3..] && u.address == y[|scheme| + 3..];
    }
  }

  /** In the configuration of uniquely named resources. */
  ghost predicate ServedAs(rs: seq<Resource>, r: Resource, now: int, s: Service) {
    var section := Section(Compiled(rs, now), r.protocol);
    section.Some? && r.name in section.value.services && section.value.services[r.name] == s
  }

  /**
   * An http service has one server for each target, in order; it has a cookie and a health check exactly if the
   * resource is sticky; and no two services share a cookie.
   */
  lemma {:induction false} HttpServed(rs: seq<Resource>, q: Resource, r: Resource, now: int, a: Service, b: Service)
    requires UniqueNames(rs) && q in rs && r in rs && q.protocol == "http" && r.protocol == "http"
    requires ServedAs(rs, q, now, a) && ServedAs(rs, r, now, b)
    ensures |a.servers| == |q.targets|
    ensures forall i :: 0 <= i < |q.targets| ==> a.servers[i] == HttpServer(Scheme(q), q.targets[i])
    ensures (a.stickyCookie.Some? <==> q.sticky) && (a.healthCheck.Some? <==> q.sticky)
    ensures a.stickyCookie.Some? && a.stickyCookie == b.stickyCookie ==> q == r
  {
    CompiledExact(rs, "http", now);
    assert a == HttpService(q) && b == HttpService(r);
    if a.stickyCookie.Some? && a.stickyCookie == b.stickyCookie {
      var x, y := "rvtx_lb_" + q.name, "rvtx_lb_" + r.name;
      assert x == y && q.name == x[8..] && r.name == y[8..];
      SameName(rs, q, r);
    }
  }
}

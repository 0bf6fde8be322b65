/** What Traefik is given for each resource, text by text. */
module EmittedConfig {
  import opened Wrappers
  import opened Clock
  import opened Text
  import opened HostRule
  import opened TraefikConfig

  // ----- http -----

  /** A resource's entries are in its protocol's section. */
  lemma {:induction false} InSection(rs: seq<Resource>, r: Resource, now: int)
    requires UniqueNames(rs) && r in rs && Known(r.protocol)
    ensures var s := Section(Compiled(rs, now), r.protocol);
            && s.Some? && r.name in s.value.routers && r.name in s.value.services
            && s.value.routers[r.name] == RouterOf(r) && s.value.services[r.name] == ServiceOf(r, now)
  {
    CompiledExact(rs, r.protocol, now);
    assert r.name in NamesOf(rs, r.protocol);
  }

  /** The service, the entry point and the resolver of an http router, and its rule if it has no wildcard. */
  lemma {:induction false} HttpRouted(rs: seq<Resource>, r: Resource, now: int)
    requires UniqueNames(rs) && r in rs && r.protocol == "http"
    ensures Compiled(rs, now).http.Some? && r.name in Compiled(rs, now).http.value.routers
    ensures var router := Compiled(rs, now).http.value.routers[r.name];
            && router.service == r.name && router.entryPoints == [r.entryPoint]
            && (r.domain == None || r.domain == Some("") ==> router.rule == "PathPrefix(`/`)")
            && (r.domain.Some? && r.domain.value != "" && !("*." <= r.domain.value) ==>
                  router.rule == "Host(`" + r.domain.value + "`)")
            && (router.tls.None? <==> r.certResolver == None || r.certResolver == Some(""))
            && (router.tls.Some? ==>
                  && Some(router.tls.value.certResolver) == r.certResolver
                  && router.tls.value.domains
                  == if r.domain.Some? && "*." <= r.domain.value then [r.domain.value] else [])
  {
    InSection(rs, r, now);
  }

  /**
   * A wildcard domain with a plain suffix gets a rule whose pattern is read, and matches exactly the hosts of one
   * label under that suffix.
   */
  lemma {:induction false} WildcardRouted(rs: seq<Resource>, r: Resource, suffix: string, now: int) returns (p: string)
    requires UniqueNames(rs) && r in rs && r.protocol == "http" && r.domain == Some("*." + suffix)
    requires PlainText(suffix)
    ensures Compiled(rs, now).http.Some? && r.name in Compiled(rs, now).http.value.routers
    ensures Compiled(rs, now).http.value.routers[r.name].rule == "HostRegexp(`" + p + "`)"
    ensures ParsePattern(p).Some?
    ensures forall host :: Matches(ParsePattern(p).value, host) <==> OneLabelUnder(host, suffix)
  {
    InSection(rs, r, now);
    p := WildcardPattern(suffix);
    assert ("*." + suffix)[2..] == suffix && ("*." + suffix)[..2] == "*.";
    forall host: string
      ensures ParsePattern(p).Some? && (Matches(ParsePattern(p).value, host) <==> OneLabelUnder(host, suffix))
    {
      WildcardMeaning(suffix, host);
    }
    WildcardMeaning(suffix, "");
  }

  /** One server for each target, by scheme, address and port. */
  lemma {:induction false} HttpBalanced(rs: seq<Resource>, r: Resource, now: int)
    requires UniqueNames(rs) && r in rs && r.protocol == "http"
    ensures Compiled(rs, now).http.Some? && r.name in Compiled(rs, now).http.value.services
    ensures var servers := Compiled(rs, now).http.value.services[r.name].servers;
            var scheme := if r.targetScheme == "" then "http" else r.targetScheme;
            && |servers| == |r.targets|
            && forall i :: 0 <= i < |r.targets| ==>
                 servers[i] == Server(scheme + "://" + r.targets[i].address + ":" + Decimal(r.targets[i].port), "")
  {
    InSection(rs, r, now);
  }

  /** Cookie and health check exactly where sticky; a transport of its own exactly where https skips verification. */
  lemma {:induction false} HttpOptions(rs: seq<Resource>, r: Resource, now: int)
    requires UniqueNames(rs) && r in rs && r.protocol == "http"
    ensures Compiled(rs, now).http.Some? && r.name in Compiled(rs, now).http.value.services
    ensures var service := Compiled(rs, now).http.value.services[r.name];
            && service.stickyCookie == (if r.sticky then Some("rvtx_lb_" + r.name) else None)
            && service.healthCheck == (if r.sticky then Some(HealthCheck("/", "10s", "3s")) else None)
            && service.serversTransport
            == if r.targetScheme == "https" && r.targetSkipVerify then r.name + "-insecure" else ""
  {
    InSection(rs, r, now);
  }

  /** The transport a service names is there, and skips verification. */
  lemma {:induction false} HttpTransport(rs: seq<Resource>, r: Resource, now: int)
    requires UniqueNames(rs) && r in rs && r.protocol == "http" && r.targetScheme == "https" && r.targetSkipVerify
    ensures var http := Compiled(rs, now).http;
            && http.Some? && r.name + "-insecure" in http.value.transports
            && http.value.transports[r.name + "-insecure"]
  {
    CompiledExact(rs, "http", now);
    assert r.name in NamesOf(rs, "http");
    EntryOf(Compiled(rs, now).http.value, rs, "http", EntriesAt(now), r);
  }

  // ----- tcp and udp -----

  lemma {:induction false} TcpRouted(rs: seq<Resource>, r: Resource, now: int)
    requires UniqueNames(rs) && r in rs && r.protocol == "tcp"
    ensures Compiled(rs, now).tcp.Some? && r.name in Compiled(rs, now).tcp.value.routers
    ensures Compiled(rs, now).tcp.value.routers[r.name]
         == Router(if r.domain == None || r.domain == Some("") then "HostSNI(`*`)"
                   else "HostSNI(`" + r.domain.value + "`)", r.name, [r.entryPoint], None)
  {
    InSection(rs, r, now);
  }

  lemma {:induction false} UdpRouted(rs: seq<Resource>, r: Resource, now: int)
    requires UniqueNames(rs) && r in rs && r.protocol == "udp"
    ensures Compiled(rs, now).udp.Some? && r.name in Compiled(rs, now).udp.value.routers
    ensures Compiled(rs, now).udp.value.routers[r.name] == Router("", r.name, [r.entryPoint], None)
  {
    InSection(rs, r, now);
  }

  /** The single server of a tcp or udp resource with one target. */
  lemma {:induction false} SingleServed(rs: seq<Resource>, r: Resource, now: int)
    requires UniqueNames(rs) && r in rs && r.protocol in {"tcp", "udp"} && |r.targets| == 1
    ensures var s := if r.protocol == "tcp" then Compiled(rs, now).tcp else Compiled(rs, now).udp;
            && s.Some? && r.name in s.value.services
            && s.value.services[r.name]
            == Service([Server("", r.targets[0].address + ":" + Decimal(r.targets[0].port))], None, None, "")
  {
    InSection(rs, r, now);
  }

  /** The single server of a pair: the primary if it is external or was seen at most 45 seconds ago, else the backup. */
  lemma {:induction false} PairServed(rs: seq<Resource>, r: Resource, p: Target, b: Target, now: int)
    requires UniqueNames(rs) && r in rs && r.protocol in {"tcp", "udp"}
    requires p.role == "primary" && b.role == "backup" && (r.targets == [p, b] || r.targets == [b, p])
    ensures var s := if r.protocol == "tcp" then Compiled(rs, now).tcp else Compiled(rs, now).udp;
            var t := if p.external || (p.lastSeen.Some? && now - p.lastSeen.value <= 45 * SECOND) then p else b;
            && s.Some? && r.name in s.value.services
            && s.value.services[r.name] == Service([Server("", t.address + ":" + Decimal(t.port))], None, None, "")
  {
    InSection(rs, r, now);
    SelectedOfPair(r.targets, p, b, now);
  }
}

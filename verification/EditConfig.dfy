/** Whether an untouched edit changes what Traefik is told. */
module EditConfig {
  import opened Wrappers
  import opened Text
  import opened Bags
  import opened TraefikConfig
  import opened ResourceStore
  import opened ResourceListing
  import opened EditForm
  import opened EditRoundTrip

  // ----- configurations, up to the order of servers with the same role -----

  /** The role that sorts first. */
  function Lead(le: Collation): string {
    if le("backup", "primary") then "backup" else "primary"
  }

  function HasRole(role: string): Target -> bool {
    (t: Target) => t.role == role
  }

  function Leading(le: Collation, ts: seq<Target>): nat {
    |Filtered(ts, HasRole(Lead(le)))|
  }

  /** Equal, but for the order of the first `k` servers among themselves and of the others among themselves. */
  ghost predicate ServicesAlike(a: Service, b: Service, k: nat) {
    && a.(servers := []) == b.(servers := [])
    && |a.servers| == |b.servers| && k <= |a.servers|
    && multiset(a.servers[..k]) == multiset(b.servers[..k]) && multiset(a.servers[k..]) == multiset(b.servers[k..])
  }

  /**
   * One resource listed twice: the same router and transport, and services alike. Only an http pool has an order
   * to vary.
   */
  ghost predicate Alike(le: Collation, q: Resource, r: Resource, now: int) {
    && q.name == r.name && q.protocol == r.protocol
    && RouterOf(q) == RouterOf(r) && Insecure(q) == Insecure(r)
    && (q.protocol == "http" ==> ServicesAlike(ServiceOf(q, now), ServiceOf(r, now), Leading(le, q.targets)))
    && (q.protocol != "http" ==> ServiceOf(q, now) == ServiceOf(r, now))
  }

  ghost predicate SectionsAlike(le: Collation, qs: seq<Resource>, protocol: string, a: ProtocolConfig,
                                b: ProtocolConfig) {
    && a.routers == b.routers && a.transports == b.transports && a.services.Keys == b.services.Keys
    && forall q :: q in qs && q.protocol == protocol ==>
         && q.name in a.services && q.name in b.services
         && (protocol == "http" ==> ServicesAlike(a.services[q.name], b.services[q.name], Leading(le, q.targets)))
         && (protocol != "http" ==> a.services[q.name] == b.services[q.name])
  }

  /** Both sections are absent, or there and alike. */
  ghost predicate BothAlike(le: Collation, qs: seq<Resource>, protocol: string, a: Option<ProtocolConfig>,
                            b: Option<ProtocolConfig>) {
    (a.None? <==> b.None?) && (a.Some? ==> SectionsAlike(le, qs, protocol, a.value, b.value))
  }

  /** The configurations of two listings agree in every section. */
  ghost predicate ConfigsAlike(le: Collation, qs: seq<Resource>, rs: seq<Resource>, now: int) {
    forall p :: Known(p) ==> BothAlike(le, qs, p, Section(Compiled(qs, now), p), Section(Compiled(rs, now), p))
  }

  // ----- one resource -----

  lemma {:induction false} RoleBlocks(ts: seq<Target>, le: Collation, first: string, other: string)
    requires SortedByRole(ts, le) && first != other && !le(other, first)
    requires forall i :: 0 <= i < |ts| ==> ts[i].role in {first, other}
    ensures ts == Filtered(ts, HasRole(first)) + Filtered(ts, HasRole(other))
  {
    if ts != [] {
      var n := |ts| - 1;
      RoleBlocks(ts[..n], le, first, other);
      if ts[n].role == first {
        forall t | t in ts[..n]
          ensures t.role != other
        {
        }
        FilteredNone(ts[..n], HasRole(other));
      }
    }
  }

  function ServerFor(scheme: string): Target -> Server {
    (t: Target) => HttpServer(scheme, t)
  }

  /** Two role-sorted orders of the same pool yield servers that differ only within a role. */
  lemma {:induction false} PoolsAlike(le: Collation, ts: seq<Target>, us: seq<Target>, scheme: string)
    requires IsCollation(le) && SortedByRole(ts, le) && SortedByRole(us, le) && multiset(ts) == multiset(us)
    requires forall t :: t in ts ==> t.role in {"primary", "backup"}
    ensures var a, b, k := HttpServers(scheme, ts), HttpServers(scheme, us), Leading(le, ts);
            k <= |a| == |b| && multiset(a[..k]) == multiset(b[..k]) && multiset(a[k..]) == multiset(b[k..])
  {
    SameSize(ts, us);
    var first := Lead(le);
    var other := if first == "backup" then "primary" else "backup";
    assert !le(other, first);
    RoleBlocks(ts, le, first, other);
    RoleBlocks(us, le, first, other);
    FilteredPermutation(ts, us, HasRole(first));
    FilteredPermutation(ts, us, HasRole(other));
    var t1, t2 := Filtered(ts, HasRole(first)), Filtered(ts, HasRole(other));
    var u1, u2 := Filtered(us, HasRole(first)), Filtered(us, HasRole(other));
    SameSize(t1, u1);
    ServersSplit(scheme, t1, t2);
    ServersSplit(scheme, u1, u2);
    MappedPermutation(t1, u1, ServerFor(scheme));
    MappedPermutation(t2, u2, ServerFor(scheme));
  }

  lemma {:induction false} ServersSplit(scheme: string, first: seq<Target>, others: seq<Target>)
    ensures HttpServers(scheme, first + others)[..|first|] == Mapped(first, ServerFor(scheme))
    ensures HttpServers(scheme, first + others)[|first|..] == Mapped(others, ServerFor(scheme))
  {
  }

  lemma {:induction false} PairRoles(protocol: string, ts: seq<Target>) returns (p: Target, b: Target)
    requires protocol != "http" && |ts| == 2 && Shape(protocol, TargetRoles(ts))
    ensures p.role == "primary" && b.role == "backup" && (ts == [p, b] || ts == [b, p])
  {
    assert TargetRoles(ts)[0] == ts[0].role && TargetRoles(ts)[1] == ts[1].role;
    if ts[0].role == "primary" {
      p, b := ts[0], ts[1];
    } else {
      p, b := ts[1], ts[0];
    }
  }

  /** The choice between primary and backup does not depend on their order. */
  lemma {:induction false} SelectionAlike(ts: seq<Target>, us: seq<Target>, protocol: string, now: int)
    requires multiset(ts) == multiset(us) && protocol != "http" && Shape(protocol, TargetRoles(ts))
    ensures Selected(ts, now) == Selected(us, now)
  {
    SameSize(ts, us);
    if |ts| == 1 {
      assert ts[0] in us;
    } else {
      ShapeBounds(protocol, TargetRoles(ts));
      var p, b := PairRoles(protocol, ts);
      TwoElements(us, ts);
      SelectedOfPair(ts, p, b, now);
      SelectedOfPair(us, p, b, now);
    }
  }

  /** A tcp rule names the domain, unless it is missing, empty or the catch-all itself. */
  predicate DomainLost(f: Fields) {
    f.protocol == "tcp" && f.domain.Some? && f.domain.value != "" && f.domain.value != "*"
  }

  lemma {:induction false} ResolvedPermutation(nodes: map<nat, NodeRow>, bs: seq<Backend>, cs: seq<Backend>)
    requires multiset(bs) == multiset(cs)
    ensures multiset(ResolvedAll(nodes, bs)) == multiset(ResolvedAll(nodes, cs))
  {
    var f := (b: Backend) => Resolved(nodes, b);
    MappedPermutation(bs, cs, f);
    assert Mapped(bs, f) == ResolvedAll(nodes, bs) && Mapped(cs, f) == ResolvedAll(nodes, cs);
  }

  /** Routers and transports of a resource and of the same one with the columns an untouched edit leaves it. */
  lemma {:induction false} RouterKept(row: ResourceRow, ts: seq<Target>, us: seq<Target>)
    requires Known(row.fields.protocol)
    ensures var q, r := Entry(row, ts), Entry(ResourceRow(row.name, NoOpFields(row.fields)), us);
            Insecure(q) == Insecure(r) && (RouterOf(q) == RouterOf(r) <==> !DomainLost(row.fields))
  {
    if row.fields.protocol == "tcp" && row.fields.domain.Some? {
      TcpRuleExact(row.fields.domain);
    }
  }

  lemma {:induction false} RouterSame(row: ResourceRow, ts: seq<Target>, us: seq<Target>)
    ensures var q, r := Entry(row, ts), Entry(row, us);
            Insecure(q) == Insecure(r) && RouterOf(q) == RouterOf(r)
  {
  }

  lemma {:induction false} TcpRuleExact(domain: Option<string>)
    requires domain.Some?
    ensures "HostSNI(`" + domain.value + "`)" == "HostSNI(`*`)" <==> domain.value == "*"
  {
    var rule := "HostSNI(`" + domain.value + "`)";
    if rule == "HostSNI(`*`)" {
      assert |rule| == |domain.value| + 11;
      assert rule[9] == domain.value[0];
    }
  }

  lemma {:induction false} HttpAlike(le: Collation, q: Resource, r: Resource, now: int)
    requires IsCollation(le) && q.protocol == "http" && r.protocol == "http" && q.name == r.name
    requires SortedByRole(q.targets, le) && SortedByRole(r.targets, le) && multiset(q.targets) == multiset(r.targets)
    requires forall t :: t in q.targets ==> t.role in {"primary", "backup"}
    requires q.targetScheme == r.targetScheme && q.sticky == r.sticky && Insecure(q) == Insecure(r)
    ensures ServicesAlike(ServiceOf(q, now), ServiceOf(r, now), Leading(le, q.targets))
  {
    PoolsAlike(le, q.targets, r.targets, Scheme(q));
  }

  lemma {:induction false} OtherAlike(q: Resource, r: Resource, now: int)
    requires q.protocol != "http" && q.protocol == r.protocol && multiset(q.targets) == multiset(r.targets)
    requires Shape(q.protocol, TargetRoles(q.targets))
    ensures ServiceOf(q, now) == ServiceOf(r, now)
  {
    SelectionAlike(q.targets, r.targets, q.protocol, now);
  }

  lemma {:induction false} RelistedTargets(db: DB, le: Collation, edited: nat, after: DB, id: nat, q: Resource,
                                           r: Resource)
    requires OnlyRewritten(db, edited, after) && IsListed(db, le, id, q) && IsListed(after, le, id, r)
    ensures multiset(q.targets) == multiset(r.targets)
  {
    if id == edited {
      ResolvedPermutation(db.nodes, BackendsOf(db.targets, id), BackendsOf(after.targets, id));
    }
  }

  lemma {:induction false} RelistedServices(db: DB, le: Collation, edited: nat, after: DB, id: nat, q: Resource,
                                            r: Resource, now: int)
    requires IsCollation(le) && Valid(db) && OnlyRewritten(db, edited, after)
    requires IsListed(db, le, id, q) && IsListed(after, le, id, r)
    requires Insecure(q) == Insecure(r)
    ensures q.protocol == "http" ==> ServicesAlike(ServiceOf(q, now), ServiceOf(r, now), Leading(le, q.targets))
    ensures q.protocol != "http" ==> ServiceOf(q, now) == ServiceOf(r, now)
  {
    RelistedTargets(db, le, edited, after, id, q, r);
    if q.protocol == "http" {
      ListedRoles(db, le, id, q);
      HttpAlike(le, q, r, now);
    } else {
      PermutedShape(q.protocol, db.nodes, BackendsOf(db.targets, id), q.targets);
      OtherAlike(q, r, now);
    }
  }

  /** The same resource in listings before and after: all alike, unless it is the edited one and loses its domain. */
  lemma {:induction false} RelistedAlike(db: DB, le: Collation, edited: nat, after: DB, id: nat, q: Resource,
                                         r: Resource, now: int)
    requires IsCollation(le) && Valid(db) && OnlyRewritten(db, edited, after)
    requires IsListed(db, le, id, q) && IsListed(after, le, id, r)
    ensures q.name == r.name && q.protocol == r.protocol
    ensures RouterOf(q) == RouterOf(r) <==> !(id == edited && DomainLost(db.resources[id].fields))
    ensures RouterOf(q) == RouterOf(r) ==> Alike(le, q, r, now)
  {
    if id == edited {
      RouterKept(db.resources[id], q.targets, r.targets);
    } else {
      RouterSame(db.resources[id], q.targets, r.targets);
    }
    RelistedServices(db, le, edited, after, id, q, r, now);
  }

  // ----- all resources -----

  ghost function AllNames(qs: seq<Resource>): set<string> {
    set q | q in qs :: q.name
  }

  /** Resources of the same name are alike. */
  ghost predicate AlikeByName(le: Collation, qs: seq<Resource>, rs: seq<Resource>, now: int) {
    forall q, r :: q in qs && r in rs && q.name == r.name ==> Alike(le, q, r, now)
  }

  lemma {:induction false} AlikeNames(le: Collation, qs: seq<Resource>, rs: seq<Resource>, p: string, now: int)
    requires AllNames(qs) == AllNames(rs) && AlikeByName(le, qs, rs, now)
    ensures NamesOf(qs, p) <= NamesOf(rs, p)
    ensures InsecureNames(qs, p, EntriesAt(now)) <= InsecureNames(rs, p, EntriesAt(now))
  {
    forall q | q in qs
      ensures exists r :: r in rs && Alike(le, q, r, now)
    {
      assert q.name in AllNames(qs);
      var r :| r in rs && r.name == q.name;
    }
  }

  lemma {:induction false} AlikeNamesBack(le: Collation, qs: seq<Resource>, rs: seq<Resource>, p: string, now: int)
    requires AllNames(qs) == AllNames(rs) && AlikeByName(le, qs, rs, now)
    ensures NamesOf(rs, p) <= NamesOf(qs, p)
    ensures InsecureNames(rs, p, EntriesAt(now)) <= InsecureNames(qs, p, EntriesAt(now))
  {
    forall r | r in rs
      ensures exists q :: q in qs && Alike(le, q, r, now)
    {
      assert r.name in AllNames(rs);
      var q :| q in qs && q.name == r.name;
    }
  }

  lemma {:induction false} SameNames(le: Collation, qs: seq<Resource>, rs: seq<Resource>, p: string, now: int)
    requires AllNames(qs) == AllNames(rs) && AlikeByName(le, qs, rs, now)
    ensures NamesOf(qs, p) == NamesOf(rs, p)
    ensures InsecureNames(qs, p, EntriesAt(now)) == InsecureNames(rs, p, EntriesAt(now))
  {
    AlikeNames(le, qs, rs, p, now);
    AlikeNamesBack(le, qs, rs, p, now);
  }

  ghost predicate EntriesAlike(le: Collation, e: Entries, q: Resource, r: Resource) {
    && q.name == r.name && q.protocol == r.protocol && e.router(q) == e.router(r)
    && (q.protocol == "http" ==> ServicesAlike(e.service(q), e.service(r), Leading(le, q.targets)))
    && (q.protocol != "http" ==> e.service(q) == e.service(r))
  }

  ghost predicate EntriesAlikeByName(le: Collation, e: Entries, qs: seq<Resource>, rs: seq<Resource>) {
    forall q, r :: q in qs && r in rs && q.name == r.name ==> EntriesAlike(le, e, q, r)
  }

  lemma {:induction false} Namesake(le: Collation, e: Entries, qs: seq<Resource>, rs: seq<Resource>, p: string,
                                    q: Resource)
    returns (r: Resource)
    requires NamesOf(qs, p) == NamesOf(rs, p) && EntriesAlikeByName(le, e, qs, rs) && q in qs && q.protocol == p
    ensures r in rs && r.protocol == p && EntriesAlike(le, e, q, r)
  {
    assert q.name in NamesOf(qs, p);
    r :| r in rs && r.protocol == p && r.name == q.name;
  }

  lemma {:induction false} ExactRouters(le: Collation, qs: seq<Resource>, rs: seq<Resource>, p: string, e: Entries,
                                        a: ProtocolConfig, b: ProtocolConfig)
    requires KeysExact(a, qs, p, e) && EntriesExact(a, qs, p, e) && KeysExact(b, rs, p, e) && EntriesExact(b, rs, p, e)
    requires NamesOf(qs, p) == NamesOf(rs, p) && EntriesAlikeByName(le, e, qs, rs)
    ensures a.routers == b.routers
  {
    forall n | n in a.routers
      ensures n in b.routers && a.routers[n] == b.routers[n]
    {
      var q := ResourceAt(a, qs, p, e, n);
      var r := Namesake(le, e, qs, rs, p, q);
      EntryOf(b, rs, p, e, r);
    }
    MapsEqual(a.routers, b.routers);
  }

  lemma {:induction false} ExactServices(le: Collation, qs: seq<Resource>, rs: seq<Resource>, p: string, e: Entries,
                                         a: ProtocolConfig, b: ProtocolConfig, q: Resource)
    requires KeysExact(a, qs, p, e) && EntriesExact(a, qs, p, e) && KeysExact(b, rs, p, e) && EntriesExact(b, rs, p, e)
    requires NamesOf(qs, p) == NamesOf(rs, p) && EntriesAlikeByName(le, e, qs, rs) && q in qs && q.protocol == p
    ensures q.name in a.services && q.name in b.services
    ensures p == "http" ==> ServicesAlike(a.services[q.name], b.services[q.name], Leading(le, q.targets))
    ensures p != "http" ==> a.services[q.name] == b.services[q.name]
  {
    var r := Namesake(le, e, qs, rs, p, q);
    EntryOf(a, qs, p, e, q);
    EntryOf(b, rs, p, e, r);
  }

  lemma {:induction false} ExactSectionsAlike(le: Collation, qs: seq<Resource>, rs: seq<Resource>, p: string,
                                              e: Entries, a: ProtocolConfig, b: ProtocolConfig)
    requires KeysExact(a, qs, p, e) && EntriesExact(a, qs, p, e) && KeysExact(b, rs, p, e) && EntriesExact(b, rs, p, e)
    requires NamesOf(qs, p) == NamesOf(rs, p) && InsecureNames(qs, p, e) == InsecureNames(rs, p, e)
    requires EntriesAlikeByName(le, e, qs, rs)
    ensures SectionsAlike(le, qs, p, a, b)
  {
    ExactRouters(le, qs, rs, p, e, a, b);
    SameSkips(a.transports, b.transports);
    forall q | q in qs && q.protocol == p
      ensures q.name in a.services && q.name in b.services
      ensures p == "http" ==> ServicesAlike(a.services[q.name], b.services[q.name], Leading(le, q.targets))
      ensures p != "http" ==> a.services[q.name] == b.services[q.name]
    {
      ExactServices(le, qs, rs, p, e, a, b, q);
    }
  }

  lemma {:induction false} AlikeEntries(le: Collation, qs: seq<Resource>, rs: seq<Resource>, now: int)
    requires AlikeByName(le, qs, rs, now)
    ensures EntriesAlikeByName(le, EntriesAt(now), qs, rs)
  {
    forall q, r | q in qs && r in rs && q.name == r.name
      ensures EntriesAlike(le, EntriesAt(now), q, r)
    {
      assert Alike(le, q, r, now);
    }
  }

  lemma {:induction false} ExactAlike(le: Collation, qs: seq<Resource>, rs: seq<Resource>, p: string, e: Entries,
                                      a: Option<ProtocolConfig>, b: Option<ProtocolConfig>)
    requires SectionExact(a, qs, p, e) && SectionExact(b, rs, p, e)
    requires NamesOf(qs, p) == NamesOf(rs, p) && InsecureNames(qs, p, e) == InsecureNames(rs, p, e)
    requires EntriesAlikeByName(le, e, qs, rs)
    ensures BothAlike(le, qs, p, a, b)
  {
    if a.Some? {
      ExactSectionsAlike(le, qs, rs, p, e, a.value, b.value);
    }
  }

  lemma {:induction false} AlikeSections(le: Collation, qs: seq<Resource>, rs: seq<Resource>, p: string, now: int)
    requires UniqueNames(qs) && UniqueNames(rs) && Known(p)
    requires AllNames(qs) == AllNames(rs) && AlikeByName(le, qs, rs, now)
    ensures BothAlike(le, qs, p, Section(Compiled(qs, now), p), Section(Compiled(rs, now), p))
  {
    CompiledExact(qs, p, now);
    CompiledExact(rs, p, now);
    SameNames(le, qs, rs, p, now);
    AlikeEntries(le, qs, rs, now);
    ExactAlike(le, qs, rs, p, EntriesAt(now), Section(Compiled(qs, now), p), Section(Compiled(rs, now), p));
  }

  lemma {:induction false} ListedOnce(db: DB, le: Collation, qs: seq<Resource>, ids: seq<nat>, id: nat)
      returns (q: Resource)
    requires Listing(db, le, qs, ids) && id in db.resources
    ensures q in qs && IsListed(db, le, id, q)
  {
    var i :| 0 <= i < |ids| && ids[i] == id;
    q := qs[i];
  }

  lemma {:induction false} ListedFrom(db: DB, le: Collation, qs: seq<Resource>, ids: seq<nat>, q: Resource)
      returns (id: nat)
    requires Listing(db, le, qs, ids) && q in qs
    ensures IsListed(db, le, id, q)
  {
    var i :| 0 <= i < |qs| && qs[i] == q;
    id := ids[i];
  }

  lemma {:induction false} ListingNames(db: DB, le: Collation, qs: seq<Resource>, ids: seq<nat>)
    requires Listing(db, le, qs, ids)
    ensures AllNames(qs) == set id | id in db.resources :: db.resources[id].name
  {
    forall id | id in db.resources
      ensures db.resources[id].name in AllNames(qs)
    {
      var q := ListedOnce(db, le, qs, ids, id);
    }
    forall q | q in qs
      ensures exists id :: id in db.resources && db.resources[id].name == q.name
    {
      var id := ListedFrom(db, le, qs, ids, q);
    }
  }

  lemma {:induction false} RelistedNames(db: DB, le: Collation, qs: seq<Resource>, ids: seq<nat>, edited: nat,
                                         after: DB, rs: seq<Resource>, later: seq<nat>)
    requires OnlyRewritten(db, edited, after) && Listing(db, le, qs, ids) && Listing(after, le, rs, later)
    ensures AllNames(qs) == AllNames(rs)
  {
    ListingNames(db, le, qs, ids);
    ListingNames(after, le, rs, later);
    forall id | id in db.resources
      ensures id in after.resources && after.resources[id].name == db.resources[id].name
    {
    }
    assert after.resources.Keys == db.resources.Keys;
  }

  lemma {:induction false} RelistedByName(db: DB, le: Collation, qs: seq<Resource>, ids: seq<nat>, edited: nat,
                                          after: DB, rs: seq<Resource>, later: seq<nat>, now: int)
    requires IsCollation(le) && Valid(db) && OnlyRewritten(db, edited, after)
    requires Listing(db, le, qs, ids) && Listing(after, le, rs, later) && !DomainLost(db.resources[edited].fields)
    ensures AlikeByName(le, qs, rs, now)
  {
    forall q, r | q in qs && r in rs && q.name == r.name
      ensures Alike(le, q, r, now)
    {
      var id := ListedFrom(db, le, qs, ids, q);
      var same := ListedFrom(after, le, rs, later, r);
      assert id == same;
      RelistedAlike(db, le, edited, after, id, q, r, now);
    }
  }

  lemma {:induction false} AllSectionsAlike(le: Collation, qs: seq<Resource>, rs: seq<Resource>, now: int)
    requires UniqueNames(qs) && UniqueNames(rs) && AllNames(qs) == AllNames(rs) && AlikeByName(le, qs, rs, now)
    ensures ConfigsAlike(le, qs, rs, now)
  {
    forall p | Known(p)
      ensures BothAlike(le, qs, p, Section(Compiled(qs, now), p), Section(Compiled(rs, now), p))
    {
      AlikeSections(le, qs, rs, p, now);
    }
  }

  /**
   * After an untouched edit, whatever order the database gives equal rows in before and after, Traefik's
   * configuration is the same up to the order of servers with the same role exactly unless a tcp resource had
   * a domain other than the catch-all: then its rule loses the domain.
   */
  lemma {:induction false} NoOpConfig(db: DB, le: Collation, qs: seq<Resource>, ids: seq<nat>, edited: nat, after: DB,
                                      rs: seq<Resource>, later: seq<nat>, now: int)
    requires IsCollation(le) && Valid(db) && OnlyRewritten(db, edited, after)
    requires Listing(db, le, qs, ids) && Listing(after, le, rs, later)
    ensures ConfigsAlike(le, qs, rs, now) <==> !DomainLost(db.resources[edited].fields)
  {
    if DomainLost(db.resources[edited].fields) {
      var q := ListedOnce(db, le, qs, ids, edited);
      var r := ListedOnce(after, le, rs, later, edited);
      RelistedAlike(db, le, edited, after, edited, q, r, now);
      RoutersDiffer(le, qs, rs, q, r, now);
    } else {
      RelistedNames(db, le, qs, ids, edited, after, rs, later);
      RelistedByName(db, le, qs, ids, edited, after, rs, later, now);
      AllSectionsAlike(le, qs, rs, now);
    }
  }

  lemma {:induction false} RoutersDiffer(le: Collation, qs: seq<Resource>, rs: seq<Resource>, q: Resource, r: Resource,
                                         now: int)
    requires UniqueNames(qs) && UniqueNames(rs) && q in qs && r in rs
    requires q.name == r.name && q.protocol == r.protocol && Known(q.protocol) && RouterOf(q) != RouterOf(r)
    ensures !ConfigsAlike(le, qs, rs, now)
  {
    CompiledExact(qs, q.protocol, now);
    CompiledExact(rs, q.protocol, now);
    assert q.name in NamesOf(qs, q.protocol) && r.name in NamesOf(rs, q.protocol);
  }

  // ----- a store in which the domain is lost -----

  /** One resource with one target. */
  function OneOf(row: ResourceRow, b: Backend): DB {
    DB(map[], map[0 := row], [TargetRow(0, b)])
  }

  lemma {:induction false} OneOfValid(row: ResourceRow, b: Backend)
    requires GoodBackend(map[], b) && Known(row.fields.protocol) && row.fields.targetScheme == "http"
    ensures Valid(OneOf(row, b)) && BackendsOf(OneOf(row, b).targets, 0) == [b]
  {
    var none := DB(map[], map[], []);
    assert none.targets + RowsFor(0, [b]) == [TargetRow(0, b)];
    CreateChangesOne(none, 0, row, [b]);
    assert Roles([b]) == [b.role];
    OneChangedKeepsValid(none, 0, row, [b], OneOf(row, b));
  }

  /** A resource with one target is listed in one way. */
  function Single(db: DB): Resource
    requires 0 in db.resources
  {
    Entry(db.resources[0], ResolvedAll(db.nodes, BackendsOf(db.targets, 0)))
  }

  lemma {:induction false} SingleListed(db: DB, le: Collation)
    requires db.resources.Keys == {0} && |BackendsOf(db.targets, 0)| == 1
    ensures IsListed(db, le, 0, Single(db)) && Listing(db, le, [Single(db)], [0])
  {
  }

  lemma {:induction false} SingleRewritten(db: DB, after: DB)
    requires db.resources.Keys == {0} && |BackendsOf(db.targets, 0)| == 1 && OnlyRewritten(db, 0, after)
    ensures after.resources.Keys == {0} && |BackendsOf(after.targets, 0)| == 1
  {
    SameSize(BackendsOf(after.targets, 0), BackendsOf(db.targets, 0));
  }

  lemma {:induction false} SingleEdited(le: Collation, db: DB) returns (cs: seq<Backend>, after: DB)
    requires Valid(db) && db.resources.Keys == {0} && |BackendsOf(db.targets, 0)| == 1
    ensures Updates(db, Single(db).name, FieldsOf(NoOp(Single(db))), Specs(NoOp(Single(db))), cs, after)
    ensures OnlyRewritten(db, 0, after)
  {
    SingleListed(db, le);
    assert db.(nodes := db.nodes) == db;
    cs, after := NoOpEdit(db, le, 0, Single(db), db.nodes);
  }

  lemma {:induction false} SingleConfig(le: Collation, db: DB, after: DB, now: int)
    requires IsCollation(le) && Valid(db) && db.resources.Keys == {0} && |BackendsOf(db.targets, 0)| == 1
    requires OnlyRewritten(db, 0, after)
    ensures 0 in after.resources && Listing(db, le, [Single(db)], [0]) && Listing(after, le, [Single(after)], [0])
    ensures ConfigsAlike(le, [Single(db)], [Single(after)], now) <==> !DomainLost(db.resources[0].fields)
  {
    SingleRewritten(db, after);
    SingleListed(db, le);
    SingleListed(after, le);
    NoOpConfig(db, le, [Single(db)], [0], 0, after, [Single(after)], [0], now);
  }

  /** A tcp resource with this domain and one external target. */
  function OneTcp(domain: string): DB {
    OneOf(ResourceRow("db", Fields("tcp", Some(domain), "postgres", None, "http", false, false)),
          Backend(ToAddress("10.0.0.5"), 5432, "primary"))
  }

  /** Listed, opened, submitted untouched and listed again, its configuration is another. */
  lemma {:induction false} TcpDomainDropped(le: Collation, domain: string, now: int)
      returns (cs: seq<Backend>, after: DB)
    requires IsCollation(le) && domain != "" && domain != "*"
    ensures var db := OneTcp(domain);
            && Valid(db) && Updates(db, Single(db).name, FieldsOf(NoOp(Single(db))), Specs(NoOp(Single(db))), cs, after)
            && 0 in after.resources && Listing(db, le, [Single(db)], [0]) && Listing(after, le, [Single(after)], [0])
            && !ConfigsAlike(le, [Single(db)], [Single(after)], now)
  {
    OneOfValid(OneTcp(domain).resources[0], OneTcp(domain).targets[0].backend);
    cs, after := SingleEdited(le, OneTcp(domain));
    SingleConfig(le, OneTcp(domain), after, now);
  }
}

/** Listing resources with their targets: a join, ordered by the database and grouped in one pass. */
module ResourceListing {
  import opened Wrappers
  import opened Bags
  import opened TraefikConfig
  import opened ResourceStore

  /** The database's text order. */
  type Collation = (string, string) -> bool

  ghost predicate IsCollation(le: Collation) {
    TotalOrder(le) && forall a, b :: le(a, b) && le(b, a) ==> a == b
  }

  // ----- the query -----

  /** A target as the outer join with nodes yields it. */
  function Resolved(nodes: map<nat, NodeRow>, b: Backend): Target {
    match b.link
    case ToAddress(a) => Target(a, b.port, b.role, true, None, None)
    case ToNode(id) =>
      if id in nodes then Target(nodes[id].meshIP, b.port, b.role, false, nodes[id].lastSeen, Some(nodes[id].name))
      else Target("", b.port, b.role, false, None, None)
  }

  function ResolvedAll(nodes: map<nat, NodeRow>, bs: seq<Backend>): (ts: seq<Target>)
    ensures |ts| == |bs| && forall i :: 0 <= i < |bs| ==> ts[i] == Resolved(nodes, bs[i])
  {
    seq(|bs|, i requires 0 <= i < |bs| => Resolved(nodes, bs[i]))
  }

  datatype JoinRow = JoinRow(id: nat, resource: ResourceRow, target: Target)

  /** The inner join of these target rows with resources. */
  function Join(db: DB, targets: seq<TargetRow>): seq<JoinRow> {
    if targets == [] then []
    else
      var r := targets[|targets| - 1];
      Join(db, targets[..|targets| - 1])
      + if r.resourceId in db.resources
          then [JoinRow(r.resourceId, db.resources[r.resourceId], Resolved(db.nodes, r.backend))]
        else []
  }

  predicate RowBefore(le: Collation, a: JoinRow, b: JoinRow) {
    if a.resource.name == b.resource.name then le(a.target.role, b.target.role)
        else le(a.resource.name, b.resource.name)
  }

  function RowLe(le: Collation): (JoinRow, JoinRow) -> bool {
    (a: JoinRow, b: JoinRow) => RowBefore(le, a, b)
  }

  lemma RowLeTotal(le: Collation)
    requires IsCollation(le)
    ensures TotalOrder(RowLe(le))
  {
  }

  /** The targets of the rows with this identifier, in row order. */
  function Picked(rows: seq<JoinRow>, id: nat): seq<Target> {
    if rows == [] then []
    else
      var r := rows[|rows| - 1];
      Picked(rows[..|rows| - 1], id) + if r.id == id then [r.target] else []
  }

  ghost predicate FromTables(db: DB, rows: seq<JoinRow>) {
    forall r :: r in rows ==> r.id in db.resources && r.resource == db.resources[r.id]
  }

  lemma {:induction false} JoinFromTables(db: DB, targets: seq<TargetRow>)
    ensures FromTables(db, Join(db, targets))
  {
    if targets != [] {
      JoinFromTables(db, targets[..|targets| - 1]);
    }
  }

  lemma {:induction false} PickedJoin(db: DB, targets: seq<TargetRow>, id: nat)
    requires forall r :: r in targets ==> r.resourceId in db.resources
    ensures Picked(Join(db, targets), id) == ResolvedAll(db.nodes, BackendsOf(targets, id))
  {
    if targets != [] {
      var front, r := targets[..|targets| - 1], targets[|targets| - 1];
      PickedJoin(db, front, id);
      var rows := Join(db, targets);
      assert rows[..|rows| - 1] == Join(db, front);
    }
  }

  lemma {:induction false} PickedCount(rows: seq<JoinRow>, id: nat, row: ResourceRow, t: Target)
    requires forall r :: r in rows && r.id == id ==> r.resource == row
    ensures multiset(Picked(rows, id))[t] == multiset(rows)[JoinRow(id, row, t)]
  {
    if rows != [] {
      var front, r := rows[..|rows| - 1], rows[|rows| - 1];
      PickedCount(front, id, row, t);
      assert rows == front + [r];
    }
  }

  lemma {:induction false} PickedPermutation(a: seq<JoinRow>, b: seq<JoinRow>, id: nat, row: ResourceRow)
    requires multiset(a) == multiset(b) && forall r :: r in a && r.id == id ==> r.resource == row
    ensures multiset(Picked(a, id)) == multiset(Picked(b, id))
  {
    SameSize(a, b);
    forall t: Target
      ensures multiset(Picked(a, id))[t] == multiset(Picked(b, id))[t]
    {
      PickedCount(a, id, row, t);
      PickedCount(b, id, row, t);
    }
  }

  ghost predicate SortedByRole(ts: seq<Target>, le: Collation) {
    forall i, j :: 0 <= i < j < |ts| ==> le(ts[i].role, ts[j].role)
  }

  lemma {:induction false} PickedMembers(rows: seq<JoinRow>, id: nat)
    ensures forall t :: t in Picked(rows, id) <==> exists r :: r in rows && r.id == id && r.target == t
  {
    if rows != [] {
      var front, last := rows[..|rows| - 1], rows[|rows| - 1];
      PickedMembers(front, id);
      assert rows == front + [last];
      forall t
        ensures t in Picked(rows, id) <==> exists r :: r in rows && r.id == id && r.target == t
      {
        if r :| r in rows && r.id == id && r.target == t {
          assert r in front || r == last;
        }
      }
    }
  }

  lemma {:induction false} PickedSorted(db: DB, rows: seq<JoinRow>, id: nat, le: Collation)
    requires FromTables(db, rows) && SortedBy(rows, RowLe(le))
    ensures SortedByRole(Picked(rows, id), le)
  {
    if rows != [] {
      var front, last := rows[..|rows| - 1], rows[|rows| - 1];
      PickedSorted(db, front, id, le);
      if last.id == id {
        PickedMembers(front, id);
        var ts := Picked(front, id);
        forall i | 0 <= i < |ts|
          ensures le(ts[i].role, last.target.role)
        {
          assert ts[i] in ts;
          var r :| r in front && r.id == id && r.target == ts[i];
          var k :| 0 <= k < |front| && front[k] == r;
          assert RowLe(le)(rows[k], last);
        }
      }
    }
  }

  // ----- what a listing is -----

  function Entry(row: ResourceRow, ts: seq<Target>): Resource {
    Resource(row.name, row.fields.protocol, row.fields.domain, row.fields.entryPoint, row.fields.certResolver,
             row.fields.targetScheme, row.fields.targetSkipVerify, row.fields.sticky, ts)
  }

  /** A resource as listed: its columns, and its targets resolved from the current node rows, sorted by role. */
  ghost predicate IsListed(db: DB, le: Collation, id: nat, r: Resource) {
    && id in db.resources && r == Entry(db.resources[id], r.targets)
    && multiset(r.targets) == multiset(ResolvedAll(db.nodes, BackendsOf(db.targets, id)))
    && SortedByRole(r.targets, le)
  }

  /**
   * A resource of a valid store is listed with its own columns, and with its stored targets up to order: one on a
   * node with that node's present mesh IP, last_seen and name, one with an address as external.
   */
  lemma {:induction false} ListedFromRows(db: DB, le: Collation, id: nat, r: Resource) returns (us: seq<Target>)
    requires Valid(db) && IsListed(db, le, id, r)
    ensures var row := db.resources[id];
            && r.name == row.name && r.protocol == row.fields.protocol && r.domain == row.fields.domain
            && r.entryPoint == row.fields.entryPoint && r.certResolver == row.fields.certResolver
            && r.targetScheme == row.fields.targetScheme
            && r.targetSkipVerify == row.fields.targetSkipVerify && r.sticky == row.fields.sticky
    ensures multiset(r.targets) == multiset(us) && |r.targets| == |us| == |BackendsOf(db.targets, id)|
    ensures forall i :: 0 <= i < |us| ==>
              var b, u := BackendsOf(db.targets, id)[i], us[i];
              && u.port == b.port && u.role == b.role
              && match b.link
                 case ToNode(n) =>
                   && n in db.nodes && u.address == db.nodes[n].meshIP && !u.external
                   && u.lastSeen == db.nodes[n].lastSeen && u.nodeName == Some(db.nodes[n].name)
                 case ToAddress(a) => u.address == a && u.external && u.lastSeen == None && u.nodeName == None
  {
    us := ResolvedAll(db.nodes, BackendsOf(db.targets, id));
    SameSize(r.targets, us);
    GoodBackends(db, id);
    forall i | 0 <= i < |us|
      ensures GoodBackend(db.nodes, BackendsOf(db.targets, id)[i])
    {
      assert BackendsOf(db.targets, id)[i] in BackendsOf(db.targets, id);
    }
  }

  /** Every resource once, in name order; `ids` are their identifiers. */
  ghost predicate Listing(db: DB, le: Collation, out: seq<Resource>, ids: seq<nat>) {
    && |ids| == |out| && (forall i :: 0 <= i < |out| ==> IsListed(db, le, ids[i], out[i]))
    && (forall i, j :: 0 <= i < j < |out| ==> out[i].name != out[j].name && le(out[i].name, out[j].name))
    && (forall id :: id in db.resources ==> id in ids)
  }

  /** The grouping after some rows: an entry for each resource that has one, with its targets so far. */
  ghost predicate Grouped(db: DB, rows: seq<JoinRow>, byID: map<nat, Resource>) {
    && (forall id :: id in byID <==> Picked(rows, id) != [])
    && (forall id :: id in byID ==> id in db.resources && byID[id] == Entry(db.resources[id], Picked(rows, id)))
  }

  /** One more row: its resource's entry, new if need be, gets the row's target. */
  function Appended(byID: map<nat, Resource>, r: JoinRow): map<nat, Resource> {
    var e := if r.id in byID then byID[r.id] else Entry(r.resource, []);
    byID[r.id := e.(targets := e.targets + [r.target])]
  }

  lemma {:induction false} GroupedStep(db: DB, rows: seq<JoinRow>, r: JoinRow, byID: map<nat, Resource>)
    requires Grouped(db, rows, byID) && r.id in db.resources && r.resource == db.resources[r.id]
    ensures Grouped(db, rows + [r], Appended(byID, r))
  {
    assert (rows + [r])[..|rows + [r]| - 1] == rows;
    var after := Appended(byID, r);
    forall id: nat
      ensures Picked(rows + [r], id) == Picked(rows, id) + if r.id == id then [r.target] else []
    {
    }
  }

  lemma {:induction false} SomePicked(db: DB, rows: seq<JoinRow>, id: nat)
    requires Valid(db) && id in db.resources && multiset(rows) == multiset(Join(db, db.targets)) && FromTables(db, rows)
    ensures Picked(rows, id) != []
  {
    var bs := BackendsOf(db.targets, id);
    PickedJoin(db, db.targets, id);
    PickedPermutation(rows, Join(db, db.targets), id, db.resources[id]);
    SameSize(Picked(rows, id), ResolvedAll(db.nodes, bs));
    assert |Roles(bs)| > 0;
  }

  lemma {:induction false} GoodBackends(db: DB, id: nat)
    requires References(db)
    ensures forall b :: b in BackendsOf(db.targets, id) ==> GoodBackend(db.nodes, b)
  {
    FilteredMembers(db.targets, Of(id));
    forall b | b in BackendsOf(db.targets, id)
      ensures GoodBackend(db.nodes, b)
    {
      var i :| 0 <= i < |BackendsOf(db.targets, id)| && BackendsOf(db.targets, id)[i] == b;
      assert Filtered(db.targets, Of(id))[i] in Filtered(db.targets, Of(id));
    }
  }

  lemma {:induction false} ListedRoles(db: DB, le: Collation, id: nat, r: Resource)
    requires References(db) && IsListed(db, le, id, r)
    ensures forall t :: t in r.targets ==> t.role in {"primary", "backup"}
  {
    var bs := BackendsOf(db.targets, id);
    GoodBackends(db, id);
    SameSize(r.targets, ResolvedAll(db.nodes, bs));
    forall t | t in r.targets
      ensures t.role in {"primary", "backup"}
    {
      var i :| 0 <= i < |bs| && ResolvedAll(db.nodes, bs)[i] == t;
      assert bs[i] in bs;
    }
  }

  // ----- conservation -----

  function Total(out: seq<Resource>): nat {
    if out == [] then 0 else Total(out[..|out| - 1]) + |out[|out| - 1].targets|
  }

  function Among(ids: seq<nat>): TargetRow -> bool {
    (r: TargetRow) => r.resourceId in ids
  }

  lemma {:induction false} AmongSnoc(targets: seq<TargetRow>, ids: seq<nat>, id: nat)
    requires id !in ids
    ensures |Filtered(targets, Among(ids + [id]))| == |Filtered(targets, Among(ids))| + |Filtered(targets, Of(id))|
  {
    if targets != [] {
      AmongSnoc(targets[..|targets| - 1], ids, id);
    }
  }

  lemma {:induction false} TargetsCounted(db: DB, le: Collation, id: nat, r: Resource)
    requires IsListed(db, le, id, r)
    ensures |r.targets| == |Filtered(db.targets, Of(id))|
  {
    SameSize(r.targets, ResolvedAll(db.nodes, BackendsOf(db.targets, id)));
  }

  lemma {:induction false} ListedCount(db: DB, le: Collation, out: seq<Resource>, ids: seq<nat>)
    requires |ids| == |out| && (forall i :: 0 <= i < |out| ==> IsListed(db, le, ids[i], out[i]))
    requires forall i, j :: 0 <= i < j < |ids| ==> ids[i] != ids[j]
    ensures Total(out) == |Filtered(db.targets, Among(ids))|
  {
    if out == [] {
      FilteredNone(db.targets, Among(ids));
    } else {
      var n := |out| - 1;
      Snoc(ids, n);
      assert ids[..n + 1] == ids;
      ListedCount(db, le, out[..n], ids[..n]);
      AmongSnoc(db.targets, ids[..n], ids[n]);
      TargetsCounted(db, le, ids[n], out[n]);
    }
  }

  /** A listing has as many targets as the table has rows. */
  lemma {:induction false} TargetsConserved(db: DB, le: Collation, out: seq<Resource>, ids: seq<nat>)
    requires Valid(db) && Listing(db, le, out, ids)
    ensures Total(out) == |db.targets| && |out| == |db.resources|
  {
    forall i, j | 0 <= i < j < |ids|
      ensures ids[i] != ids[j]
    {
      assert out[i].name != out[j].name;
    }
    ListedCount(db, le, out, ids);
    FilteredAll(db.targets, Among(ids));
    CountDistinct(ids);
    assert SetOf(ids) == db.resources.Keys by {
      forall id | id in ids
        ensures id in db.resources
      {
        var i :| 0 <= i < |ids| && ids[i] == id;
        assert IsListed(db, le, ids[i], out[i]);
      }
    }
  }

  function TargetRoles(ts: seq<Target>): seq<string> {
    seq(|ts|, k requires 0 <= k < |ts| => ts[k].role)
  }

  lemma {:induction false} ShapeUpToOrder(protocol: string, a: seq<string>, b: seq<string>)
    requires Shape(protocol, b) && |a| == |b|
    requires |b| == 2 ==> a == b || a == [b[1], b[0]]
    ensures Shape(protocol, a)
  {
  }

  lemma {:induction false} RolesResolved(nodes: map<nat, NodeRow>, bs: seq<Backend>)
    ensures TargetRoles(ResolvedAll(nodes, bs)) == Roles(bs)
  {
  }

  lemma {:induction false} RolesSwapped(us: seq<Target>)
    requires |us| == 2
    ensures TargetRoles([us[1], us[0]]) == [TargetRoles(us)[1], TargetRoles(us)[0]]
  {
  }

  lemma {:induction false} PermutedShape(protocol: string, nodes: map<nat, NodeRow>, bs: seq<Backend>, ts: seq<Target>)
    requires Shape(protocol, Roles(bs)) && multiset(ts) == multiset(ResolvedAll(nodes, bs))
    ensures Shape(protocol, TargetRoles(ts))
  {
    var us := ResolvedAll(nodes, bs);
    SameSize(ts, us);
    RolesResolved(nodes, bs);
    if |ts| == 2 {
      TwoElements(ts, us);
      RolesSwapped(us);
    }
    ShapeUpToOrder(protocol, TargetRoles(ts), Roles(bs));
  }

  /** Every listed tcp or udp resource has one target, or exactly one primary and one backup; http has at least one. */
  lemma {:induction false} ListedShape(db: DB, le: Collation, out: seq<Resource>, ids: seq<nat>, i: nat)
    requires Shapes(db) && Listing(db, le, out, ids) && i < |out|
    ensures Shape(out[i].protocol, TargetRoles(out[i].targets))
  {
    assert IsListed(db, le, ids[i], out[i]);
    PermutedShape(out[i].protocol, db.nodes, BackendsOf(db.targets, ids[i]), out[i].targets);
  }

  lemma {:induction false} TwoElements<T>(a: seq<T>, b: seq<T>)
    requires multiset(a) == multiset(b) && |a| == 2
    ensures |b| == 2 && (a == b || a == [b[1], b[0]])
  {
    SameSize(a, b);
    assert a == [a[0], a[1]] && b == [b[0], b[1]];
    assert multiset(a) == multiset{a[0], a[1]} && multiset(b) == multiset{b[0], b[1]};
    assert a[0] in multiset(b) && a[1] in multiset(b);
    if a[0] == b[0] {
      assert multiset(a)[a[0]] == multiset(b)[a[0]];
    }
  }
}

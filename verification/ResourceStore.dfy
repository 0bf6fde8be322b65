/** Resources and their targets: the tables, the transactions that change them, and the grouped listing. */
module ResourceStore {
  import opened Wrappers
  import opened Bags
  import opened TraefikConfig

  datatype NodeRow = NodeRow(name: string, meshIP: string, lastSeen: Option<int>)
  datatype Fields = Fields(protocol: string, domain: Option<string>, entryPoint: string, certResolver: Option<string>,
                           targetScheme: string, targetSkipVerify: bool, sticky: bool)
  datatype ResourceRow = ResourceRow(name: string, fields: Fields)

  /** A target row's node_id or address column, whichever is set. */
  datatype Link = ToNode(id: nat) | ToAddress(address: string)
  datatype Backend = Backend(link: Link, port: int, role: string)
  datatype TargetRow = TargetRow(resourceId: nat, backend: Backend)

  /** nodes and resources by their generated identifiers; the rows of resource_targets in no particular order. */
  datatype DB = DB(nodes: map<nat, NodeRow>, resources: map<nat, ResourceRow>, targets: seq<TargetRow>)

  datatype TargetSpec = TargetSpec(nodeName: string, address: string, port: int, role: string)

  // ----- what a request must satisfy -----

  function DefaultRole(role: string): string {
    if role == "" then "primary" else role
  }

  /** The shape of a target list: a pool for http, else one target or one primary and one backup. */
  predicate Shape(protocol: string, roles: seq<string>) {
    && |roles| > 0 && Known(protocol)
    && (protocol != "http" && |roles| > 1 ==> roles == ["primary", "backup"] || roles == ["backup", "primary"])
  }

  lemma {:induction false} ShapeBounds(protocol: string, roles: seq<string>)
    requires protocol != "http" && Shape(protocol, roles)
    ensures 1 <= |roles| <= 2
  {
  }

  function SpecRoles(specs: seq<TargetSpec>): seq<string> {
    seq(|specs|, i requires 0 <= i < |specs| => DefaultRole(specs[i].role))
  }

  predicate ExactlyOne(t: TargetSpec) {
    (t.nodeName == "") != (t.address == "")
  }

  predicate ValidSpecs(protocol: string, specs: seq<TargetSpec>) {
    Shape(protocol, SpecRoles(specs)) && forall t :: t in specs ==> ExactlyOne(t)
  }

  function RolesSeen(specs: seq<TargetSpec>): set<string> {
    if specs == [] then {} else RolesSeen(specs[..|specs| - 1]) + {DefaultRole(specs[|specs| - 1].role)}
  }

  lemma {:induction false} TwoRoles(specs: seq<TargetSpec>)
    requires |specs| == 2
    ensures "primary" in RolesSeen(specs) && "backup" in RolesSeen(specs)
       <==> SpecRoles(specs) == ["primary", "backup"] || SpecRoles(specs) == ["backup", "primary"]
  {
    assert specs[..1][..0] == [];
    assert RolesSeen(specs[..1]) == {DefaultRole(specs[0].role)};
    assert RolesSeen(specs) == {SpecRoles(specs)[0], SpecRoles(specs)[1]};
    assert SpecRoles(specs) == [SpecRoles(specs)[0], SpecRoles(specs)[1]];
  }

  lemma {:induction false} ShapeCases(protocol: string, specs: seq<TargetSpec>)
    ensures !Known(protocol) || |specs| == 0 ==> !Shape(protocol, SpecRoles(specs))
    ensures Known(protocol) && |specs| > 0 && (protocol == "http" || |specs| == 1) ==> Shape(protocol, SpecRoles(specs))
    ensures Known(protocol) && protocol != "http" && |specs| > 2 ==> !Shape(protocol, SpecRoles(specs))
    ensures Known(protocol) && protocol != "http" && |specs| == 2 ==>
              (Shape(protocol, SpecRoles(specs)) <==> "primary" in RolesSeen(specs) && "backup" in RolesSeen(specs))
  {
    if |specs| == 2 {
      TwoRoles(specs);
    }
  }

  /** Of two targets one is a backup and the other a primary, which is also what no role means. */
  lemma {:induction false} TwoValid(specs: seq<TargetSpec>)
    requires |specs| == 2
    ensures "primary" in RolesSeen(specs) && "backup" in RolesSeen(specs)
       <==> || (specs[0].role in {"", "primary"} && specs[1].role == "backup")
            || (specs[0].role == "backup" && specs[1].role in {"", "primary"})
  {
    TwoRoles(specs);
    assert SpecRoles(specs) == [DefaultRole(specs[0].role), DefaultRole(specs[1].role)];
  }

  /** What validation asks for. */
  lemma {:induction false} ValidExactly(protocol: string, specs: seq<TargetSpec>)
    ensures ValidSpecs(protocol, specs)
       <==> && protocol in {"http", "tcp", "udp"} && specs != []
            && (forall t :: t in specs ==> (t.nodeName == "") != (t.address == ""))
            && (protocol != "http" ==> |specs| <= 2)
            && (protocol != "http" && |specs| == 2 ==>
                  || (specs[0].role in {"", "primary"} && specs[1].role == "backup")
                  || (specs[0].role == "backup" && specs[1].role in {"", "primary"}))
  {
    ShapeCases(protocol, specs);
    if |specs| == 2 {
      TwoValid(specs);
    }
  }

  /** validateTargets. */
  method ValidateTargets(protocol: string, specs: seq<TargetSpec>) returns (r: Result<()>)
    ensures r.Ok? <==> ValidSpecs(protocol, specs)
  {
    ShapeCases(protocol, specs);
    if |specs| == 0 {
      return Err("no target");
    }
    for i := 0 to |specs|
      invariant forall j :: 0 <= j < i ==> ExactlyOne(specs[j])
    {
      if (specs[i].nodeName == "") == (specs[i].address == "") {
        assert !ExactlyOne(specs[i]);
        return Err("node or address");
      }
    }
    if protocol == "http" {
      return Ok(());
    } else if protocol == "tcp" || protocol == "udp" {
      if |specs| > 2 {
        return Err("too many");
      }
      if |specs| == 2 {
        var roles := {};
        for i := 0 to 2
          invariant roles == RolesSeen(specs[..i])
        {
          var role := specs[i].role;
          if role == "" {
            role := "primary";
          }
          roles := roles + {role};
          assert specs[..i + 1][..i] == specs[..i];
        }
        assert specs[..2] == specs;
        if "primary" !in roles || "backup" !in roles {
          return Err("roles");
        }
      }
      return Ok(());
    } else {
      return Err("protocol");
    }
  }

  /** normalizeTargetScheme. */
  function NormalScheme(scheme: string): Result<string> {
    if scheme == "" then Ok("http")
    else if scheme != "http" && scheme != "https" then Err("scheme")
    else Ok(scheme)
  }

  // ----- target rows -----

  /** What the columns' types and the CHECK on role admit. */
  predicate Storable(port: int, role: string) {
    -0x8000_0000 <= port < 0x8000_0000 && role in {"primary", "backup"}
  }

  ghost function NodeNamed(nodes: map<nat, NodeRow>, name: string): (id: Option<nat>)
    ensures id.Some? ==> id.value in nodes && nodes[id.value].name == name
    ensures id.None? ==> forall i :: i in nodes ==> nodes[i].name != name
  {
    if i :| i in nodes && nodes[i].name == name then Some(i) else None
  }

  ghost function ResourceNamed(resources: map<nat, ResourceRow>, name: string): (id: Option<nat>)
    ensures id.Some? ==> id.value in resources && resources[id.value].name == name
    ensures id.None? ==> forall i :: i in resources ==> resources[i].name != name
  {
    if i :| i in resources && resources[i].name == name then Some(i) else None
  }

  ghost function BackendOf(nodes: map<nat, NodeRow>, t: TargetSpec): Option<Backend> {
    if !Storable(t.port, DefaultRole(t.role)) then None
    else if t.address != "" then Some(Backend(ToAddress(t.address), t.port, DefaultRole(t.role)))
    else match NodeNamed(nodes, t.nodeName)
      case Some(id) => Some(Backend(ToNode(id), t.port, DefaultRole(t.role)))
      case None => None
  }

  /** All targets resolve, to these rows. */
  ghost predicate Resolve(nodes: map<nat, NodeRow>, specs: seq<TargetSpec>, bs: seq<Backend>) {
    |bs| == |specs| && forall i :: 0 <= i < |specs| ==> BackendOf(nodes, specs[i]) == Some(bs[i])
  }

  function Of(id: nat): TargetRow -> bool {
    (r: TargetRow) => r.resourceId == id
  }

  function NotOf(id: nat): TargetRow -> bool {
    (r: TargetRow) => r.resourceId != id
  }

  function RowsFor(id: nat, bs: seq<Backend>): (rows: seq<TargetRow>)
    ensures |rows| == |bs| && forall i :: 0 <= i < |bs| ==> rows[i] == TargetRow(id, bs[i])
  {
    seq(|bs|, i requires 0 <= i < |bs| => TargetRow(id, bs[i]))
  }

  function BackendsIn(rows: seq<TargetRow>): (bs: seq<Backend>)
    ensures |bs| == |rows| && forall i :: 0 <= i < |rows| ==> bs[i] == rows[i].backend
  {
    seq(|rows|, i requires 0 <= i < |rows| => rows[i].backend)
  }

  /** A resource's targets as stored. */
  function BackendsOf(targets: seq<TargetRow>, id: nat): seq<Backend> {
    BackendsIn(Filtered(targets, Of(id)))
  }

  function Replaced(targets: seq<TargetRow>, id: nat, bs: seq<Backend>): seq<TargetRow> {
    Filtered(targets, NotOf(id)) + RowsFor(id, bs)
  }

  // ----- the transactions -----

  function Stored(name: string, f: Fields, scheme: string): ResourceRow {
    ResourceRow(name, f.(targetScheme := scheme))
  }

  /** The request passes validation and its targets resolve to `bs`. */
  ghost predicate Accepted(nodes: map<nat, NodeRow>, f: Fields, specs: seq<TargetSpec>, bs: seq<Backend>) {
    ValidSpecs(f.protocol, specs) && NormalScheme(f.targetScheme).Ok? && Resolve(nodes, specs, bs)
  }

  ghost predicate Creates(db: DB, id: nat, name: string, f: Fields, specs: seq<TargetSpec>, bs: seq<Backend>,
                          after: DB) {
    && Accepted(db.nodes, f, specs, bs) && ResourceNamed(db.resources, name).None?
    && after == DB(db.nodes, db.resources[id := Stored(name, f, NormalScheme(f.targetScheme).value)],
                   db.targets + RowsFor(id, bs))
  }

  ghost predicate Updates(db: DB, name: string, f: Fields, specs: seq<TargetSpec>, bs: seq<Backend>, after: DB) {
    && Accepted(db.nodes, f, specs, bs)
    && var id := ResourceNamed(db.resources, name);
       && id.Some?
       && after == DB(db.nodes, db.resources[id.value := Stored(name, f, NormalScheme(f.targetScheme).value)],
                      Replaced(db.targets, id.value, bs))
  }

  ghost predicate Deletes(db: DB, name: string, after: DB) {
    var id := ResourceNamed(db.resources, name);
    id.Some? && after == DB(db.nodes, db.resources - {id.value}, Filtered(db.targets, NotOf(id.value)))
  }

  /** What registrations and heartbeats may do to the nodes table: rows keep identifier, name and mesh IP. */
  ghost predicate NodesKept(nodes: map<nat, NodeRow>, later: map<nat, NodeRow>) {
    && (forall i :: i in nodes ==> i in later && later[i].name == nodes[i].name && later[i].meshIP == nodes[i].meshIP)
    && (forall i, j :: i in later && j in later && i != j ==> later[i].name != later[j].name)
  }

  // ----- what they keep -----

  function Roles(bs: seq<Backend>): seq<string> {
    seq(|bs|, i requires 0 <= i < |bs| => bs[i].role)
  }

  ghost predicate UniqueRows(db: DB) {
    && (forall i, j :: i in db.nodes && j in db.nodes && i != j ==> db.nodes[i].name != db.nodes[j].name)
    && (forall i, j :: i in db.resources && j in db.resources && i != j ==>
       db.resources[i].name != db.resources[j].name)
  }

  ghost predicate GoodBackend(nodes: map<nat, NodeRow>, b: Backend) {
    && Storable(b.port, b.role)
    && (b.link.ToNode? ==> b.link.id in nodes && nodes[b.link.id].name != "")
    && (b.link.ToAddress? ==> b.link.address != "")
  }

  ghost predicate References(db: DB) {
    forall r :: r in db.targets ==> r.resourceId in db.resources && GoodBackend(db.nodes, r.backend)
  }

  ghost predicate Shapes(db: DB) {
    forall id :: id in db.resources ==>
      && Shape(db.resources[id].fields.protocol, Roles(BackendsOf(db.targets, id)))
      && db.resources[id].fields.targetScheme in {"http", "https"}
  }

  /** Names are unique, references resolve, and every resource's targets have its protocol's shape. */
  ghost predicate Valid(db: DB) {
    UniqueRows(db) && References(db) && Shapes(db)
  }

  lemma ResolvedAreGood(nodes: map<nat, NodeRow>, specs: seq<TargetSpec>, bs: seq<Backend>)
    requires Resolve(nodes, specs, bs) && forall t :: t in specs ==> ExactlyOne(t)
    ensures forall b :: b in bs ==> GoodBackend(nodes, b)
    ensures Roles(bs) == SpecRoles(specs)
  {
    forall b | b in bs
      ensures GoodBackend(nodes, b)
    {
      var i :| 0 <= i < |bs| && bs[i] == b;
      assert specs[i] in specs && BackendOf(nodes, specs[i]) == Some(b);
    }
    assert forall i :: 0 <= i < |specs| ==> BackendOf(nodes, specs[i]).value.role == DefaultRole(specs[i].role);
  }

  lemma {:induction false} FilteredRows(id: nat, bs: seq<Backend>, j: nat)
    ensures Filtered(RowsFor(id, bs), Of(j)) == if j == id then RowsFor(id, bs) else []
  {
    if j == id {
      FilteredAll(RowsFor(id, bs), Of(j));
    } else {
      FilteredNone(RowsFor(id, bs), Of(j));
    }
  }

  lemma {:induction false} FilteredOthers(targets: seq<TargetRow>, id: nat, j: nat)
    ensures Filtered(Filtered(targets, NotOf(id)), Of(j)) == if j == id then [] else Filtered(targets, Of(j))
  {
    if targets == [] {
    } else {
      var n := |targets| - 1;
      FilteredOthers(targets[..n], id, j);
      if targets[n].resourceId != id {
        FilteredAppend(Filtered(targets[..n], NotOf(id)), [targets[n]], Of(j));
        FilteredOne(targets[n], Of(j));
      }
    }
  }

  /** Replacing one resource's rows gives it exactly the new ones and leaves all others theirs. */
  lemma ReplacedExact(targets: seq<TargetRow>, id: nat, bs: seq<Backend>, j: nat)
    ensures BackendsOf(Replaced(targets, id, bs), j) == if j == id then bs else BackendsOf(targets, j)
  {
    FilteredAppend(Filtered(targets, NotOf(id)), RowsFor(id, bs), Of(j));
    FilteredOthers(targets, id, j);
    FilteredRows(id, bs, j);
  }

  lemma AddedExact(targets: seq<TargetRow>, id: nat, bs: seq<Backend>, j: nat)
    requires forall r :: r in targets ==> r.resourceId != id
    ensures BackendsOf(targets + RowsFor(id, bs), j) == if j == id then bs else BackendsOf(targets, j)
  {
    FilteredAppend(targets, RowsFor(id, bs), Of(j));
    FilteredRows(id, bs, j);
    if j == id {
      FilteredNone(targets, Of(id));
    }
  }

  /** A change to one resource's row and targets that leaves every other resource's alone. */
  ghost predicate OneChanged(db: DB, id: nat, row: ResourceRow, bs: seq<Backend>, after: DB) {
    && after.nodes == db.nodes && after.resources == db.resources[id := row]
    && (forall r :: r in after.targets ==> r in db.targets || (r.resourceId == id && r.backend in bs))
    && forall j :: BackendsOf(after.targets, j) == if j == id then bs else BackendsOf(db.targets, j)
  }

  lemma {:induction false} OneChangedKeepsValid(db: DB, id: nat, row: ResourceRow, bs: seq<Backend>, after: DB)
    requires Valid(db) && OneChanged(db, id, row, bs, after)
    requires forall i :: i in db.resources && i != id ==> db.resources[i].name != row.name
    requires row.fields.targetScheme in {"http", "https"} && Shape(row.fields.protocol, Roles(bs))
    requires forall b :: b in bs ==> GoodBackend(db.nodes, b)
    ensures Valid(after)
  {
    assert UniqueRows(after);
    assert References(after);
    forall j | j in after.resources
      ensures Shape(after.resources[j].fields.protocol, Roles(BackendsOf(after.targets, j)))
      ensures after.resources[j].fields.targetScheme in {"http", "https"}
    {
    }
  }

  lemma {:induction false} CreateChangesOne(db: DB, id: nat, row: ResourceRow, bs: seq<Backend>)
    requires References(db) && id !in db.resources
    ensures OneChanged(db, id, row, bs, DB(db.nodes, db.resources[id := row], db.targets + RowsFor(id, bs)))
  {
    forall j
      ensures BackendsOf(db.targets + RowsFor(id, bs), j) == if j == id then bs else BackendsOf(db.targets, j)
    {
      AddedExact(db.targets, id, bs, j);
    }
  }

  lemma {:induction false} UpdateChangesOne(db: DB, id: nat, row: ResourceRow, bs: seq<Backend>)
    ensures OneChanged(db, id, row, bs, DB(db.nodes, db.resources[id := row], Replaced(db.targets, id, bs)))
  {
    FilteredMembers(db.targets, NotOf(id));
    forall j
      ensures BackendsOf(Replaced(db.targets, id, bs), j) == if j == id then bs else BackendsOf(db.targets, j)
    {
      ReplacedExact(db.targets, id, bs, j);
    }
  }

  /**
   * Each stored target is the one sent: a port of 32 bits, the role, primary if none was sent, and the address, or
   * else the node of the name sent.
   */
  lemma {:induction false} ResolvedAsSent(nodes: map<nat, NodeRow>, specs: seq<TargetSpec>, bs: seq<Backend>)
    requires Resolve(nodes, specs, bs)
    ensures |bs| == |specs| && forall i :: 0 <= i < |specs| ==>
              && bs[i].port == specs[i].port && -0x8000_0000 <= bs[i].port < 0x8000_0000
              && bs[i].role == (if specs[i].role == "" then "primary" else specs[i].role)
              && bs[i].role in {"primary", "backup"}
              && if specs[i].address != "" then bs[i].link == ToAddress(specs[i].address)
                 else bs[i].link.ToNode? && bs[i].link.id in nodes && nodes[bs[i].link.id].name == specs[i].nodeName
  {
    forall i | 0 <= i < |specs|
      ensures BackendOf(nodes, specs[i]) == Some(bs[i])
    {
    }
  }

  /** Targets resolve exactly if the columns admit them and every node named is registered. */
  lemma {:induction false} ResolvesExactly(nodes: map<nat, NodeRow>, specs: seq<TargetSpec>)
    ensures (exists bs :: Resolve(nodes, specs, bs))
       <==> forall t :: t in specs ==>
              && -0x8000_0000 <= t.port < 0x8000_0000 && t.role in {"", "primary", "backup"}
              && (t.address != "" || exists id :: id in nodes && nodes[id].name == t.nodeName)
  {
    if bs :| Resolve(nodes, specs, bs) {
      ResolvedAsSent(nodes, specs, bs);
    }
    if forall t :: t in specs ==>
         && -0x8000_0000 <= t.port < 0x8000_0000 && t.role in {"", "primary", "backup"}
         && (t.address != "" || exists id :: id in nodes && nodes[id].name == t.nodeName) {
      var bs := seq(|specs|, i requires 0 <= i < |specs| =>
                      if BackendOf(nodes, specs[i]).Some? then BackendOf(nodes, specs[i]).value
                      else Backend(ToAddress(""), 0, ""));
      forall i | 0 <= i < |specs|
        ensures BackendOf(nodes, specs[i]) == Some(bs[i])
      {
        assert specs[i] in specs;
      }
      assert Resolve(nodes, specs, bs);
    }
  }

  /** The target scheme is http unless another is sent, which must be https. */
  lemma {:induction false} SchemeExactly(scheme: string)
    ensures NormalScheme(scheme).Ok? <==> scheme in {"", "http", "https"}
    ensures NormalScheme(scheme).Ok? ==> NormalScheme(scheme).value == if scheme == "" then "http" else scheme
  {
  }

  /** A create adds one resource with exactly the requested targets. */
  lemma {:induction false} CreateExact(db: DB, id: nat, name: string, f: Fields, specs: seq<TargetSpec>,
                                       bs: seq<Backend>, after: DB)
    requires Valid(db) && id !in db.resources && Creates(db, id, name, f, specs, bs, after)
    ensures Valid(after) && OneChanged(db, id, after.resources[id], bs, after)
    ensures after.resources[id]
         == ResourceRow(name, f.(targetScheme := if f.targetScheme == "" then "http" else f.targetScheme))
    ensures |bs| == |specs| && forall i :: 0 <= i < |specs| ==>
              && bs[i].port == specs[i].port
              && bs[i].role == (if specs[i].role == "" then "primary" else specs[i].role)
              && if specs[i].address != "" then bs[i].link == ToAddress(specs[i].address)
                 else bs[i].link.ToNode? && bs[i].link.id in db.nodes
                      && db.nodes[bs[i].link.id].name == specs[i].nodeName
  {
    ResolvedAsSent(db.nodes, specs, bs);
    SchemeExactly(f.targetScheme);
    ResolvedAreGood(db.nodes, specs, bs);
    CreateChangesOne(db, id, after.resources[id], bs);
    OneChangedKeepsValid(db, id, after.resources[id], bs, after);
  }

  /** An update replaces one resource's targets by exactly the requested ones. */
  lemma {:induction false} UpdateExact(db: DB, name: string, f: Fields, specs: seq<TargetSpec>, bs: seq<Backend>,
                                       after: DB)
    requires Valid(db) && Updates(db, name, f, specs, bs, after)
    ensures var id := ResourceNamed(db.resources, name).value;
            && Valid(after) && OneChanged(db, id, after.resources[id], bs, after)
            && after.resources[id]
            == ResourceRow(name, f.(targetScheme := if f.targetScheme == "" then "http" else f.targetScheme))
    ensures |bs| == |specs| && forall i :: 0 <= i < |specs| ==>
              && bs[i].port == specs[i].port
              && bs[i].role == (if specs[i].role == "" then "primary" else specs[i].role)
              && if specs[i].address != "" then bs[i].link == ToAddress(specs[i].address)
                 else bs[i].link.ToNode? && bs[i].link.id in db.nodes
                      && db.nodes[bs[i].link.id].name == specs[i].nodeName
  {
    ResolvedAsSent(db.nodes, specs, bs);
    SchemeExactly(f.targetScheme);
    var id := ResourceNamed(db.resources, name).value;
    ResolvedAreGood(db.nodes, specs, bs);
    UpdateChangesOne(db, id, after.resources[id], bs);
    OneChangedKeepsValid(db, id, after.resources[id], bs, after);
  }

  /** A delete removes one resource and all its targets, and no other's. */
  lemma {:induction false} DeleteExact(db: DB, name: string, after: DB)
    requires Deletes(db, name, after)
    ensures var id := ResourceNamed(db.resources, name).value;
            && id in db.resources && db.resources[id].name == name
            && after.resources == db.resources - {id} && after.nodes == db.nodes
            && forall j :: BackendsOf(after.targets, j) == if j == id then [] else BackendsOf(db.targets, j)
  {
    var id := ResourceNamed(db.resources, name).value;
    forall j
      ensures BackendsOf(after.targets, j) == if j == id then [] else BackendsOf(db.targets, j)
    {
      FilteredOthers(db.targets, id, j);
    }
  }

  lemma {:induction false} OneRemovedKeepsValid(db: DB, id: nat, after: DB)
    requires Valid(db) && after.nodes == db.nodes && after.resources == db.resources - {id}
    requires forall r :: r in after.targets ==> r in db.targets && r.resourceId != id
    requires forall j :: BackendsOf(after.targets, j) == if j == id then [] else BackendsOf(db.targets, j)
    ensures Valid(after)
  {
    assert UniqueRows(after) && References(after);
    forall j | j in after.resources
      ensures Shape(after.resources[j].fields.protocol, Roles(BackendsOf(after.targets, j)))
      ensures after.resources[j].fields.targetScheme in {"http", "https"}
    {
      assert j in db.resources;
    }
  }

  lemma {:induction false} DeleteKeepsValid(db: DB, name: string, after: DB)
    requires Valid(db) && Deletes(db, name, after)
    ensures Valid(after)
  {
    var id := ResourceNamed(db.resources, name).value;
    FilteredMembers(db.targets, NotOf(id));
    DeleteExact(db, name, after);
    OneRemovedKeepsValid(db, id, after);
  }

  lemma NodesKeepValid(db: DB, nodes: map<nat, NodeRow>)
    requires Valid(db) && NodesKept(db.nodes, nodes)
    ensures Valid(db.(nodes := nodes))
  {
  }

  // ----- runs -----

  datatype Step =
    | Create(id: nat, name: string, f: Fields, specs: seq<TargetSpec>)
    | Update(name: string, f: Fields, specs: seq<TargetSpec>)
    | Delete(name: string)
    | Register(nodes: map<nat, NodeRow>)

  /** One call; whether it succeeded shows in the state, as a failed one changes nothing. */
  ghost predicate Leads(db: DB, step: Step, after: DB) {
    match step
    case Create(id, name, f, specs) =>
      id !in db.resources && (after == db || exists bs :: Creates(db, id, name, f, specs, bs, after))
    case Update(name, f, specs) => after == db || exists bs :: Updates(db, name, f, specs, bs, after)
    case Delete(name) => after == db || Deletes(db, name, after)
    case Register(nodes) => NodesKept(db.nodes, nodes) && after == db.(nodes := nodes)
  }

  lemma StepKeepsValid(db: DB, step: Step, after: DB)
    requires Valid(db) && Leads(db, step, after)
    ensures Valid(after)
  {
    match step
    case Create(id, name, f, specs) =>
      if after != db {
        var bs :| Creates(db, id, name, f, specs, bs, after);
        CreateExact(db, id, name, f, specs, bs, after);
      }
    case Update(name, f, specs) =>
      if after != db {
        var bs :| Updates(db, name, f, specs, bs, after);
        UpdateExact(db, name, f, specs, bs, after);
      }
    case Delete(name) =>
      if after != db {
        DeleteKeepsValid(db, name, after);
      }
    case Register(nodes) => NodesKeepValid(db, nodes);
  }

  ghost predicate IsRun(run: seq<DB>, steps: seq<Step>) {
    |run| == |steps| + 1 && forall i :: 0 <= i < |steps| ==> Leads(run[i], steps[i], run[i + 1])
  }

  /** From empty tables, every run of creates, updates, deletes and registrations keeps the tables valid. */
  lemma {:induction false} RunKeepsValid(run: seq<DB>, steps: seq<Step>, n: nat)
    requires IsRun(run, steps) && run[0] == DB(map[], map[], []) && n <= |steps|
    ensures Valid(run[n])
  {
    if n > 0 {
      RunKeepsValid(run, steps, n - 1);
      StepKeepsValid(run[n - 1], steps[n - 1], run[n]);
    }
  }
}

/** The store as an object: each call runs in one transaction. */
module ResourceDB {
  import opened Wrappers
  import opened Bags
  import opened TraefikConfig
  import opened ResourceStore
  import opened ResourceListing

  class Store {
    var nodes: map<nat, NodeRow>
    var resources: map<nat, ResourceRow>
    var targets: seq<TargetRow>

    constructor ()
      ensures Tables() == DB(map[], map[], []) && Valid(Tables())
    {
      nodes, resources, targets := map[], map[], [];
    }

    ghost function Tables(): DB
      reads this
    {
      DB(nodes, resources, targets)
    }

    /** insertTargets: the rows of `rows` and one for each target, or the first target that does not go in. */
    method InsertTargets(rows: seq<TargetRow>, id: nat, specs: seq<TargetSpec>)
      returns (r: Result<seq<TargetRow>>, ghost bs: seq<Backend>)
      requires UniqueRows(Tables())
      ensures r.Ok? ==> Resolve(nodes, specs, bs) && r.value == rows + RowsFor(id, bs)
      ensures r.Err? ==> forall cs :: !Resolve(nodes, specs, cs)
    {
      var inserted := rows;
      bs := [];
      for i := 0 to |specs|
        invariant |bs| == i && forall j :: 0 <= j < i ==> BackendOf(nodes, specs[j]) == Some(bs[j])
        invariant inserted == rows + RowsFor(id, bs)
      {
        var t := specs[i];
        var role := t.role;
        if role == "" {
          role := "primary";
        }
        var link := ToAddress(t.address);
        if t.address == "" {
          if n: nat :| n in nodes && nodes[n].name == t.nodeName {
            link := ToNode(n);
          } else {
            assert BackendOf(nodes, specs[i]).None?;
            return Err("node not found"), bs;
          }
        }
        if !Storable(t.port, role) {
          assert BackendOf(nodes, specs[i]).None?;
          return Err("insert target"), bs;
        }
        var b := Backend(link, t.port, role);
        assert BackendOf(nodes, t) == Some(b);
        assert RowsFor(id, bs + [b]) == RowsFor(id, bs) + [TargetRow(id, b)];
        inserted, bs := inserted + [TargetRow(id, b)], bs + [b];
      }
      r := Ok(inserted);
    }

    /** `id` is the generated identifier; `commits` says that no statement fails for other reasons. */
    method CreateResource(id: nat, name: string, f: Fields, specs: seq<TargetSpec>, commits: bool)
      returns (r: Result<()>, ghost bs: seq<Backend>)
      requires Valid(Tables()) && id !in resources
      modifies this
      ensures Valid(Tables())
      ensures r.Ok? ==> Creates(old(Tables()), id, name, f, specs, bs, Tables())
      ensures r.Ok? <==> commits && old(ResourceNamed(resources, name).None? && exists cs ::
              Accepted(nodes, f, specs, cs))
      ensures r.Err? ==> unchanged(this)
    {
      bs := [];
      var valid := ValidateTargets(f.protocol, specs);
      if valid.Err? {
        return valid, bs;
      }
      var scheme := NormalScheme(f.targetScheme);
      if scheme.Err? {
        return Err(scheme.error), bs;
      }
      if !commits || exists i :: i in resources && resources[i].name == name {
        return Err("insert resource"), bs;
      }
      var rows;
      rows, bs := InsertTargets(targets, id, specs);
      if rows.Err? {
        return Err(rows.error), bs;
      }
      assert Accepted(nodes, f, specs, bs);
      resources, targets := resources[id := Stored(name, f, scheme.value)], rows.value;
      CreateExact(old(Tables()), id, name, f, specs, bs, Tables());
      r := Ok(());
    }

    method UpdateResource(name: string, f: Fields, specs: seq<TargetSpec>, commits: bool)
      returns (r: Result<()>, ghost bs: seq<Backend>)
      requires Valid(Tables())
      modifies this
      ensures Valid(Tables())
      ensures r.Ok? ==> Updates(old(Tables()), name, f, specs, bs, Tables())
      ensures r.Ok? <==> commits && old(ResourceNamed(resources, name).Some? && exists cs ::
              Accepted(nodes, f, specs, cs))
      ensures r.Err? ==> unchanged(this)
    {
      bs := [];
      var valid := ValidateTargets(f.protocol, specs);
      if valid.Err? {
        return valid, bs;
      }
      var scheme := NormalScheme(f.targetScheme);
      if scheme.Err? {
        return Err(scheme.error), bs;
      }
      if !commits {
        return Err("update resource"), bs;
      }
      if id: nat :| id in resources && resources[id].name == name {
        var others := Filtered(targets, NotOf(id));
        var rows;
        rows, bs := InsertTargets(others, id, specs);
        if rows.Err? {
          return Err(rows.error), bs;
        }
        assert Accepted(nodes, f, specs, bs);
        resources, targets := resources[id := Stored(name, f, scheme.value)], rows.value;
        UpdateExact(old(Tables()), name, f, specs, bs, Tables());
        r := Ok(());
      } else {
        r := Err("not found");
      }
    }

    /** The rows of resource_targets go with their resource, by the foreign key's cascade. */
    method DeleteResource(name: string, commits: bool) returns (r: Result<()>)
      requires Valid(Tables())
      modifies this
      ensures Valid(Tables())
      ensures r.Ok? ==> Deletes(old(Tables()), name, Tables())
      ensures r.Ok? <==> commits && old(ResourceNamed(resources, name).Some?)
      ensures r.Err? ==> unchanged(this)
    {
      if !commits {
        return Err("delete resource");
      }
      if id: nat :| id in resources && resources[id].name == name {
        resources, targets := resources - {id}, Filtered(targets, NotOf(id));
        DeleteKeepsValid(old(Tables()), name, Tables());
        r := Ok(());
      } else {
        r := Err("not found");
      }
    }

    /** Each resource once in name order, with exactly its resolved targets, sorted by role. */
    method ListResourcesWithTargets(le: Collation) returns (out: seq<Resource>)
      requires Valid(Tables()) && IsCollation(le)
      ensures exists ids :: Listing(Tables(), le, out, ids)
    {
      var rows := OrderedRows(le);
      var byID, order := Group(Tables(), le, rows);
      out := Collect(byID, order);
      ListingFromGroups(Tables(), le, rows, byID, order, out);
    }

    /** The query: the join, in the database's order. */
    method OrderedRows(le: Collation) returns (rows: seq<JoinRow>)
      requires IsCollation(le)
      ensures multiset(rows) == multiset(Join(Tables(), targets))
      ensures FromTables(Tables(), rows) && SortedBy(rows, RowLe(le)) && forall a :: le(a, a)
    {
      var joined := JoinRows();
      RowLeTotal(le);
      rows := Sort(joined, RowLe(le));
      JoinFromTables(Tables(), targets);
      SameSize(rows, joined);
    }

    method JoinRows() returns (rows: seq<JoinRow>)
      ensures rows == Join(Tables(), targets)
    {
      rows := [];
      for i := 0 to |targets|
        invariant rows == Join(Tables(), targets[..i])
      {
        var r := targets[i];
        assert targets[..i + 1][..i] == targets[..i];
        if r.resourceId in resources {
          rows := rows + [JoinRow(r.resourceId, resources[r.resourceId], Resolved(nodes, r.backend))];
        }
      }
      assert targets[..|targets|] == targets;
    }
  }

  /** Distinct resources in name order, none after a resource of the rows from `n` on. */
  ghost predicate InOrder(db: DB, le: Collation, rows: seq<JoinRow>, n: nat, order: seq<nat>) {
    && (forall i :: 0 <= i < |order| ==> order[i] in db.resources)
    && (forall i, j :: 0 <= i < j < |order| ==>
       order[i] != order[j] && le(db.resources[order[i]].name, db.resources[order[j]].name))
    && (forall i, m :: 0 <= i < |order| && n <= m < |rows| ==> le(db.resources[order[i]].name, rows[m].resource.name))
  }

  function Noted(order: seq<nat>, id: nat): seq<nat> {
    if id in order then order else order + [id]
  }

  lemma {:induction false} InOrderStep(db: DB, le: Collation, rows: seq<JoinRow>, n: nat, order: seq<nat>)
    requires (forall a :: le(a, a)) && SortedBy(rows, RowLe(le)) && n < |rows|
    requires rows[n].id in db.resources && rows[n].resource == db.resources[rows[n].id]
    requires InOrder(db, le, rows, n, order)
    ensures InOrder(db, le, rows, n + 1, Noted(order, rows[n].id))
  {
    var row := rows[n];
    forall m | n < m < |rows|
      ensures le(row.resource.name, rows[m].resource.name)
    {
      assert RowLe(le)(row, rows[m]);
      assert le(row.resource.name, row.resource.name);
    }
  }

  /** Where the pass stands before row `n`. */
  ghost predicate Passed(db: DB, le: Collation, rows: seq<JoinRow>, n: nat, byID: map<nat, Resource>, order: seq<nat>)
    requires n <= |rows|
  {
    Grouped(db, rows[..n], byID) && byID.Keys == SetOf(order) && InOrder(db, le, rows, n, order)
  }

  lemma {:induction false} PassedStep(db: DB, le: Collation, rows: seq<JoinRow>, n: nat, byID: map<nat, Resource>,
                                      order: seq<nat>)
    requires n < |rows| && Passed(db, le, rows, n, byID, order)
    requires (forall a :: le(a, a)) && FromTables(db, rows) && SortedBy(rows, RowLe(le))
    ensures Passed(db, le, rows, n + 1, Appended(byID, rows[n]), Noted(order, rows[n].id))
  {
    assert rows[n] in rows;
    GroupedStep(db, rows[..n], rows[n], byID);
    InOrderStep(db, le, rows, n, order);
    Snoc(rows, n);
    assert SetOf(Noted(order, rows[n].id)) == SetOf(order) + {rows[n].id};
  }

  /** One pass over the ordered rows: an entry for each resource at its first row, targets appended. */
  method Group(ghost db: DB, ghost le: Collation, rows: seq<JoinRow>)
      returns (byID: map<nat, Resource>, order: seq<nat>)
    requires (forall a :: le(a, a)) && FromTables(db, rows) && SortedBy(rows, RowLe(le))
    ensures Passed(db, le, rows, |rows|, byID, order)
  {
    byID, order := map[], [];
    for n := 0 to |rows|
      invariant Passed(db, le, rows, n, byID, order)
    {
      PassedStep(db, le, rows, n, byID, order);
      byID, order := GroupRow(byID, order, rows[n]);
    }
  }

  method GroupRow(byID0: map<nat, Resource>, order0: seq<nat>, row: JoinRow)
      returns (byID: map<nat, Resource>, order: seq<nat>)
    requires byID0.Keys == SetOf(order0)
    ensures byID == Appended(byID0, row) && order == Noted(order0, row.id)
  {
    byID, order := byID0, order0;
    if row.id !in byID {
      byID := byID[row.id := Entry(row.resource, [])];
      order := order + [row.id];
    }
    var r := byID[row.id];
    byID := byID[row.id := r.(targets := r.targets + [row.target])];
    assert row.id in byID0 <==> row.id in SetOf(order0);
  }

  method Collect(byID: map<nat, Resource>, order: seq<nat>) returns (out: seq<Resource>)
    requires byID.Keys == SetOf(order)
    ensures |out| == |order| && forall j :: 0 <= j < |out| ==> order[j] in byID && out[j] == byID[order[j]]
  {
    out := [];
    for i := 0 to |order|
      invariant |out| == i && forall j :: 0 <= j < i ==> order[j] in byID && out[j] == byID[order[j]]
    {
      assert order[i] in SetOf(order);
      out := out + [byID[order[i]]];
    }
  }

  lemma {:induction false} ListingFromGroups(db: DB, le: Collation, rows: seq<JoinRow>, byID: map<nat, Resource>,
                                             order: seq<nat>, out: seq<Resource>)
    requires Valid(db)
    requires multiset(rows) == multiset(Join(db, db.targets)) && SortedBy(rows, RowLe(le)) && FromTables(db, rows)
    requires Passed(db, le, rows, |rows|, byID, order)
    requires |out| == |order| && forall j :: 0 <= j < |out| ==> order[j] in byID && out[j] == byID[order[j]]
    ensures Listing(db, le, out, order)
  {
    var joined := Join(db, db.targets);
    SameSize(rows, joined);
    assert rows[..|rows|] == rows;
    forall i | 0 <= i < |out|
      ensures IsListed(db, le, order[i], out[i])
    {
      var id := order[i];
      PickedPermutation(rows, joined, id, db.resources[id]);
      PickedJoin(db, db.targets, id);
      PickedSorted(db, rows, id, le);
    }
    forall id | id in db.resources
      ensures id in order
    {
      SomePicked(db, rows, id);
      assert id in SetOf(order);
    }
  }
}

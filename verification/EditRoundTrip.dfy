/** Opening the edit form on a listed resource and submitting it untouched: what is kept, and what is not. */
module EditRoundTrip {
  import opened Wrappers
  import opened Text
  import opened Bags
  import opened TraefikConfig
  import opened ResourceStore
  import opened ResourceListing
  import opened ResourceDB
  import opened EditForm

  /** The body an untouched edit of this resource sends. */
  function NoOp(r: Resource): Body {
    Payload(InitialFormState(r))
  }

  // ----- targets -----

  /** One target, through form, payload and decoding. */
  function Edited(t: Target): TargetSpec {
    SpecOf(TargetPayload(TargetFromResource(t)))
  }

  lemma {:induction false} EditedExact(t: Target)
    requires t.role != ""
    ensures Edited(t) == if t.nodeName.Some? && t.nodeName.value != ""
                         then TargetSpec(t.nodeName.value, "", t.port, t.role)
                         else TargetSpec("", t.address, t.port, t.role)
  {
    DecimalRoundTrip(t.port);
  }

  /** What an untouched target resolves to when it is stored again. */
  ghost function Restored(nodes: map<nat, NodeRow>, t: Target): Backend {
    match BackendOf(nodes, Edited(t))
    case Some(b) => b
    case None => Backend(ToAddress(""), 0, "")
  }

  ghost function RestoredBy(nodes: map<nat, NodeRow>): Target -> Backend {
    (t: Target) => Restored(nodes, t)
  }

  /**
   * Listed with the nodes of one moment and stored again with those of a later one, a target keeps its node or
   * address.
   */
  lemma {:induction false} BackendRoundTrip(nodes: map<nat, NodeRow>, later: map<nat, NodeRow>, b: Backend)
    requires GoodBackend(nodes, b) && NodesKept(nodes, later)
    ensures BackendOf(later, Edited(Resolved(nodes, b))) == Some(b)
    ensures ExactlyOne(Edited(Resolved(nodes, b)))
  {
    EditedExact(Resolved(nodes, b));
  }

  /** The targets of a listing resolve again, to the stored ones up to order. */
  lemma {:induction false} TargetsRoundTrip(nodes: map<nat, NodeRow>, later: map<nat, NodeRow>, bs: seq<Backend>,
                                            ts: seq<Target>)
    returns (cs: seq<Backend>)
    requires (forall b :: b in bs ==> GoodBackend(nodes, b)) && NodesKept(nodes, later)
    requires multiset(ts) == multiset(ResolvedAll(nodes, bs))
    ensures multiset(cs) == multiset(bs)
    ensures |cs| == |ts|
    ensures forall i :: 0 <= i < |ts| ==> BackendOf(later, Edited(ts[i])) == Some(cs[i]) && ExactlyOne(Edited(ts[i]))
  {
    var us := ResolvedAll(nodes, bs);
    SameSize(ts, us);
    cs := Mapped(ts, RestoredBy(later));
    MappedPermutation(ts, us, RestoredBy(later));
    forall i | 0 <= i < |bs|
      ensures BackendOf(later, Edited(us[i])) == Some(bs[i]) && ExactlyOne(Edited(us[i]))
    {
      BackendRoundTrip(nodes, later, bs[i]);
    }
    assert Mapped(us, RestoredBy(later)) == bs;
    forall i | 0 <= i < |ts|
      ensures BackendOf(later, Edited(ts[i])) == Some(cs[i]) && ExactlyOne(Edited(ts[i]))
    {
      assert ts[i] in us;
      var k :| 0 <= k < |us| && us[k] == ts[i];
    }
  }

  // ----- the update -----

  /** The columns an untouched edit writes: for tcp and udp the http-only ones, and the domain, are reset. */
  function NoOpFields(f: Fields): Fields {
    if f.protocol == "http" then
      f.(domain := NonEmpty(f.domain), certResolver := NonEmpty(f.certResolver),
         targetSkipVerify := f.targetScheme == "https" && f.targetSkipVerify)
    else Fields(f.protocol, None, f.entryPoint, None, "http", false, false)
  }

  lemma {:induction false} FieldsRoundTrip(row: ResourceRow, ts: seq<Target>)
    requires row.fields.targetScheme in {"http", "https"}
    ensures var f := FieldsOf(NoOp(Entry(row, ts)));
            && f.protocol == row.fields.protocol && NormalScheme(f.targetScheme).Ok?
            && Stored(row.name, f, NormalScheme(f.targetScheme).value) == ResourceRow(row.name, NoOpFields(row.fields))
  {
  }

  lemma {:induction false} SpecsRoundTrip(r: Resource)
    ensures |Specs(NoOp(r))| == |r.targets|
    ensures forall i :: 0 <= i < |r.targets| ==> Specs(NoOp(r))[i] == Edited(r.targets[i])
    ensures (forall t :: t in r.targets ==> t.role != "") ==> SpecRoles(Specs(NoOp(r))) == TargetRoles(r.targets)
  {
    if forall t :: t in r.targets ==> t.role != "" {
      forall i | 0 <= i < |r.targets|
        ensures DefaultRole(Specs(NoOp(r))[i].role) == r.targets[i].role
      {
        EditedExact(r.targets[i]);
      }
    }
  }

  /** What an untouched edit does to the tables. */
  ghost predicate OnlyRewritten(db: DB, id: nat, after: DB) {
    && id in db.resources && after.nodes == db.nodes
    && after.resources == db.resources[id := ResourceRow(db.resources[id].name, NoOpFields(db.resources[id].fields))]
    && multiset(BackendsOf(after.targets, id)) == multiset(BackendsOf(db.targets, id))
    && forall j :: j != id ==> BackendsOf(after.targets, j) == BackendsOf(db.targets, j)
  }

  /** The request of an untouched edit is accepted. */
  lemma {:induction false} NoOpAccepted(db: DB, le: Collation, id: nat, r: Resource, later: map<nat, NodeRow>)
      returns (cs: seq<Backend>)
    requires Valid(db) && IsListed(db, le, id, r) && NodesKept(db.nodes, later)
    ensures Accepted(later, FieldsOf(NoOp(r)), Specs(NoOp(r)), cs)
    ensures multiset(cs) == multiset(BackendsOf(db.targets, id))
  {
    var bs, specs := BackendsOf(db.targets, id), Specs(NoOp(r));
    GoodBackends(db, id);
    ListedRoles(db, le, id, r);
    SpecsRoundTrip(r);
    FieldsRoundTrip(db.resources[id], r.targets);
    PermutedShape(r.protocol, db.nodes, bs, r.targets);
    cs := TargetsRoundTrip(db.nodes, later, bs, r.targets);
    forall t | t in specs
      ensures ExactlyOne(t)
    {
      var i :| 0 <= i < |specs| && specs[i] == t;
      assert t == Edited(r.targets[i]);
    }
  }

  /**
   * List, open the form, submit it untouched, with any node registrations in between: the update succeeds,
   * the resource's targets stay the same multiset of node link or address, port and role, and no other
   * resource changes.
   */
  lemma {:induction false} NoOpEdit(db: DB, le: Collation, id: nat, r: Resource, later: map<nat, NodeRow>)
    returns (cs: seq<Backend>, after: DB)
    requires Valid(db) && IsListed(db, le, id, r) && NodesKept(db.nodes, later)
    ensures Updates(db.(nodes := later), r.name, FieldsOf(NoOp(r)), Specs(NoOp(r)), cs, after)
    ensures Valid(after) && OnlyRewritten(db.(nodes := later), id, after)
  {
    cs := NoOpAccepted(db, le, id, r, later);
    var now, f := db.(nodes := later), FieldsOf(NoOp(r));
    NodesKeepValid(db, later);
    assert ResourceNamed(now.resources, r.name) == Some(id);
    after := DB(later, db.resources[id := Stored(r.name, f, NormalScheme(f.targetScheme).value)],
                Replaced(db.targets, id, cs));
    UpdateExact(now, r.name, f, Specs(NoOp(r)), cs, after);
    FieldsRoundTrip(db.resources[id], r.targets);
  }

  lemma {:induction false} UpdateDeterministic(db: DB, name: string, f: Fields, specs: seq<TargetSpec>,
                                               bs: seq<Backend>, after: DB, cs: seq<Backend>, other: DB)
    requires Updates(db, name, f, specs, bs, after) && Updates(db, name, f, specs, cs, other)
    ensures after == other
  {
    forall i | 0 <= i < |specs|
      ensures bs[i] == cs[i]
    {
      assert BackendOf(db.nodes, specs[i]) == Some(bs[i]);
    }
    assert bs == cs;
  }

  /** onSubmit of an untouched form, and the handler behind it: it fails only if the database does. */
  method SubmitUntouched(store: Store, r: Resource, commits: bool, ghost listed: DB, ghost le: Collation, ghost id: nat)
    returns (result: Result<()>)
    requires Valid(listed) && IsListed(listed, le, id, r) && NodesKept(listed.nodes, store.nodes)
    requires store.resources == listed.resources && store.targets == listed.targets
    modifies store
    ensures result.Ok? <==> commits
    ensures Valid(store.Tables())
    ensures result.Ok? ==> OnlyRewritten(old(store.Tables()), id, store.Tables())
    ensures result.Err? ==> unchanged(store)
  {
    ghost var now := store.Tables();
    ghost var cs, after := NoOpEdit(listed, le, id, r, store.nodes);
    assert now == listed.(nodes := store.nodes);
    NodesKeepValid(listed, store.nodes);
    var body := OnSubmit(InitialFormState(r));
    ghost var bs;
    result, bs := UpdateResourceHandler(store, r.name, body, commits);
    if result.Ok? {
      UpdateDeterministic(now, r.name, FieldsOf(body), Specs(body), bs, store.Tables(), cs, after);
    }
  }
}

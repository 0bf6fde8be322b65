/** The dashboard's edit form and the request it sends: from a listed resource to an update's arguments. */
module EditForm {
  import opened Wrappers
  import opened Text
  import opened TraefikConfig
  import opened ResourceStore
  import opened ResourceDB

  datatype FormTarget = FormTarget(kind: string, nodeName: string, address: string, port: string, role: string)
  datatype Form = Form(protocol: string, name: string, domain: string, entryPoint: string, certResolver: string,
                       targetScheme: string, targetSkipVerify: bool, sticky: bool, targets: seq<FormTarget>)

  /** A request body: `None` where the key is absent. */
  datatype TargetJSON = TargetJSON(nodeName: Option<string>, address: Option<string>, port: int, role: Option<string>)
  datatype Body = Body(name: string, protocol: string, domain: Option<string>, entryPoint: string,
                       certResolver: Option<string>, targetScheme: Option<string>, targetSkipVerify: Option<bool>,
                       sticky: Option<bool>, targets: seq<TargetJSON>)

  // ----- the form -----

  /** JavaScript's `s || d` for a string that may be null. */
  function Or(s: Option<string>, d: string): string {
    if s.Some? && s.value != "" then s.value else d
  }

  function TargetFromResource(t: Target): FormTarget {
    var node := Or(t.nodeName, "");
    FormTarget(if node != "" then "node" else "external", node, if node != "" then "" else t.address,
               Decimal(t.port), Or(Some(t.role), "primary"))
  }

  function InitialFormState(r: Resource): Form {
    Form(r.protocol, r.name, Or(r.domain, ""), r.entryPoint, Or(r.certResolver, ""), Or(Some(r.targetScheme), "http"),
         r.targetSkipVerify, r.sticky,
         seq(|r.targets|, i requires 0 <= i < |r.targets| => TargetFromResource(r.targets[i])))
  }

  function TargetPayload(t: FormTarget): TargetJSON {
    TargetJSON(if t.kind == "node" then Some(t.nodeName) else None, if t.kind == "node" then None else Some(t.address),
               DecimalValue(t.port), if t.role != "" then Some(t.role) else None)
  }

  /** targetToPayload, field by field. */
  method TargetToPayload(t: FormTarget) returns (payload: TargetJSON)
    ensures payload == TargetPayload(t)
  {
    payload := TargetJSON(None, None, DecimalValue(t.port), None);
    if t.kind == "node" {
      payload := payload.(nodeName := Some(t.nodeName));
    } else {
      payload := payload.(address := Some(t.address));
    }
    if t.role != "" {
      payload := payload.(role := Some(t.role));
    }
  }

  /** What a submit sends. */
  function Payload(f: Form): Body {
    var http := f.protocol == "http";
    Body(f.name, f.protocol, if http then Some(f.domain) else None, f.entryPoint,
         if http && f.certResolver != "" then Some(f.certResolver) else None,
         if http then Some(f.targetScheme) else None,
         if http && f.targetScheme == "https" then Some(f.targetSkipVerify) else None,
         if http then Some(f.sticky) else None,
         seq(|f.targets|, i requires 0 <= i < |f.targets| => TargetPayload(f.targets[i])))
  }

  /** onSubmit, up to the request: one payload for each target, http-only keys for http only. */
  method OnSubmit(f: Form) returns (payload: Body)
    ensures payload == Payload(f)
  {
    var targets := [];
    for i := 0 to |f.targets|
      invariant |targets| == i && forall j :: 0 <= j < i ==> targets[j] == TargetPayload(f.targets[j])
    {
      var t := TargetToPayload(f.targets[i]);
      targets := targets + [t];
    }
    var domain, certResolver, targetScheme: Option<string> := None, None, None;
    var targetSkipVerify, sticky: Option<bool> := None, None;
    if f.protocol == "http" {
      domain, targetScheme, sticky := Some(f.domain), Some(f.targetScheme), Some(f.sticky);
      if f.certResolver != "" {
        certResolver := Some(f.certResolver);
      }
      if f.targetScheme == "https" {
        targetSkipVerify := Some(f.targetSkipVerify);
      }
    }
    payload := Body(f.name, f.protocol, domain, f.entryPoint, certResolver, targetScheme, targetSkipVerify, sticky,
                    targets);
  }

  // ----- the handler -----

  /** Absent keys decode to zero values. */
  function SpecOf(t: TargetJSON): TargetSpec {
    TargetSpec(if t.nodeName.Some? then t.nodeName.value else "", if t.address.Some? then t.address.value else "",
               t.port, if t.role.Some? then t.role.value else "")
  }

  function Specs(b: Body): seq<TargetSpec> {
    seq(|b.targets|, i requires 0 <= i < |b.targets| => SpecOf(b.targets[i]))
  }

  /** The field that goes with the target's kind. */
  function Chosen(t: FormTarget): string {
    if t.kind == "node" then t.nodeName else t.address
  }

  function FormRoles(f: Form): seq<string> {
    seq(|f.targets|, i requires 0 <= i < |f.targets| => DefaultRole(f.targets[i].role))
  }

  /**
   * A submitted form passes the server's target validation exactly if its roles have the protocol's shape and each
   * target's field of its own kind is filled in, whatever is left in the other.
   */
  lemma {:induction false} SubmitValidExactly(f: Form)
    ensures ValidSpecs(f.protocol, Specs(Payload(f)))
       <==> Shape(f.protocol, FormRoles(f)) && forall t :: t in f.targets ==> Chosen(t) != ""
  {
    var specs := Specs(Payload(f));
    forall i | 0 <= i < |f.targets|
      ensures ExactlyOne(specs[i]) <==> Chosen(f.targets[i]) != ""
      ensures SpecRoles(specs)[i] == FormRoles(f)[i]
    {
    }
    assert SpecRoles(specs) == FormRoles(f);
    if forall t :: t in specs ==> ExactlyOne(t) {
      forall t | t in f.targets
        ensures Chosen(t) != ""
      {
        var i :| 0 <= i < |f.targets| && f.targets[i] == t;
        assert specs[i] in specs;
      }
    }
    if forall t :: t in f.targets ==> Chosen(t) != "" {
      forall t | t in specs
        ensures ExactlyOne(t)
      {
        var i :| 0 <= i < |specs| && specs[i] == t;
        assert f.targets[i] in f.targets;
      }
    }
  }

  function NonEmpty(s: Option<string>): Option<string> {
    if s.Some? && s.value != "" then s else None
  }

  function FieldsOf(b: Body): Fields {
    Fields(b.protocol, NonEmpty(b.domain), b.entryPoint, NonEmpty(b.certResolver),
           if b.targetScheme.Some? then b.targetScheme.value else "",
           b.targetSkipVerify == Some(true), b.sticky == Some(true))
  }

  /**
   * What a submit asks the update to write: the http columns only for http, an empty domain or resolver as absent,
   * and verification skipped only over https.
   */
  lemma {:induction false} SubmittedFields(f: Form)
    ensures FieldsOf(Payload(f))
         == if f.protocol == "http" then
              Fields("http", if f.domain == "" then None else Some(f.domain), f.entryPoint,
                     if f.certResolver == "" then None else Some(f.certResolver), f.targetScheme,
                     f.targetScheme == "https" && f.targetSkipVerify, f.sticky)
            else Fields(f.protocol, None, f.entryPoint, None, "", false, false)
  {
  }

  /** ... and each target: the node's name or the address, whichever its kind says. */
  lemma {:induction false} SubmittedTarget(f: Form, i: nat, port: int)
    requires i < |f.targets| && f.targets[i].port == Decimal(port)
    ensures |Specs(Payload(f))| == |f.targets|
    ensures var t := f.targets[i];
            Specs(Payload(f))[i] == if t.kind == "node" then TargetSpec(t.nodeName, "", port, t.role)
                                    else TargetSpec("", t.address, port, t.role)
  {
    DecimalRoundTrip(port);
  }

  /** decodeResourceRequest, as far as targets go. */
  method DecodeTargets(b: Body) returns (targets: seq<TargetSpec>)
    ensures targets == Specs(b)
    ensures |targets| == |b.targets| && forall i :: 0 <= i < |targets| ==>
              && targets[i].nodeName == (if b.targets[i].nodeName == None then "" else b.targets[i].nodeName.value)
              && targets[i].address == (if b.targets[i].address == None then "" else b.targets[i].address.value)
              && targets[i].port == b.targets[i].port
              && targets[i].role == (if b.targets[i].role == None then "" else b.targets[i].role.value)
  {
    targets := [];
    for i := 0 to |b.targets|
      invariant |targets| == i && forall j :: 0 <= j < i ==> targets[j] == SpecOf(b.targets[j])
    {
      targets := targets + [SpecOf(b.targets[i])];
    }
  }

  /** The row an update of a decoded body leaves. */
  ghost predicate RowDecoded(before: map<nat, ResourceRow>, name: string, b: Body, after: map<nat, ResourceRow>) {
    exists id :: id in before && before[id].name == name
      && after == before[id := ResourceRow(name, Fields(b.protocol,
           if b.domain == Some("") then None else b.domain, b.entryPoint,
           if b.certResolver == Some("") then None else b.certResolver,
           if b.targetScheme == None || b.targetScheme == Some("") then "http" else b.targetScheme.value,
           b.targetSkipVerify == Some(true), b.sticky == Some(true)))]
  }

  lemma {:induction false} UpdateDecodes(db: DB, name: string, b: Body, specs: seq<TargetSpec>, bs: seq<Backend>,
                                         after: DB)
    requires Valid(db) && Updates(db, name, FieldsOf(b), specs, bs, after)
    ensures RowDecoded(db.resources, name, b, after.resources)
  {
    UpdateExact(db, name, FieldsOf(b), specs, bs, after);
    var id := ResourceNamed(db.resources, name).value;
    assert id in db.resources && db.resources[id].name == name;
  }

  method DecodeFields(b: Body) returns (f: Fields)
    ensures f == FieldsOf(b)
  {
    var domain, certResolver: Option<string> := None, None;
    if b.domain.Some? && b.domain.value != "" {
      domain := b.domain;
    }
    if b.certResolver.Some? && b.certResolver.value != "" {
      certResolver := b.certResolver;
    }
    var scheme := if b.targetScheme.Some? then b.targetScheme.value else "";
    f := Fields(b.protocol, domain, b.entryPoint, certResolver, scheme, b.targetSkipVerify == Some(true),
                b.sticky == Some(true));
  }

  /** updateResourceHandler: the name comes from the path, the body's own is ignored. */
  method UpdateResourceHandler(store: Store, name: string, b: Body, commits: bool)
      returns (r: Result<()>, ghost bs: seq<Backend>)
    requires Valid(store.Tables())
    modifies store
    ensures Valid(store.Tables())
    ensures r.Ok? ==> Updates(old(store.Tables()), name, FieldsOf(b), Specs(b), bs, store.Tables())
    ensures r.Ok? <==> commits && old(ResourceNamed(store.resources, name).Some?
                                      && exists cs :: Accepted(store.nodes, FieldsOf(b), Specs(b), cs))
    ensures r.Ok? ==> RowDecoded(old(store.resources), name, b, store.resources)
    ensures r.Err? ==> unchanged(store)
  {
    var targets := DecodeTargets(b);
    var f := DecodeFields(b);
    r, bs := store.UpdateResource(name, f, targets, commits);
    if r.Ok? {
      UpdateDecodes(old(store.Tables()), name, b, targets, bs, store.Tables());
    }
  }
}

/** Sequences of enabled steps: what one handler does when no other runs in between. */
module ProtocolPaths {
  import opened Wrappers
  import opened Mesh
  import opened Registry
  import opened Protocol

  /** Enabled steps leading from `s` to `t`. */
  ghost predicate Path(cidr: Cidr, s: State, steps: seq<Step>, t: State)
    requires cidr.ones <= 32
    decreases |steps|
  {
    if steps == [] then s == t
    else Enabled(cidr, s, steps[0]) && Path(cidr, Apply(s, steps[0]), steps[1..], t)
  }

  lemma OneStep(cidr: Cidr, s: State, step: Step, t: State)
    requires cidr.ones <= 32 && Enabled(cidr, s, step) && t == Apply(s, step)
    ensures Path(cidr, s, [step], t)
  {
    assert [step][1..] == [];
  }

  lemma {:induction false} PathAppend(cidr: Cidr, s: State, a: seq<Step>, t: State, b: seq<Step>, u: State)
    requires cidr.ones <= 32 && Path(cidr, s, a, t) && Path(cidr, t, b, u)
    ensures Path(cidr, s, a + b, u)
    decreases |a|
  {
    if a == [] {
      assert a + b == b;
    } else {
      PathAppend(cidr, Apply(s, a[0]), a[1..], t, b, u);
      assert (a + b)[0] == a[0] && (a + b)[1..] == a[1..] + b;
    }
  }

  /** Some sequence of enabled steps leads from `s` to `t`. */
  ghost predicate Leads(cidr: Cidr, s: State, t: State)
    requires cidr.ones <= 32
  {
    exists steps :: Path(cidr, s, steps, t)
  }

  lemma PathLeads(cidr: Cidr, s: State, steps: seq<Step>, t: State)
    requires cidr.ones <= 32 && Path(cidr, s, steps, t)
    ensures Leads(cidr, s, t)
  {
  }

  lemma LeadsOn(cidr: Cidr, s: State, t: State, u: State)
    requires cidr.ones <= 32 && Leads(cidr, s, t) && Leads(cidr, t, u)
    ensures Leads(cidr, s, u)
  {
    var a :| Path(cidr, s, a, t);
    var b :| Path(cidr, t, b, u);
    PathAppend(cidr, s, a, t, b, u);
  }

  /** The state with one handler elsewhere. */
  function At(s: State, c: nat, phase: Phase): State
    requires c in s.handlers
  {
    s.(handlers := s.handlers[c := s.handlers[c].(phase := phase)])
  }

  /** The state with one handler's `publicKey` variable assigned. */
  function Keyed(s: State, c: nat, publicKey: string): State
    requires c in s.handlers
  {
    s.(handlers := s.handlers[c := s.handlers[c].(publicKey := publicKey)])
  }

  function StoredAs(s: State, c: nat, p: Payload, t: Table): State
    requires c in s.handlers
  {
    At(Keyed(s, c, p.publicKey), c, Stored(p)).(table := t)
  }

  function Inserted(s: State, c: nat, p: Payload): State
    requires c in s.handlers
  {
    s.(conns := s.conns[p.publicKey := c],
       handlers := s.handlers[c := s.handlers[c].(phase := Reading, inserted := true)])
  }

  /** No address left: the register message is read, then the allocation fails. */
  lemma ExhaustedPath(cidr: Cidr, s: State, c: nat, p: Payload)
    requires cidr.ones <= 32 && In(s, c) && s.handlers[c].phase == Reading
    ensures Path(cidr, s, [Step.ReadRegister(c, p)] + [Step.Fail(c)], Keyed(s, c, p.publicKey))
  {
    var s1 := Apply(s, Step.ReadRegister(c, p));
    OneStep(cidr, s, Step.ReadRegister(c, p), s1);
    assert Apply(s1, Step.Fail(c)) == Keyed(s, c, p.publicKey);
    OneStep(cidr, s1, Step.Fail(c), Keyed(s, c, p.publicKey));
    PathAppend(cidr, s, [Step.ReadRegister(c, p)], s1, [Step.Fail(c)], Keyed(s, c, p.publicKey));
  }

  lemma AllocatePath(cidr: Cidr, s: State, c: nat, p: Payload, v: int)
    requires cidr.ones <= 32 && In(s, c) && s.handlers[c].phase == Reading && LeastFree(cidr, MeshIPs(s.table), v)
    ensures Path(cidr, s, [Step.ReadRegister(c, p)] + [Step.Allocate(c, v)],
                 At(Keyed(s, c, p.publicKey), c, Allocated(p, v)))
  {
    var s1 := Apply(s, Step.ReadRegister(c, p));
    var s2 := At(Keyed(s, c, p.publicKey), c, Allocated(p, v));
    OneStep(cidr, s, Step.ReadRegister(c, p), s1);
    assert Apply(s1, Step.Allocate(c, v)) == s2;
    OneStep(cidr, s1, Step.Allocate(c, v), s2);
    PathAppend(cidr, s, [Step.ReadRegister(c, p)], s1, [Step.Allocate(c, v)], s2);
  }

  lemma StoreStep(cidr: Cidr, s: State, c: nat, p: Payload, v: int, r: Option<Table>)
    requires cidr.ones <= 32 && In(s, c) && s.handlers[c].phase == Reading
    requires r == Upsert(s.table, p.name, p.publicKey, v, EndpointOf(p, s.handlers[c].remoteHost), p.subnets)
    ensures Path(cidr, At(Keyed(s, c, p.publicKey), c, Allocated(p, v)), [Step.Store(c)],
                 if r.None? then Keyed(s, c, p.publicKey) else StoredAs(s, c, p, r.value))
  {
    var s2 := At(Keyed(s, c, p.publicKey), c, Allocated(p, v));
    var s3 := if r.None? then Keyed(s, c, p.publicKey) else StoredAs(s, c, p, r.value);
    assert Apply(s2, Step.Store(c)) == s3;
    OneStep(cidr, s2, Step.Store(c), s3);
  }

  /** Allocation, then an upsert that conflicts or stores. */
  lemma StorePath(cidr: Cidr, s: State, c: nat, p: Payload, v: int, r: Option<Table>)
    requires cidr.ones <= 32 && In(s, c) && s.handlers[c].phase == Reading && LeastFree(cidr, MeshIPs(s.table), v)
    requires r == Upsert(s.table, p.name, p.publicKey, v, EndpointOf(p, s.handlers[c].remoteHost), p.subnets)
    ensures Path(cidr, s, [Step.ReadRegister(c, p)] + [Step.Allocate(c, v)] + [Step.Store(c)],
                 if r.None? then Keyed(s, c, p.publicKey) else StoredAs(s, c, p, r.value))
  {
    AllocatePath(cidr, s, c, p, v);
    StoreStep(cidr, s, c, p, v, r);
    PathAppend(cidr, s, [Step.ReadRegister(c, p)] + [Step.Allocate(c, v)],
               At(Keyed(s, c, p.publicKey), c, Allocated(p, v)), [Step.Store(c)], if r.None?
                   then Keyed(s, c, p.publicKey) else StoredAs(s, c, p, r.value));
  }

  lemma JoinPath(cidr: Cidr, s: State, c: nat, p: Payload, nodes: seq<Node>)
    requires cidr.ones <= 32 && In(s, c) && s.handlers[c].phase == Stored(p) && Lists(nodes, s.table)
    ensures Path(cidr, s, [Step.Join(c)] + [Step.Snapshot(c, nodes)], At(Inserted(s, c, p), c, Replying(p, nodes)))
  {
    var s1 := Apply(s, Step.Join(c));
    var s2 := At(Inserted(s, c, p), c, Replying(p, nodes));
    OneStep(cidr, s, Step.Join(c), s1);
    assert Apply(s1, Step.Snapshot(c, nodes)) == s2;
    OneStep(cidr, s1, Step.Snapshot(c, nodes), s2);
    PathAppend(cidr, s, [Step.Join(c)], s1, [Step.Snapshot(c, nodes)], s2);
  }

  lemma BroadcastPath(cidr: Cidr, s: State, c: nat, nodes: seq<Node>, reached: seq<string>)
    requires cidr.ones <= 32 && In(s, c) && s.handlers[c].phase == Broadcasting(nodes)
    requires Distinct(reached) && forall k :: k in reached ==> k in s.conns
    ensures Path(cidr, s, [Step.Broadcast(c, reached)],
                 At(s, c, Reading).(agents := SendAll(s.agents, s.conns, reached, nodes)))
  {
    OneStep(cidr, s, Step.Broadcast(c, reached), Apply(s, Step.Broadcast(c, reached)));
  }

  /** The reply is written, then the broadcast. */
  lemma ReplyPath(cidr: Cidr, s: State, c: nat, p: Payload, nodes: seq<Node>, reached: seq<string>)
    requires cidr.ones <= 32 && In(s, c) && s.handlers[c].phase == Replying(p, nodes)
    requires Distinct(reached) && forall k :: k in reached ==> k in s.conns
    ensures Path(cidr, s, [Step.Reply(c)] + [Step.Broadcast(c, reached)],
                 At(s, c, Reading).(agents := SendAll(Send(s.agents, c, PeersExcept(p.publicKey, nodes)), s.conns,
                                                      reached, nodes)))
  {
    var s1 := At(s, c, Broadcasting(nodes)).(agents := Send(s.agents, c, PeersExcept(p.publicKey, nodes)));
    ReplyStep(cidr, s, c, p, nodes);
    BroadcastPath(cidr, s1, c, nodes, reached);
    assert At(s1, c, Reading).handlers == At(s, c, Reading).handlers;
    PathAppend(cidr, s, [Step.Reply(c)], s1, [Step.Broadcast(c, reached)],
               At(s1, c, Reading).(agents := SendAll(s1.agents, s1.conns, reached, nodes)));
  }

  lemma ReplyStep(cidr: Cidr, s: State, c: nat, p: Payload, nodes: seq<Node>)
    requires cidr.ones <= 32 && In(s, c) && s.handlers[c].phase == Replying(p, nodes)
    ensures Path(cidr, s, [Step.Reply(c)],
                 At(s, c, Broadcasting(nodes)).(agents := Send(s.agents, c, PeersExcept(p.publicKey, nodes))))
  {
    var s1 := At(s, c, Broadcasting(nodes)).(agents := Send(s.agents, c, PeersExcept(p.publicKey, nodes)));
    assert Apply(s, Step.Reply(c)) == s1;
    OneStep(cidr, s, Step.Reply(c), s1);
  }

  lemma HeartbeatStart(cidr: Cidr, s: State, c: nat, nodes: seq<Node>)
    requires cidr.ones <= 32 && In(s, c) && s.handlers[c].phase == Reading && s.handlers[c].publicKey != ""
    requires Lists(nodes, s.table)
    ensures Path(cidr, s, [Step.ReadHeartbeat(c)] + [Step.Snapshot(c, nodes)], At(s, c, Broadcasting(nodes)))
  {
    var s1, s2 := At(s, c, Touched), At(s, c, Broadcasting(nodes));
    OneStep(cidr, s, Step.ReadHeartbeat(c), s1);
    assert Apply(s1, Step.Snapshot(c, nodes)) == s2;
    OneStep(cidr, s1, Step.Snapshot(c, nodes), s2);
    PathAppend(cidr, s, [Step.ReadHeartbeat(c)], s1, [Step.Snapshot(c, nodes)], s2);
  }

  function HeartbeatSteps(c: nat, nodes: seq<Node>, reached: seq<string>): seq<Step> {
    ([Step.ReadHeartbeat(c)] + [Step.Snapshot(c, nodes)]) + [Step.Broadcast(c, reached)]
  }

  lemma HeartbeatPath(cidr: Cidr, s: State, c: nat, nodes: seq<Node>, reached: seq<string>)
    requires cidr.ones <= 32 && In(s, c) && s.handlers[c].phase == Reading && s.handlers[c].publicKey != ""
    requires Lists(nodes, s.table)
    requires Distinct(reached) && forall k :: k in reached ==> k in s.conns
    ensures Path(cidr, s, HeartbeatSteps(c, nodes, reached), s.(agents := SendAll(s.agents, s.conns, reached, nodes)))
  {
    var s2 := At(s, c, Broadcasting(nodes));
    var t := At(s2, c, Reading).(agents := SendAll(s.agents, s.conns, reached, nodes));
    HeartbeatStart(cidr, s, c, nodes);
    BroadcastPath(cidr, s2, c, nodes, reached);
    assert t.handlers == s.handlers;
    PathAppend(cidr, s, [Step.ReadHeartbeat(c)] + [Step.Snapshot(c, nodes)], s2, [Step.Broadcast(c, reached)], t);
  }

  /** From the stored row on, when the reply cannot be written. */
  lemma ReplyFailsPath(cidr: Cidr, s: State, c: nat, p: Payload, nodes: seq<Node>)
    requires cidr.ones <= 32 && In(s, c) && s.handlers[c].phase == Stored(p) && Lists(nodes, s.table)
    ensures Leads(cidr, s, Inserted(s, c, p))
  {
    var replying := At(Inserted(s, c, p), c, Replying(p, nodes));
    JoinPath(cidr, s, c, p, nodes);
    assert Apply(replying, Step.Fail(c)) == Inserted(s, c, p);
    OneStep(cidr, replying, Step.Fail(c), Inserted(s, c, p));
    PathAppend(cidr, s, [Step.Join(c)] + [Step.Snapshot(c, nodes)], replying, [Step.Fail(c)], Inserted(s, c, p));
  }

  lemma BackToReading(s: State, c: nat, phase: Phase, agents: map<nat, Agent>)
    requires c in s.handlers && s.handlers[c].phase == Reading
    ensures At(At(s, c, phase), c, Reading).(agents := agents) == s.(agents := agents)
  {
    assert At(At(s, c, phase), c, Reading).handlers == s.handlers;
  }

  /** From the stored row on, when it can. */
  lemma ReplySentPath(cidr: Cidr, s: State, c: nat, p: Payload, nodes: seq<Node>, reached: seq<string>)
    requires cidr.ones <= 32 && In(s, c) && s.handlers[c].phase == Stored(p) && Lists(nodes, s.table)
    requires Distinct(reached) && forall k :: k in reached ==> k in Inserted(s, c, p).conns
    ensures var i := Inserted(s, c, p);
            Leads(cidr, s, i.(agents := SendAll(Send(i.agents, c, PeersExcept(p.publicKey, nodes)), i.conns, reached,
                                                nodes)))
  {
    var i := Inserted(s, c, p);
    var agents := SendAll(Send(i.agents, c, PeersExcept(p.publicKey, nodes)), i.conns, reached, nodes);
    var replying := At(i, c, Replying(p, nodes));
    JoinPath(cidr, s, c, p, nodes);
    PathLeads(cidr, s, [Step.Join(c)] + [Step.Snapshot(c, nodes)], replying);
    ReplyPath(cidr, replying, c, p, nodes, reached);
    BackToReading(i, c, Replying(p, nodes), agents);
    PathLeads(cidr, replying, [Step.Reply(c)] + [Step.Broadcast(c, reached)], i.(agents := agents));
    LeadsOn(cidr, s, replying, i.(agents := agents));
  }
}

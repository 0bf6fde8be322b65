/**
 * The registration, heartbeat and broadcast protocol as a step relation. Handlers run concurrently; only the
 * table's UNIQUE constraints and the mutex around `conns` synchronise them, so each database call, each
 * locked section and each write is a step of its own.
 */
module Protocol {
  import opened Wrappers
  import opened Text
  import opened WgSpec
  import opened Mesh
  import opened Registry

  /** A register message. */
  datatype Payload = Payload(name: string, publicKey: string, port: int, endpoint: string, subnets: seq<string>)

  /** The endpoint a node registers with: its override, else the address it connected from. */
  function EndpointOf(p: Payload, remoteHost: string): string {
    if p.endpoint != "" then p.endpoint else remoteHost + ":" + Decimal(p.port)
  }

  /** Where a handler stands between two steps. `Allocated` holds a candidate, the last two hold a snapshot. */
  datatype Phase =
    | Reading
    | Registering(p: Payload)
    | Allocated(p: Payload, candidate: int)
    | Stored(p: Payload)
    | Joined(p: Payload)
    | Touched
    | Replying(p: Payload, nodes: seq<Node>)
    | Broadcasting(nodes: seq<Node>)
    | Closed

  /** One connection's handler: its `publicKey` variable, and whether it has ever been put into `conns`. */
  datatype Handler = Handler(remoteHost: string, publicKey: string, phase: Phase, inserted: bool)

  /** The agent at the other end: its interface, the lists sent to it and not yet applied, the last one applied. */
  datatype Agent = Agent(iface: Interface, inbox: seq<seq<PeerInfo>>, last: Option<seq<PeerInfo>>, clean: bool)

  datatype State = State(table: Table, handlers: map<nat, Handler>, conns: map<string, nat>, agents: map<nat, Agent>)

  datatype Step =
    | Connect(c: nat, remoteHost: string, iface: Interface)
    | ReadRegister(c: nat, p: Payload)
    | Allocate(c: nat, candidate: int)
    | Store(c: nat)
    | Join(c: nat)
    | ReadHeartbeat(c: nat)
    | Snapshot(c: nat, nodes: seq<Node>)
    | Reply(c: nat)
    | Broadcast(c: nat, reached: seq<string>)
    | Fail(c: nat)
    | Close(c: nat)
    | Deliver(c: nat, stuck: set<string>, clean: bool, iface: Interface)

  // ----- steps -----

  function Send(agents: map<nat, Agent>, c: nat, peers: seq<PeerInfo>): map<nat, Agent> {
    if c in agents then agents[c := agents[c].(inbox := agents[c].inbox + [peers])] else agents
  }

  /** One list to each connection whose write went through, in the order the map yields the keys. */
  function SendAll(agents: map<nat, Agent>, conns: map<string, nat>, reached: seq<string>,
                   nodes: seq<Node>): map<nat, Agent>
    requires forall k :: k in reached ==> k in conns
  {
    if reached == [] then agents else
      var k := reached[|reached| - 1];
      Send(SendAll(agents, conns, reached[..|reached| - 1], nodes), conns[k], PeersExcept(k, nodes))
  }

  predicate In(s: State, c: nat) {
    c in s.handlers && c in s.agents
  }

  ghost predicate Enabled(cidr: Cidr, s: State, step: Step)
    requires cidr.ones <= 32
  {
    var c := step.c;
    if step.Connect? then c !in s.handlers else
      && In(s, c)
      && var ph := s.handlers[c].phase;
         match step
         case ReadRegister(_, _) => ph == Reading
         case Allocate(_, candidate) => ph.Registering? && LeastFree(cidr, MeshIPs(s.table), candidate)
         case Store(_) => ph.Allocated?
         case Join(_) => ph.Stored?
         case ReadHeartbeat(_) => ph == Reading && s.handlers[c].publicKey != ""
         case Snapshot(_, nodes) => (ph.Joined? || ph.Touched?) && Lists(nodes, s.table)
         case Reply(_) => ph.Replying?
         case Broadcast(_, reached) => ph.Broadcasting? && (forall k :: k in reached ==> k in s.conns)
             && Distinct(reached)
         case Fail(_) => ph.Registering? || ph.Allocated? || ph.Joined? || ph.Touched? || ph.Replying?
         case Close(_) => ph == Reading
         case Deliver(_, stuck, clean, iface) => s.agents[c].inbox != [] && Delivers(s.agents[c], stuck, clean, iface)
  }

  ghost predicate Distinct(ks: seq<string>) {
    forall i, j :: 0 <= i < j < |ks| ==> ks[i] != ks[j]
  }

  /** Applying the oldest list: cleanly, or as any attempt may end. */
  ghost predicate Delivers(a: Agent, stuck: set<string>, clean: bool, iface: Interface)
    requires a.inbox != []
  {
    if clean then iface == Reconciled(a.iface, a.inbox[0], stuck) else Attempt(a.iface, a.inbox[0], stuck, iface)
  }

  /** What the Store step asks of the table. */
  function Stores(t: Table, h: Handler): Option<Table>
    requires h.phase.Allocated?
  {
    var p := h.phase.p;
    Upsert(t, p.name, p.publicKey, h.phase.candidate, EndpointOf(p, h.remoteHost), p.subnets)
  }

  function NextTable(s: State, step: Step): Table
    requires step.c in s.handlers
  {
    var h := s.handlers[step.c];
    if step.Store? && h.phase.Allocated? && Stores(s.table, h).Some? then Stores(s.table, h).value else s.table
  }

  function NextHandler(t: Table, h: Handler, step: Step): Handler {
    match (step, h.phase)
    case (ReadRegister(_, p), _) => h.(publicKey := p.publicKey, phase := Registering(p))
    case (Allocate(_, candidate), Registering(p)) => h.(phase := Allocated(p, candidate))
    case (Store(_), Allocated(p, _)) => h.(phase := if Stores(t, h).Some? then Stored(p) else Reading)
    case (Join(_), Stored(p)) => h.(phase := Joined(p), inserted := true)
    case (ReadHeartbeat(_), _) => h.(phase := Touched)
    case (Snapshot(_, nodes), Joined(p)) => h.(phase := Replying(p, nodes))
    case (Snapshot(_, nodes), Touched) => h.(phase := Broadcasting(nodes))
    case (Reply(_), Replying(_, nodes)) => h.(phase := Broadcasting(nodes))
    case (Broadcast(_, _), _) => h.(phase := Reading)
    case (Fail(_), _) => h.(phase := Reading)
    case (Close(_), _) => h.(phase := Closed)
    case _ => h
  }

  function NextConns(conns: map<string, nat>, h: Handler, step: Step): map<string, nat> {
    match (step, h.phase)
    case (Join(c), Stored(p)) => conns[p.publicKey := c]
    case (Close(_), _) => if h.publicKey != "" then conns - {h.publicKey} else conns
    case _ => conns
  }

  function NextAgents(s: State, step: Step): map<nat, Agent>
    requires In(s, step.c)
  {
    match (step, s.handlers[step.c].phase)
    case (Reply(c), Replying(p, nodes)) => Send(s.agents, c, PeersExcept(p.publicKey, nodes))
    case (Broadcast(_, reached), Broadcasting(nodes)) =>
      if forall k :: k in reached ==> k in s.conns then SendAll(s.agents, s.conns, reached, nodes) else s.agents
    case (Deliver(c, _, clean, iface), _) =>
      var a := s.agents[c];
      if a.inbox == [] then s.agents else s.agents[c := Agent(iface, a.inbox[1..], Some(a.inbox[0]), clean)]
    case _ => s.agents
  }

  function Apply(s: State, step: Step): State
    requires step.Connect? || In(s, step.c)
  {
    var c := step.c;
    match step
    case Connect(_, remoteHost, iface) =>
      s.(handlers := s.handlers[c := Handler(remoteHost, "", Reading, false)],
         agents := s.agents[c := Agent(iface, [], None, false)])
    case _ =>
      State(NextTable(s, step), s.handlers[c := NextHandler(s.table, s.handlers[c], step)],
            NextConns(s.conns, s.handlers[c], step), NextAgents(s, step))
  }

  // ----- runs -----

  /** The server starts with the table an earlier process left, and with no connection. */
  ghost predicate Initial(cidr: Cidr, s: State)
    requires cidr.ones <= 32
  {
    Sound(cidr, s.table) && s.handlers == map[] && s.conns == map[] && s.agents == map[]
  }

  ghost predicate IsRun(cidr: Cidr, run: seq<State>, steps: seq<Step>)
    requires cidr.ones <= 32
  {
    |run| == |steps| + 1 && forall i :: 0 <= i < |steps| ==> Takes(cidr, run, steps, i)
  }

  /** Step `i` of the run is enabled and taken. */
  ghost predicate Takes(cidr: Cidr, run: seq<State>, steps: seq<Step>, i: nat)
    requires cidr.ones <= 32 && i < |steps| && i + 1 < |run|
  {
    Enabled(cidr, run[i], steps[i]) && run[i + 1] == Apply(run[i], steps[i])
  }

  // ----- registry safety -----

  /** The table is sound and every outstanding candidate, however stale, is a host address. */
  ghost predicate RegistryInv(cidr: Cidr, s: State)
    requires cidr.ones <= 32
  {
    && Sound(cidr, s.table)
    && forall c :: c in s.handlers && s.handlers[c].phase.Allocated? ==> IsHost(cidr, s.handlers[c].phase.candidate)
  }

  lemma StepKeepsRegistry(cidr: Cidr, s: State, step: Step)
    requires cidr.ones <= 32 && RegistryInv(cidr, s) && Enabled(cidr, s, step)
    ensures RegistryInv(cidr, Apply(s, step)) && Extends(s.table, Apply(s, step).table)
  {
    if step.Store? {
      var h := s.handlers[step.c];
      var p := h.phase.p;
      UpsertSound(cidr, s.table, p.name, p.publicKey, h.phase.candidate, EndpointOf(p, h.remoteHost), p.subnets);
    }
  }

  lemma {:induction false} RegistryAlong(cidr: Cidr, run: seq<State>, steps: seq<Step>, j: nat)
    requires cidr.ones <= 32 && IsRun(cidr, run, steps) && Initial(cidr, run[0]) && j <= |steps|
    ensures RegistryInv(cidr, run[j])
  {
    if j > 0 {
      RegistryAlong(cidr, run, steps, j - 1);
      assert Takes(cidr, run, steps, j - 1);
      StepKeepsRegistry(cidr, run[j - 1], steps[j - 1]);
    }
  }

  lemma {:induction false} ExtendsAlong(cidr: Cidr, run: seq<State>, steps: seq<Step>, i: nat, j: nat)
    requires cidr.ones <= 32 && IsRun(cidr, run, steps) && Initial(cidr, run[0]) && i <= j <= |steps|
    ensures Extends(run[i].table, run[j].table)
    decreases j
  {
    if i < j {
      ExtendsAlong(cidr, run, steps, i, j - 1);
      RegistryAlong(cidr, run, steps, j - 1);
      assert Takes(cidr, run, steps, j - 1);
      StepKeepsRegistry(cidr, run[j - 1], steps[j - 1]);
    }
  }

  /**
   * In every interleaving: names, keys and mesh IPs stay pairwise distinct, every mesh IP is a host address of
   * the CIDR, the table never shrinks, and a name keeps its mesh IP.
   */
  lemma {:induction false} RegistrySafety(cidr: Cidr, run: seq<State>, steps: seq<Step>, i: nat, j: nat)
    requires cidr.ones <= 32 && IsRun(cidr, run, steps) && Initial(cidr, run[0])
    requires i <= j <= |steps|
    ensures Sound(cidr, run[j].table) && RegistryInv(cidr, run[j]) && Extends(run[i].table, run[j].table)
    ensures |run[j].table| + |FreeHosts(cidr, run[j].table)| == Capacity(cidr)
  {
    RegistryAlong(cidr, run, steps, j);
    ExtendsAlong(cidr, run, steps, i, j);
    Conservation(cidr, run[j].table);
  }
}

/** What the server sends: every list fit for its receiver, and the last list of each agent known exactly. */
module Broadcasts {
  import opened Wrappers
  import opened Bags
  import opened WgSpec
  import opened Mesh
  import opened Registry
  import opened Protocol
  import opened Connections

  // ----- one step, one agent -----

  /** The snapshot the acting handler holds. */
  function SnapshotOf(s: State, step: Step): seq<Node> {
    if step.c !in s.handlers then []
    else match s.handlers[step.c].phase
      case Replying(_, nodes) => nodes
      case Broadcasting(nodes) => nodes
      case _ => []
  }

  /** The broadcast is written to this connection. */
  predicate Reaches(s: State, step: Step, c: nat) {
    && step.Broadcast? && In(s, c)
    && s.handlers[c].publicKey in step.reached && Holds(s, s.handlers[c].publicKey, c)
  }

  predicate SendsTo(s: State, step: Step, c: nat) {
    (step.Reply? && step.c == c) || Reaches(s, step, c)
  }

  lemma {:induction false} SendAllTo(agents: map<nat, Agent>, conns: map<string, nat>, reached: seq<string>,
                                     nodes: seq<Node>, c: nat, key: string)
    requires (forall k :: k in reached ==> k in conns) && Distinct(reached)
    requires c in agents && forall k :: k in conns && conns[k] == c ==> k == key
    ensures SendAll(agents, conns, reached, nodes).Keys == agents.Keys
    ensures SendAll(agents, conns, reached, nodes)[c]
         == if key in reached && conns[key] == c then agents[c].(inbox := agents[c].inbox + [PeersExcept(key, nodes)])
             else agents[c]
  {
    if reached != [] {
      var n := |reached| - 1;
      var front, k := reached[..n], reached[n];
      assert reached == front + [k];
      assert k !in front by {
        assert forall i :: 0 <= i < n ==> front[i] == reached[i];
      }
      SendAllTo(agents, conns, front, nodes, c, key);
    }
  }

  lemma {:induction false} SendAllKeys(agents: map<nat, Agent>, conns: map<string, nat>, reached: seq<string>,
                                       nodes: seq<Node>)
    requires forall k :: k in reached ==> k in conns
    ensures SendAll(agents, conns, reached, nodes).Keys == agents.Keys
  {
    if reached != [] {
      SendAllKeys(agents, conns, reached[..|reached| - 1], nodes);
    }
  }

  lemma {:induction false} BroadcastAgent(s: State, step: Step, c: nat)
    requires step.Broadcast? && In(s, step.c) && s.handlers[step.c].phase.Broadcasting? && In(s, c) && OwnEntries(s, c)
    requires (forall k :: k in step.reached ==> k in s.conns) && Distinct(step.reached)
    ensures c in Apply(s, step).agents
    ensures Apply(s, step).agents[c]
         == if Reaches(s, step, c)
            then s.agents[c].(inbox := s.agents[c].inbox + [PeersExcept(s.handlers[c].publicKey, SnapshotOf(s, step))])
            else s.agents[c]
  {
    assert forall k :: k in s.conns && s.conns[k] == c ==> Holds(s, k, c);
    SendAllTo(s.agents, s.conns, step.reached, s.handlers[step.c].phase.nodes, c, s.handlers[c].publicKey);
  }

  /** What a step does to an agent: delivers its oldest list, sends it its own view of a snapshot, or nothing. */
  lemma {:induction false} StepAgent(cidr: Cidr, s: State, step: Step, c: nat)
    requires cidr.ones <= 32 && Enabled(cidr, s, step) && In(s, c) && OwnEntries(s, c)
    ensures c in Apply(s, step).agents
    ensures var a, b := s.agents[c], Apply(s, step).agents[c];
            if step.Deliver? && step.c == c then
              a.inbox != [] && b == Agent(step.iface, a.inbox[1..], Some(a.inbox[0]), step.clean)
            else if SendsTo(s, step, c) then
              b == a.(inbox := a.inbox + [PeersExcept(s.handlers[c].publicKey, SnapshotOf(s, step))])
            else b == a
  {
    if step.Broadcast? {
      BroadcastAgent(s, step, c);
    } else if step.Reply? {
      assert step.c == c ==> HandlerKeys(s.handlers[c]);
    }
  }

  lemma {:induction false} StepIn(cidr: Cidr, s: State, step: Step)
    requires cidr.ones <= 32 && Enabled(cidr, s, step) && s.agents.Keys == s.handlers.Keys
    ensures var t := Apply(s, step);
            t.agents.Keys == t.handlers.Keys == if step.Connect? then s.handlers.Keys + {step.c} else s.handlers.Keys
  {
    if step.Broadcast? {
      SendAllKeys(s.agents, s.conns, step.reached, s.handlers[step.c].phase.nodes);
    }
  }

  // ----- every list is fit for its receiver -----

  /** A list fit for the agent with this key: not the agent itself, no key and no mesh IP twice. */
  ghost predicate GoodList(key: string, peers: seq<PeerInfo>) {
    (forall p :: p in peers ==> p.publicKey != key) && DistinctKeys(peers) && DistinctIPs(peers)
  }

  lemma {:induction false} ListingDistinct(cidr: Cidr, t: Table, nodes: seq<Node>)
    requires Fits(cidr) && Sound(cidr, t) && Lists(nodes, t)
    ensures DistinctNodes(nodes)
  {
    forall i, j | 0 <= i < j < |nodes|
      ensures nodes[i].publicKey != nodes[j].publicKey && nodes[i].meshIP != nodes[j].meshIP
    {
      var m, n := nodes[i], nodes[j];
      assert m in nodes && n in nodes;
      if m.meshIP == n.meshIP {
        AddressInjective(t[m.name].meshIP, t[n.name].meshIP);
      }
    }
  }

  lemma {:induction false} ViewGood(key: string, nodes: seq<Node>)
    requires DistinctNodes(nodes)
    ensures GoodList(key, PeersExcept(key, nodes))
  {
    PeersExceptExact(key, nodes);
  }

  /** Outstanding snapshots have distinct keys and mesh IPs. */
  ghost predicate SnapshotsGood(s: State) {
    forall c :: c in s.handlers ==> var ph := s.handlers[c].phase; ph.Replying? || ph.Broadcasting? ==>
        DistinctNodes(ph.nodes)
  }

  /** Every list sent to this agent and not yet applied, and the last one applied, are fit for it. */
  ghost predicate AgentListsGood(key: string, a: Agent) {
    && (a.inbox != [] || a.last.Some? ==> key != "")
    && (forall m :: m in a.inbox ==> GoodList(key, m))
    && (a.last.Some? ==> GoodList(key, a.last.value))
  }

  lemma {:induction false} StepKeepsSnapshots(cidr: Cidr, s: State, step: Step)
    requires Fits(cidr) && Sound(cidr, s.table) && Enabled(cidr, s, step) && SnapshotsGood(s)
    ensures SnapshotsGood(Apply(s, step))
  {
    if step.Snapshot? {
      ListingDistinct(cidr, s.table, step.nodes);
    }
  }

  lemma {:induction false} SnapshotDistinct(cidr: Cidr, s: State, step: Step, c: nat)
    requires cidr.ones <= 32 && Enabled(cidr, s, step) && SnapshotsGood(s) && SendsTo(s, step, c)
    ensures DistinctNodes(SnapshotOf(s, step))
  {
  }

  /** The sender's list is for a key the receiver has. */
  lemma {:induction false} ReceiverKey(cidr: Cidr, s: State, step: Step, c: nat)
    requires cidr.ones <= 32 && Enabled(cidr, s, step) && In(s, c) && OwnEntries(s, c) && SendsTo(s, step, c)
    ensures s.handlers[c].publicKey != ""
  {
    if step.Reply? {
      assert HandlerKeys(s.handlers[step.c]);
    }
  }

  /** One list more, or one applied, keeps an agent's lists good. */
  lemma {:induction false} AgentStaysGood(key: string, a: Agent, b: Agent, sent: seq<PeerInfo>)
    requires AgentListsGood(key, a)
    requires b == a || (a.inbox != [] && b.inbox == a.inbox[1..] && b.last == Some(a.inbox[0]))
          || (key != "" && GoodList(key, sent) && b == a.(inbox := a.inbox + [sent]))
    ensures AgentListsGood(key, b)
  {
  }

  lemma {:induction false} AgentKeepsGood(cidr: Cidr, s: State, step: Step, c: nat)
    requires cidr.ones <= 32 && Enabled(cidr, s, step) && In(s, c)
    requires OwnEntries(s, c) && SnapshotsGood(s) && AgentListsGood(s.handlers[c].publicKey, s.agents[c])
    ensures c in Apply(s, step).agents && AgentListsGood(s.handlers[c].publicKey, Apply(s, step).agents[c])
  {
    StepAgent(cidr, s, step, c);
    var sent := PeersExcept(s.handlers[c].publicKey, SnapshotOf(s, step));
    if SendsTo(s, step, c) {
      SnapshotDistinct(cidr, s, step, c);
      ReceiverKey(cidr, s, step, c);
      ViewGood(s.handlers[c].publicKey, SnapshotOf(s, step));
    }
    AgentStaysGood(s.handlers[c].publicKey, s.agents[c], Apply(s, step).agents[c], sent);
  }

  lemma {:induction false} SnapshotsAlong(cidr: Cidr, run: seq<State>, steps: seq<Step>, j: nat)
    requires Fits(cidr) && IsRun(cidr, run, steps) && Initial(cidr, run[0]) && j <= |steps|
    ensures SnapshotsGood(run[j])
  {
    if j > 0 {
      SnapshotsAlong(cidr, run, steps, j - 1);
      RegistrySafety(cidr, run, steps, j - 1, j - 1);
      assert Takes(cidr, run, steps, j - 1);
      StepKeepsSnapshots(cidr, run[j - 1], steps[j - 1]);
    }
  }

  lemma {:induction false} StepKeepsSent(cidr: Cidr, s: State, step: Step, c: nat)
    requires cidr.ones <= 32 && Enabled(cidr, s, step) && (step.c == c ==> OneKey(s, step)) && In(s, c)
    requires OwnEntries(s, c) && SnapshotsGood(s) && AgentListsGood(s.handlers[c].publicKey, s.agents[c])
    ensures In(Apply(s, step), c) && AgentListsGood(Apply(s, step).handlers[c].publicKey, Apply(s, step).agents[c])
  {
    AgentKeepsGood(cidr, s, step, c);
    StepHandlers(cidr, s, step, c);
    if step.ReadRegister? && step.c == c {
      StepAgent(cidr, s, step, c);
    }
  }

  /**
   * No list ever sent to an agent whose connection registers one key contains that key, or a key or a mesh IP
   * twice, whatever the other connections do.
   */
  lemma {:induction false} SentLists(cidr: Cidr, run: seq<State>, steps: seq<Step>, j: nat, c: nat)
    requires Fits(cidr) && IsRun(cidr, run, steps) && Initial(cidr, run[0]) && j <= |steps|
    requires OneKeyOf(run, steps, j, c)
    requires In(run[j], c)
    ensures AgentListsGood(run[j].handlers[c].publicKey, run[j].agents[c])
  {
    assert Takes(cidr, run, steps, j - 1);
    AgentsAre(cidr, run, steps, j - 1);
    if c in run[j - 1].agents {
      SentLists(cidr, run, steps, j - 1, c);
      OwnAlong(cidr, run, steps, j - 1, c);
      SnapshotsAlong(cidr, run, steps, j - 1);
      StepKeepsSent(cidr, run[j - 1], steps[j - 1], c);
    } else {
      StepIn(cidr, run[j - 1], steps[j - 1]);
    }
  }

  // ----- the last list sent -----

  /** The last list sent to this agent, applied or not. */
  function LastSent(a: Agent): Option<seq<PeerInfo>> {
    if a.inbox != [] then Some(a.inbox[|a.inbox| - 1]) else a.last
  }

  /** Step `i` sends to `c`, and no later step before `j` does. */
  ghost predicate LastSender(run: seq<State>, steps: seq<Step>, i: int, j: nat, c: nat)
    requires |run| == |steps| + 1 && j <= |steps|
  {
    0 <= i < j && In(run[i], c) && SendsTo(run[i], steps[i], c)
        && forall m :: i < m < j ==> !SendsTo(run[m], steps[m], c)
  }

  lemma {:induction false} StepLastSent(cidr: Cidr, s: State, step: Step, c: nat)
    requires cidr.ones <= 32 && Enabled(cidr, s, step) && In(s, c) && OwnEntries(s, c)
    ensures c in Apply(s, step).agents
    ensures LastSent(Apply(s, step).agents[c])
         == if SendsTo(s, step, c) then Some(PeersExcept(s.handlers[c].publicKey, SnapshotOf(s, step)))
             else LastSent(s.agents[c])
  {
    StepAgent(cidr, s, step, c);
  }

  lemma {:induction false} RunLastSent(cidr: Cidr, run: seq<State>, steps: seq<Step>, n: nat, c: nat)
    requires cidr.ones <= 32 && IsRun(cidr, run, steps) && Initial(cidr, run[0]) && n < |steps|
    requires OneKeyOf(run, steps, n, c)
    requires In(run[n], c)
    ensures In(run[n + 1], c)
    ensures LastSent(run[n + 1].agents[c])
         == if SendsTo(run[n], steps[n], c)
             then Some(PeersExcept(run[n].handlers[c].publicKey, SnapshotOf(run[n], steps[n])))
            else LastSent(run[n].agents[c])
  {
    OwnAlong(cidr, run, steps, n, c);
    assert Takes(cidr, run, steps, n);
    StepLastSent(cidr, run[n], steps[n], c);
    RunHandlers(cidr, run, steps, n, c);
  }

  ghost predicate NothingSent(run: seq<State>, steps: seq<Step>, i: int, j: nat, c: nat)
    requires |run| == |steps| + 1 && j <= |steps|
  {
    0 <= i && forall m :: i <= m < j ==> !SendsTo(run[m], steps[m], c)
  }

  lemma {:induction false} Unsent(cidr: Cidr, run: seq<State>, steps: seq<Step>, i: nat, j: nat, c: nat)
    requires cidr.ones <= 32 && IsRun(cidr, run, steps) && Initial(cidr, run[0]) && i <= j <= |steps|
    requires OneKeyOf(run, steps, j, c)
    requires In(run[i], c) && NothingSent(run, steps, i, j, c)
    ensures In(run[j], c) && LastSent(run[j].agents[c]) == LastSent(run[i].agents[c])
    decreases j
  {
    if i < j {
      Unsent(cidr, run, steps, i, j - 1, c);
      RunLastSent(cidr, run, steps, j - 1, c);
    }
  }

  /** What was sent last is the sender's snapshot, as the receiver should see it. */
  lemma {:induction false} LastSentBy(cidr: Cidr, run: seq<State>, steps: seq<Step>, i: nat, j: nat, c: nat)
    requires cidr.ones <= 32 && IsRun(cidr, run, steps) && Initial(cidr, run[0]) && j <= |steps|
    requires OneKeyOf(run, steps, j, c)
    requires LastSender(run, steps, i, j, c)
    ensures In(run[j], c)
    ensures LastSent(run[j].agents[c]) == Some(PeersExcept(run[j].handlers[c].publicKey, SnapshotOf(run[i], steps[i])))
  {
    OwnAlong(cidr, run, steps, i, c);
    assert Takes(cidr, run, steps, i);
    ReceiverKey(cidr, run[i], steps[i], c);
    KeyStays(cidr, run, steps, i, j, c);
    RunLastSent(cidr, run, steps, i, c);
    assert NothingSent(run, steps, i + 1, j, c);
    Unsent(cidr, run, steps, i + 1, j, c);
  }

  /** An agent to which something was sent was there a step before. */
  lemma {:induction false} Before(cidr: Cidr, run: seq<State>, steps: seq<Step>, n: nat, c: nat)
    requires cidr.ones <= 32 && IsRun(cidr, run, steps) && Initial(cidr, run[0]) && n < |steps|
    requires In(run[n + 1], c) && LastSent(run[n + 1].agents[c]).Some?
    ensures In(run[n], c)
  {
    AgentsAre(cidr, run, steps, n);
    assert Takes(cidr, run, steps, n);
    StepIn(cidr, run[n], steps[n]);
  }

  /** Something was sent, by some last step. */
  lemma {:induction false} SenderFound(cidr: Cidr, run: seq<State>, steps: seq<Step>, j: nat, c: nat) returns (i: nat)
    requires cidr.ones <= 32 && IsRun(cidr, run, steps) && Initial(cidr, run[0]) && j <= |steps|
    requires OneKeyOf(run, steps, j, c)
    requires In(run[j], c) && LastSent(run[j].agents[c]).Some?
    ensures LastSender(run, steps, i, j, c)
  {
    Before(cidr, run, steps, j - 1, c);
    RunLastSent(cidr, run, steps, j - 1, c);
    if SendsTo(run[j - 1], steps[j - 1], c) {
      i := j - 1;
    } else {
      i := SenderFound(cidr, run, steps, j - 1, c);
    }
  }

  lemma {:induction false} AgentsAre(cidr: Cidr, run: seq<State>, steps: seq<Step>, j: nat)
    requires cidr.ones <= 32 && IsRun(cidr, run, steps) && Initial(cidr, run[0]) && j <= |steps|
    ensures run[j].agents.Keys == run[j].handlers.Keys
  {
    if j > 0 {
      AgentsAre(cidr, run, steps, j - 1);
      assert Takes(cidr, run, steps, j - 1);
      StepIn(cidr, run[j - 1], steps[j - 1]);
    }
  }

  // ----- views of the table -----

  /** `peers` is what the agent with this key should see of table `t`. */
  ghost predicate IsView(peers: seq<PeerInfo>, key: string, t: Table) {
    exists nodes :: Lists(nodes, t) && peers == PeersExcept(key, nodes)
  }

  function NodeOfRow(name: string, r: Row): Node
    requires r.meshIP >= 0
  {
    Node(name, r.publicKey, Address(r.meshIP), r.lastEndpoint, r.advertisedSubnets)
  }

  /** The rows of a table, as a snapshot shows them. */
  function Rows(t: Table): set<Node> {
    set name | name in t && t[name].meshIP >= 0 :: NodeOfRow(name, t[name])
  }

  /** What the node with this key is to see of these nodes. */
  function OthersIn(nodes: set<Node>, key: string): set<PeerInfo> {
    set n | n in nodes && n.publicKey != key :: PeerOf(n)
  }

  /** Snapshot and table have the same other nodes, with the same addresses, endpoints and subnets. */
  ghost predicate Agrees(nodes: seq<Node>, t: Table, key: string) {
    OthersIn(SetOf(nodes), key) == OthersIn(Rows(t), key)
  }

  /** Each row once: no two entries with the same name. */
  ghost predicate ListsRows(nodes: seq<Node>, rows: set<Node>) {
    SetOf(nodes) == rows && forall i, j :: 0 <= i < j < |nodes| ==> nodes[i].name != nodes[j].name
  }

  lemma {:induction false} ListsAsSet(nodes: seq<Node>, t: Table)
    requires forall n :: n in t ==> t[n].meshIP >= 0
    ensures Lists(nodes, t) <==> ListsRows(nodes, Rows(t))
  {
    if Lists(nodes, t) {
      ListedAreRows(nodes, t);
    }
    if ListsRows(nodes, Rows(t)) {
      RowsAreListed(nodes, t);
    }
  }

  lemma {:induction false} RowNode(n: Node, r: Row)
    requires r.meshIP >= 0
    ensures IsRow(n, r) <==> n == NodeOfRow(n.name, r)
  {
  }

  lemma {:induction false} ListedAreRows(nodes: seq<Node>, t: Table)
    requires Lists(nodes, t)
    ensures SetOf(nodes) == Rows(t)
  {
    forall n | n in nodes
      ensures n in Rows(t)
    {
      RowNode(n, t[n.name]);
    }
    forall name | name in t && t[name].meshIP >= 0
      ensures NodeOfRow(name, t[name]) in nodes
    {
      var n :| n in nodes && n.name == name;
      RowNode(n, t[name]);
    }
  }

  lemma {:induction false} RowsAreListed(nodes: seq<Node>, t: Table)
    requires (forall n :: n in t ==> t[n].meshIP >= 0) && ListsRows(nodes, Rows(t))
    ensures Lists(nodes, t)
  {
    forall n | n in nodes
      ensures n.name in t && IsRow(n, t[n.name])
    {
      assert n in SetOf(nodes);
      var name :| name in t && t[name].meshIP >= 0 && n == NodeOfRow(name, t[name]);
      RowNode(n, t[name]);
    }
    forall name | name in t
      ensures exists n :: n in nodes && n.name == name
    {
      assert NodeOfRow(name, t[name]) in Rows(t);
      assert NodeOfRow(name, t[name]) in SetOf(nodes);
    }
  }

  // ----- listings with a given view -----

  ghost predicate DistinctIn(rows: set<Node>) {
    forall m, n :: m in rows && n in rows && m != n ==> m.name != n.name && m.publicKey != n.publicKey
  }

  /** Some nodes of `rows`, in the order of these entries. */
  lemma {:induction false} NodesFor(peers: seq<PeerInfo>, key: string, rows: set<Node>) returns (ns: seq<Node>)
    requires forall i :: 0 <= i < |peers| ==> peers[i] in OthersIn(rows, key)
    ensures |ns| == |peers|
    ensures forall i :: 0 <= i < |ns| ==> ns[i] in rows && PeerOf(ns[i]) == peers[i] && ns[i].publicKey != key
  {
    ns := [];
    if peers != [] {
      var m := |peers| - 1;
      var front := NodesFor(peers[..m], key, rows);
      var n :| n in rows && n.publicKey != key && PeerOf(n) == peers[m];
      ns := front + [n];
    }
  }

  lemma {:induction false} PeersOfAll(ns: seq<Node>, peers: seq<PeerInfo>, key: string)
    requires |ns| == |peers| && forall i :: 0 <= i < |ns| ==> PeerOf(ns[i]) == peers[i] && ns[i].publicKey != key
    ensures PeersExcept(key, ns) == peers
  {
    if ns != [] {
      var m := |ns| - 1;
      PeersOfAll(ns[..m], peers[..m], key);
      assert peers == peers[..m] + [peers[m]];
    }
  }

  lemma {:induction false} OwnLast(ns: seq<Node>, own: Node, key: string, rows: set<Node>)
    requires DistinctIn(rows) && own in rows && own.publicKey == key
    requires SetOf(ns) == (set n | n in rows && n.publicKey != key)
    requires forall i, j :: 0 <= i < j < |ns| ==> ns[i].name != ns[j].name
    ensures ListsRows(ns + [own], rows) && PeersExcept(key, ns + [own]) == PeersExcept(key, ns)
  {
    var nodes := ns + [own];
    assert nodes[..|ns|] == ns;
    forall i | 0 <= i < |ns|
      ensures ns[i].name != own.name
    {
      assert ns[i] in SetOf(ns);
    }
    forall n
      ensures n in nodes <==> n in rows
    {
      assert n in nodes <==> n in ns || n == own;
      assert n in ns <==> n in SetOf(ns);
    }
    assert SetOf(nodes) == rows;
  }

  /** Rows in the order of the entries, and the receiver's own row after them. */
  lemma {:induction false} Relisted(peers: seq<PeerInfo>, key: string, rows: set<Node>) returns (nodes: seq<Node>)
    requires DistinctIn(rows) && DistinctKeys(peers) && SetOf(peers) == OthersIn(rows, key)
    ensures ListsRows(nodes, rows) && PeersExcept(key, nodes) == peers
  {
    assert forall i :: 0 <= i < |peers| ==> peers[i] in SetOf(peers);
    var ns := NodesFor(peers, key, rows);
    PeersOfAll(ns, peers, key);
    NodesAre(ns, peers, key, rows);
    if own :| own in rows && own.publicKey == key {
      nodes := ns + [own];
      OwnLast(ns, own, key, rows);
    } else {
      nodes := ns;
      assert SetOf(ns) == rows;
    }
  }

  lemma {:induction false} NodesAre(ns: seq<Node>, peers: seq<PeerInfo>, key: string, rows: set<Node>)
    requires DistinctIn(rows) && DistinctKeys(peers) && SetOf(peers) == OthersIn(rows, key)
    requires |ns| == |peers|
    requires forall i :: 0 <= i < |ns| ==> ns[i] in rows && PeerOf(ns[i]) == peers[i] && ns[i].publicKey != key
    ensures SetOf(ns) == (set n | n in rows && n.publicKey != key)
    ensures forall i, j :: 0 <= i < j < |ns| ==> ns[i].name != ns[j].name
  {
    forall i, j | 0 <= i < j < |ns|
      ensures ns[i].name != ns[j].name
    {
      assert peers[i].publicKey != peers[j].publicKey;
    }
    forall n | n in rows && n.publicKey != key
      ensures n in ns
    {
      assert PeerOf(n) in SetOf(peers);
      var i :| 0 <= i < |peers| && peers[i] == PeerOf(n);
      assert ns[i].publicKey == n.publicKey && ns[i] in ns;
    }
  }

  lemma {:induction false} RowsDistinct(t: Table)
    requires DistinctRows(t)
    ensures DistinctIn(Rows(t))
  {
    forall m, n | m in Rows(t) && n in Rows(t) && m != n
      ensures m.name != n.name && m.publicKey != n.publicKey
    {
      var a :| a in t && t[a].meshIP >= 0 && m == NodeOfRow(a, t[a]);
      var b :| b in t && t[b].meshIP >= 0 && n == NodeOfRow(b, t[b]);
      assert a != b;
    }
  }

  /** The list a snapshot yields for a key is a view of the table exactly if the two agree. */
  lemma {:induction false} ViewExactly(cidr: Cidr, nodes: seq<Node>, key: string, t: Table)
    requires cidr.ones <= 32 && Sound(cidr, t) && DistinctNodes(nodes)
    ensures IsView(PeersExcept(key, nodes), key, t) <==> Agrees(nodes, t, key)
  {
    var peers := PeersExcept(key, nodes);
    PeersExceptExact(key, nodes);
    PeersAsSet(key, nodes);
    if Agrees(nodes, t, key) {
      RowsDistinct(t);
      var ns := Relisted(peers, key, Rows(t));
      ListsAsSet(ns, t);
    }
    if ns :| Lists(ns, t) && peers == PeersExcept(key, ns) {
      ListedAreRows(ns, t);
      PeersAsSet(key, ns);
    }
  }

  lemma {:induction false} PeersAsSet(key: string, nodes: seq<Node>)
    ensures SetOf(PeersExcept(key, nodes)) == OthersIn(SetOf(nodes), key)
  {
    if nodes != [] {
      var front, last := nodes[..|nodes| - 1], nodes[|nodes| - 1];
      PeersAsSet(key, front);
      assert nodes == front + [last];
      assert SetOf(nodes) == SetOf(front) + {last};
      var a, b := PeersExcept(key, front), PeersExcept(key, nodes);
      if last.publicKey == key {
        assert b == a;
        assert OthersIn(SetOf(nodes), key) == OthersIn(SetOf(front), key);
      } else {
        assert b == a + [PeerOf(last)];
        assert SetOf(b) == SetOf(a) + {PeerOf(last)};
        assert OthersIn(SetOf(nodes), key) == OthersIn(SetOf(front), key) + {PeerOf(last)};
      }
    }
  }

  // ----- up to date, exactly -----

  /** The last list sent to `c` is a view of `t`. */
  ghost predicate UpToDate(s: State, c: nat, t: Table) {
    && c in s.agents && c in s.handlers
    && LastSent(s.agents[c]).Some? && IsView(LastSent(s.agents[c]).value, s.handlers[c].publicKey, t)
  }

  /**
   * After a broadcast that reaches `c`, `c` is up to date exactly if the snapshot broadcast agrees with the table
   * on the others.
   */
  lemma {:induction false} BroadcastExactly(cidr: Cidr, s: State, step: Step, c: nat)
    requires Fits(cidr) && Sound(cidr, s.table) && Enabled(cidr, s, step) && Reaches(s, step, c)
    requires OwnEntries(s, c) && SnapshotsGood(s)
    ensures UpToDate(Apply(s, step), c, s.table)
       <==> Agrees(SnapshotOf(s, step), s.table, s.handlers[c].publicKey)
  {
    StepLastSent(cidr, s, step, c);
    StepHandlers(cidr, s, step, c);
    SnapshotDistinct(cidr, s, step, c);
    ViewExactly(cidr, SnapshotOf(s, step), s.handlers[c].publicKey, s.table);
  }

  /**
   * Over every run in which the agent's own connection registers one key: the agent is up to date exactly if
   * something was sent to it and the snapshot behind the last list sent agrees with the present table on the other
   * nodes. Whoever sends last wins.
   */
  lemma {:induction false} UpToDateExactly(cidr: Cidr, run: seq<State>, steps: seq<Step>, j: nat, c: nat)
    requires Fits(cidr) && IsRun(cidr, run, steps) && Initial(cidr, run[0]) && j <= |steps|
    requires OneKeyOf(run, steps, j, c)
    requires In(run[j], c)
    ensures UpToDate(run[j], c, run[j].table)
       <==> exists i ::
              && LastSender(run, steps, i, j, c)
              && Agrees(SnapshotOf(run[i], steps[i]), run[j].table, run[j].handlers[c].publicKey)
  {
    var key, t := run[j].handlers[c].publicKey, run[j].table;
    forall i | LastSender(run, steps, i, j, c)
      ensures LastSent(run[j].agents[c]) == Some(PeersExcept(key, SnapshotOf(run[i], steps[i])))
      ensures IsView(PeersExcept(key, SnapshotOf(run[i], steps[i])), key, t)
         <==> Agrees(SnapshotOf(run[i], steps[i]), t, key)
    {
      LastSentBy(cidr, run, steps, i, j, c);
      SnapshotsAlong(cidr, run, steps, i);
      assert Takes(cidr, run, steps, i);
      SnapshotDistinct(cidr, run[i], steps[i], c);
      RegistrySafety(cidr, run, steps, j, j);
      ViewExactly(cidr, SnapshotOf(run[i], steps[i]), key, t);
    }
    if LastSent(run[j].agents[c]).Some? {
      var i := SenderFound(cidr, run, steps, j, c);
    }
  }
}

/** Runs from an empty table in which the connection map or an agent's last list goes wrong. */
module ProtocolRuns {
  import opened Wrappers
  import opened Bags
  import opened WgSpec
  import opened IpBytes
  import opened Mesh
  import opened Registry
  import opened Protocol
  import opened ProtocolPaths
  import opened Connections
  import opened Broadcasts
  import opened Convergence

  const LAN := Cidr([10, 0, 0, 0], 24)
  const START := State(map[], map[], map[], map[])
  const HOST := "h"
  const IDLE := Agent(EMPTY, [], None, false)

  lemma {:induction false} LanRange()
    ensures Parsed(LAN) && Mesh.Broadcast(LAN) == Network(LAN) + 255
  {
    ValueSnoc([10, 0, 0], 0);
    assert [10, 0, 0] + [0] == [10, 0, 0, 0];
    RoundDownWhole(Value([10, 0, 0]), 0, 0);
    Pow2Of8();
  }

  /** The first and the second address to be given out. */
  lemma {:induction false} FirstTwo()
    ensures LeastFree(LAN, {}, Network(LAN) + 1) && LeastFree(LAN, {Network(LAN) + 1}, Network(LAN) + 2)
  {
    LanRange();
  }

  lemma {:induction false} RunOf(cidr: Cidr, s: State, steps: seq<Step>, t: State) returns (run: seq<State>)
    requires cidr.ones <= 32 && Path(cidr, s, steps, t)
    ensures IsRun(cidr, run, steps) && run[0] == s && run[|steps|] == t
    decreases |steps|
  {
    if steps == [] {
      run := [s];
    } else {
      var rest := RunOf(cidr, Apply(s, steps[0]), steps[1..], t);
      run := [s] + rest;
      forall i | 0 <= i < |steps|
        ensures Takes(cidr, run, steps, i)
      {
        if i > 0 {
          assert Takes(cidr, rest, steps[1..], i - 1);
        }
      }
    }
  }

  // ----- connecting and registering -----

  function Connected(s: State, c: nat): State {
    s.(handlers := s.handlers[c := Handler(HOST, "", Reading, false)], agents := s.agents[c := IDLE])
  }

  lemma {:induction false} ConnectPath(s: State, c: nat)
    requires c !in s.handlers
    ensures Path(LAN, s, [Step.Connect(c, HOST, EMPTY)], Connected(s, c))
  {
    OneStep(LAN, s, Step.Connect(c, HOST, EMPTY), Connected(s, c));
  }

  function EnterSteps(c: nat, p: Payload, v: int): seq<Step> {
    [Step.ReadRegister(c, p)] + [Step.Allocate(c, v)] + [Step.Store(c)] + ([Step.Join(c)] + [Step.Fail(c)])
  }

  function Entered(s: State, c: nat, p: Payload, t: Table): State
    requires c in s.handlers
  {
    Inserted(StoredAs(s, c, p, t), c, p)
  }

  /** A registration that is entered into `conns` and then fails to list the nodes. */
  lemma {:induction false} EnterPath(s: State, c: nat, p: Payload, v: int, t: Table)
    requires In(s, c) && s.handlers[c].phase == Reading && s.handlers[c].remoteHost == HOST
    requires LeastFree(LAN, MeshIPs(s.table), v)
    requires Upsert(s.table, p.name, p.publicKey, v, EndpointOf(p, HOST), p.subnets) == Some(t)
    ensures Path(LAN, s, EnterSteps(c, p, v), Entered(s, c, p, t))
  {
    StorePath(LAN, s, c, p, v, Some(t));
    JoinFailPath(StoredAs(s, c, p, t), c, p);
    PathAppend(LAN, s, [Step.ReadRegister(c, p)] + [Step.Allocate(c, v)] + [Step.Store(c)], StoredAs(s, c, p, t),
               [Step.Join(c)] + [Step.Fail(c)], Entered(s, c, p, t));
  }

  lemma {:induction false} JoinFailPath(s: State, c: nat, p: Payload)
    requires In(s, c) && s.handlers[c].phase == Stored(p)
    ensures Path(LAN, s, [Step.Join(c)] + [Step.Fail(c)], Inserted(s, c, p))
  {
    var s1 := Apply(s, Step.Join(c));
    OneStep(LAN, s, Step.Join(c), s1);
    assert Apply(s1, Step.Fail(c)) == Inserted(s, c, p);
    OneStep(LAN, s1, Step.Fail(c), Inserted(s, c, p));
    PathAppend(LAN, s, [Step.Join(c)], s1, [Step.Fail(c)], Inserted(s, c, p));
  }

  /** The table with one row. */
  function OneRow(p: Payload): Table {
    map[p.name := Row(p.publicKey, Network(LAN) + 1, Some(EndpointOf(p, HOST)), p.subnets)]
  }

  lemma {:induction false} FirstUpsert(p: Payload)
    ensures Upsert(map[], p.name, p.publicKey, Network(LAN) + 1, EndpointOf(p, HOST), p.subnets) == Some(OneRow(p))
    ensures Upsert(OneRow(p), p.name, p.publicKey, Network(LAN) + 2, EndpointOf(p, HOST), p.subnets) == Some(OneRow(p))
    ensures MeshIPs(map[]) == {} && MeshIPs(OneRow(p)) == {Network(LAN) + 1}
  {
    var t := OneRow(p);
    assert p.name in t;
    assert t[p.name := t[p.name]] == t;
  }

  function EnterAnew(c: nat, p: Payload, v: int): seq<Step> {
    [Step.Connect(c, HOST, EMPTY)] + EnterSteps(c, p, v)
  }

  lemma {:induction false} EnteredShape(s: State, c: nat, p: Payload, t: Table)
    ensures var u := Entered(Connected(s, c), c, p, t);
            && u.handlers == s.handlers[c := Handler(HOST, p.publicKey, Reading, true)]
               && u.conns == s.conns[p.publicKey := c]
            && u.table == t && u.agents == s.agents[c := IDLE]
  {
  }

  lemma {:induction false} EnterNew(s: State, c: nat, p: Payload, v: int, t: Table) returns (u: State)
    requires c !in s.handlers && LeastFree(LAN, MeshIPs(s.table), v)
    requires Upsert(s.table, p.name, p.publicKey, v, EndpointOf(p, HOST), p.subnets) == Some(t)
    ensures Path(LAN, s, EnterAnew(c, p, v), u)
    ensures u.handlers == s.handlers[c := Handler(HOST, p.publicKey, Reading, true)]
    ensures u.conns == s.conns[p.publicKey := c]
    ensures u.table == t && u.agents == s.agents[c := IDLE]
  {
    u := Entered(Connected(s, c), c, p, t);
    ConnectPath(s, c);
    EnterPath(Connected(s, c), c, p, v, t);
    PathAppend(LAN, s, [Step.Connect(c, HOST, EMPTY)], Connected(s, c), EnterSteps(c, p, v), u);
    EnteredShape(s, c, p, t);
  }

  function FirstSteps(p: Payload): seq<Step> {
    EnterAnew(0, p, Network(LAN) + 1)
  }

  /** Connection 0, registered as `p`. */
  lemma {:induction false} FirstPath(p: Payload) returns (s: State)
    ensures Path(LAN, START, FirstSteps(p), s)
    ensures s == State(OneRow(p), map[0 := Handler(HOST, p.publicKey, Reading, true)], map[p.publicKey := 0],
                       map[0 := IDLE])
  {
    FirstTwo();
    FirstUpsert(p);
    s := EnterNew(START, 0, p, Network(LAN) + 1, OneRow(p));
  }

  lemma {:induction false} ClosedShape(s: State)
    requires In(s, 0) && s.handlers[0].phase == Reading
    ensures Enabled(LAN, s, Step.Close(0))
    ensures var u := Apply(s, Step.Close(0));
            && u.handlers == s.handlers[0 := s.handlers[0].(phase := Closed)]
            && u.conns == if s.handlers[0].publicKey != "" then s.conns - {s.handlers[0].publicKey} else s.conns
  {
  }

  /** A path from the start, closed by connection 0, as a run. */
  lemma {:induction false} CloseRun(steps: seq<Step>, s: State) returns (run: seq<State>)
    requires Path(LAN, START, steps, s) && In(s, 0) && s.handlers[0].phase == Reading
    ensures IsRun(LAN, run, steps + [Step.Close(0)]) && Initial(LAN, run[0])
    ensures run[|steps| + 1].handlers == s.handlers[0 := s.handlers[0].(phase := Closed)]
    ensures run[|steps| + 1].conns == if s.handlers[0].publicKey != "" then s.conns - {s.handlers[0].publicKey}
            else s.conns
  {
    ClosedShape(s);
    OneStep(LAN, s, Step.Close(0), Apply(s, Step.Close(0)));
    PathAppend(LAN, START, steps, s, [Step.Close(0)], Apply(s, Step.Close(0)));
    run := RunOf(LAN, START, steps + [Step.Close(0)], Apply(s, Step.Close(0)));
  }

  // ----- the connection map goes wrong -----

  function LateSteps(p: Payload): seq<Step> {
    FirstSteps(p) + EnterAnew(1, p, Network(LAN) + 2)
  }

  lemma {:induction false} LatePath(p: Payload) returns (s: State)
    ensures Path(LAN, START, LateSteps(p), s) && In(s, 0)
    ensures s.handlers == map[0 := Handler(HOST, p.publicKey, Reading, true),
                              1 := Handler(HOST, p.publicKey, Reading, true)]
    ensures s.conns == map[p.publicKey := 1]
  {
    FirstTwo();
    FirstUpsert(p);
    var first := FirstPath(p);
    s := Reconnected(first, p, Network(LAN) + 2, OneRow(p));
    PathAppend(LAN, START, FirstSteps(p), first, EnterAnew(1, p, Network(LAN) + 2), s);
  }

  lemma {:induction false} Reconnected(first: State, p: Payload, v: int, t: Table) returns (s: State)
    requires first.handlers == map[0 := Handler(HOST, p.publicKey, Reading, true)]
    requires first.conns == map[p.publicKey := 0] && 0 in first.agents
    requires LeastFree(LAN, MeshIPs(first.table), v)
    requires Upsert(first.table, p.name, p.publicKey, v, EndpointOf(p, HOST), p.subnets) == Some(t)
    ensures Path(LAN, first, EnterAnew(1, p, v), s) && In(s, 0)
    ensures s.handlers == map[0 := Handler(HOST, p.publicKey, Reading, true),
                              1 := Handler(HOST, p.publicKey, Reading, true)]
    ensures s.conns == map[p.publicKey := 1]
  {
    s := EnterNew(first, 1, p, v, t);
  }

  /**
   * After reconnecting under its key, a node's first connection ends late: the running one is not in `conns` any
   * more.
   */
  lemma {:induction false} LateDisconnect(p: Payload) returns (run: seq<State>, steps: seq<Step>)
    requires p.publicKey != ""
    ensures IsRun(LAN, run, steps) && Initial(LAN, run[0]) && steps == LateSteps(p) + [Step.Close(0)]
    ensures var s := run[|steps|];
            1 in s.handlers && Running(s.handlers[1]) && s.handlers[1].inserted
                && s.handlers[1].publicKey == p.publicKey && p.publicKey !in s.conns
  {
    var s := LatePath(p);
    run := CloseRun(LateSteps(p), s);
    steps := LateSteps(p) + [Step.Close(0)];
  }

  /** A node registered with an empty key leaves its entry behind. */
  lemma {:induction false} EmptyKeyLeaks(p: Payload) returns (run: seq<State>, steps: seq<Step>)
    requires p.publicKey == ""
    ensures IsRun(LAN, run, steps) && Initial(LAN, run[0]) && steps == FirstSteps(p) + [Step.Close(0)]
    ensures var s := run[|steps|]; Holds(s, "", 0) && 0 in s.handlers && !Running(s.handlers[0])
  {
    var s := FirstPath(p);
    run := CloseRun(FirstSteps(p), s);
    steps := FirstSteps(p) + [Step.Close(0)];
  }

  lemma {:induction false} RejectedPath(s: State, c: nat, q: Payload)
    requires In(s, c) && s.handlers[c].phase == Reading
    ensures Path(LAN, s, [Step.ReadRegister(c, q)] + [Step.Fail(c)], Keyed(s, c, q.publicKey))
  {
    var s1 := Apply(s, Step.ReadRegister(c, q));
    OneStep(LAN, s, Step.ReadRegister(c, q), s1);
    assert Apply(s1, Step.Fail(c)) == Keyed(s, c, q.publicKey);
    OneStep(LAN, s1, Step.Fail(c), Keyed(s, c, q.publicKey));
    PathAppend(LAN, s, [Step.ReadRegister(c, q)], s1, [Step.Fail(c)], Keyed(s, c, q.publicKey));
  }

  function SecondKeySteps(p: Payload, q: Payload): seq<Step> {
    FirstSteps(p) + ([Step.ReadRegister(0, q)] + [Step.Fail(0)])
  }

  lemma {:induction false} SecondRejected(first: State, p: Payload, q: Payload) returns (s: State)
    requires first.handlers == map[0 := Handler(HOST, p.publicKey, Reading, true)] && 0 in first.agents
    ensures Path(LAN, first, [Step.ReadRegister(0, q)] + [Step.Fail(0)], s) && In(s, 0)
    ensures s.handlers == map[0 := Handler(HOST, q.publicKey, Reading, true)] && s.conns == first.conns
  {
    RejectedPath(first, 0, q);
    s := Keyed(first, 0, q.publicKey);
  }

  lemma {:induction false} SecondKeyPath(p: Payload, q: Payload) returns (s: State)
    ensures Path(LAN, START, SecondKeySteps(p, q), s) && In(s, 0)
    ensures s.handlers == map[0 := Handler(HOST, q.publicKey, Reading, true)] && s.conns == map[p.publicKey := 0]
  {
    var first := FirstPath(p);
    s := SecondRejected(first, p, q);
    PathAppend(LAN, START, FirstSteps(p), first, [Step.ReadRegister(0, q)] + [Step.Fail(0)], s);
  }

  /**
   * A second register message overwrites the connection's key even if it then fails: the first key's entry is left
   * behind.
   */
  lemma {:induction false} SecondKeyLeaks(p: Payload, q: Payload) returns (run: seq<State>, steps: seq<Step>)
    requires p.publicKey != q.publicKey
    ensures IsRun(LAN, run, steps) && Initial(LAN, run[0]) && steps == SecondKeySteps(p, q) + [Step.Close(0)]
    ensures var s := run[|steps|]; Holds(s, p.publicKey, 0) && 0 in s.handlers && !Running(s.handlers[0])
  {
    var s := SecondKeyPath(p, q);
    run := CloseRun(SecondKeySteps(p, q), s);
    steps := SecondKeySteps(p, q) + [Step.Close(0)];
  }

  // ----- the older snapshot is broadcast last -----

  /** Two nodes with names and keys of their own. */
  predicate Apart(p: Payload, q: Payload) {
    p.name != q.name && p.publicKey != q.publicKey && p.publicKey != "" && q.publicKey != ""
  }

  function TwoRows(p: Payload, q: Payload): Table {
    OneRow(p)[q.name := Row(q.publicKey, Network(LAN) + 2, Some(EndpointOf(q, HOST)), q.subnets)]
  }

  function FirstNode(p: Payload): Node {
    NodeOfRow(p.name, OneRow(p)[p.name])
  }

  function SecondNode(p: Payload, q: Payload): Node {
    NodeOfRow(q.name, TwoRows(p, q)[q.name])
  }

  lemma {:induction false} SecondUpsert(p: Payload, q: Payload)
    requires Apart(p, q)
    ensures Upsert(OneRow(p), q.name, q.publicKey, Network(LAN) + 2, EndpointOf(q, HOST), q.subnets)
            == Some(TwoRows(p, q))
    ensures MeshIPs(OneRow(p)) == {Network(LAN) + 1}
    ensures Sound(LAN, TwoRows(p, q))
  {
    FirstUpsert(p);
    LanRange();
  }

  lemma {:induction false} ListsOne(name: string, r: Row)
    requires r.meshIP >= 0
    ensures Lists([NodeOfRow(name, r)], map[name := r])
  {
    var t, nodes := map[name := r], [NodeOfRow(name, r)];
    assert Rows(t) == {NodeOfRow(name, t[name])};
    assert SetOf(nodes) == Rows(t);
    ListsAsSet(nodes, t);
  }

  lemma {:induction false} ListsTwo(name: string, r: Row, other: string, q: Row)
    requires name != other && r.meshIP >= 0 && q.meshIP >= 0
    ensures Lists([NodeOfRow(name, r), NodeOfRow(other, q)], map[name := r][other := q])
  {
    var t, nodes := map[name := r][other := q], [NodeOfRow(name, r), NodeOfRow(other, q)];
    assert forall n :: n in t <==> n == name || n == other;
    assert Rows(t) == {NodeOfRow(name, t[name]), NodeOfRow(other, t[other])};
    assert SetOf(nodes) == Rows(t);
    ListsAsSet(nodes, t);
  }

  function RegisterSteps(c: nat, p: Payload, v: int, nodes: seq<Node>): seq<Step> {
    [Step.Connect(c, HOST, EMPTY)] + ([Step.ReadRegister(c, p)] + [Step.Allocate(c, v)] + [Step.Store(c)])
    + ([Step.Join(c)] + [Step.Snapshot(c, nodes)]) + [Step.Reply(c)]
  }

  /** A new connection, registered and answered, about to broadcast its snapshot. */
  function Answered(s: State, c: nat, p: Payload, t: Table, nodes: seq<Node>): State {
    var i := Inserted(StoredAs(Connected(s, c), c, p, t), c, p);
    At(At(i, c, Replying(p, nodes)), c,
       Broadcasting(nodes)).(agents := Send(i.agents, c, PeersExcept(p.publicKey, nodes)))
  }

  lemma {:induction false} RegisterPath(s: State, c: nat, p: Payload, v: int, t: Table, nodes: seq<Node>)
    requires c !in s.handlers && LeastFree(LAN, MeshIPs(s.table), v)
    requires Upsert(s.table, p.name, p.publicKey, v, EndpointOf(p, HOST), p.subnets) == Some(t) && Lists(nodes, t)
    ensures Path(LAN, s, RegisterSteps(c, p, v, nodes), Answered(s, c, p, t, nodes))
  {
    var s1 := Connected(s, c);
    var s2 := StoredAs(s1, c, p, t);
    var s3 := At(Inserted(s2, c, p), c, Replying(p, nodes));
    ConnectPath(s, c);
    StorePath(LAN, s1, c, p, v, Some(t));
    var connect, reply := [Step.Connect(c, HOST, EMPTY)], [Step.Reply(c)];
    var store := [Step.ReadRegister(c, p)] + [Step.Allocate(c, v)] + [Step.Store(c)];
    var join := [Step.Join(c)] + [Step.Snapshot(c, nodes)];
    PathAppend(LAN, s, connect, s1, store, s2);
    JoinPath(LAN, s2, c, p, nodes);
    PathAppend(LAN, s, connect + store, s2, join, s3);
    ReplyStep(LAN, s3, c, p, nodes);
    PathAppend(LAN, s, connect + store + join, s3, reply, Answered(s, c, p, t, nodes));
  }

  /** What matters of a state in which connection 0 is to broadcast `older` and connection 1 stands at `phase`. */
  ghost predicate Overlapping(s: State, p: Payload, q: Payload, t: Table, older: seq<Node>, phase: Phase) {
    && s.handlers == map[0 := Handler(HOST, p.publicKey, Broadcasting(older), true),
                         1 := Handler(HOST, q.publicKey, phase, true)]
    && s.conns == map[p.publicKey := 0, q.publicKey := 1] && s.table == t && s.agents.Keys == {0, 1}
  }

  lemma {:induction false} AnsweredShape(s: State, c: nat, p: Payload, t: Table, nodes: seq<Node>)
    ensures var u := Answered(s, c, p, t, nodes);
            && u.table == t && u.conns == s.conns[p.publicKey := c] && u.agents.Keys == s.agents.Keys + {c}
            && u.handlers == s.handlers[c := Handler(HOST, p.publicKey, Broadcasting(nodes), true)]
  {
  }

  lemma {:induction false} RegisterAnew(s: State, c: nat, p: Payload, v: int, t: Table, nodes: seq<Node>)
      returns (u: State)
    requires c !in s.handlers && LeastFree(LAN, MeshIPs(s.table), v)
    requires Upsert(s.table, p.name, p.publicKey, v, EndpointOf(p, HOST), p.subnets) == Some(t) && Lists(nodes, t)
    ensures Path(LAN, s, RegisterSteps(c, p, v, nodes), u)
    ensures u.table == t && u.conns == s.conns[p.publicKey := c] && u.agents.Keys == s.agents.Keys + {c}
    ensures u.handlers == s.handlers[c := Handler(HOST, p.publicKey, Broadcasting(nodes), true)]
  {
    u := Answered(s, c, p, t, nodes);
    RegisterPath(s, c, p, v, t, nodes);
    AnsweredShape(s, c, p, t, nodes);
  }

  function BothSteps(p: Payload, q: Payload): seq<Step> {
    RegisterSteps(0, p, Network(LAN) + 1, [FirstNode(p)])
        + RegisterSteps(1, q, Network(LAN) + 2, [FirstNode(p), SecondNode(p, q)])
  }

  /** Only connection 0, about to broadcast `older`. */
  ghost predicate FirstAlone(s: State, p: Payload, t: Table, older: seq<Node>) {
    && s.handlers == map[0 := Handler(HOST, p.publicKey, Broadcasting(older), true)]
    && s.conns == map[p.publicKey := 0] && s.table == t && s.agents.Keys == {0}
  }

  lemma {:induction false} FirstRegisters(p: Payload, v: int, t: Table, older: seq<Node>) returns (s: State)
    requires LeastFree(LAN, {}, v) && Lists(older, t)
    requires Upsert(map[], p.name, p.publicKey, v, EndpointOf(p, HOST), p.subnets) == Some(t)
    ensures Path(LAN, START, RegisterSteps(0, p, v, older), s) && FirstAlone(s, p, t, older)
  {
    assert MeshIPs(map[]) == {};
    s := RegisterAnew(START, 0, p, v, t, older);
  }

  /** One after the other, with these candidates and snapshots. */
  lemma {:induction false} TwoRegister(p: Payload, q: Payload, v: int, w: int, t: Table, u: Table, older: seq<Node>,
                                       newer: seq<Node>)
    returns (s: State)
    requires Apart(p, q) && LeastFree(LAN, {}, v) && LeastFree(LAN, MeshIPs(t), w) && Lists(older, t) && Lists(newer, u)
    requires Upsert(map[], p.name, p.publicKey, v, EndpointOf(p, HOST), p.subnets) == Some(t)
    requires Upsert(t, q.name, q.publicKey, w, EndpointOf(q, HOST), q.subnets) == Some(u)
    ensures Path(LAN, START, RegisterSteps(0, p, v, older) + RegisterSteps(1, q, w, newer), s)
    ensures Overlapping(s, p, q, u, older, Broadcasting(newer))
  {
    var s1 := FirstRegisters(p, v, t, older);
    s := SecondRegisters(s1, p, q, w, t, u, older, newer);
    PathAppend(LAN, START, RegisterSteps(0, p, v, older), s1, RegisterSteps(1, q, w, newer), s);
  }

  lemma {:induction false} SecondRegisters(s: State, p: Payload, q: Payload, w: int, t: Table, u: Table,
                                           older: seq<Node>, newer: seq<Node>)
    returns (after: State)
    requires Apart(p, q) && FirstAlone(s, p, t, older)
    requires LeastFree(LAN, MeshIPs(t), w) && Lists(newer, u)
    requires Upsert(t, q.name, q.publicKey, w, EndpointOf(q, HOST), q.subnets) == Some(u)
    ensures Path(LAN, s, RegisterSteps(1, q, w, newer), after)
    ensures Overlapping(after, p, q, u, older, Broadcasting(newer))
  {
    after := RegisterAnew(s, 1, q, w, u, newer);
  }

  lemma {:induction false} Snapshots(p: Payload, q: Payload)
    requires Apart(p, q)
    ensures Lists([FirstNode(p)], OneRow(p)) && Lists([FirstNode(p), SecondNode(p, q)], TwoRows(p, q))
  {
    var r, r2 := OneRow(p)[p.name], TwoRows(p, q)[q.name];
    ListsOne(p.name, r);
    ListsTwo(p.name, r, q.name, r2);
    assert OneRow(p) == map[p.name := r];
    assert TwoRows(p, q) == map[p.name := r][q.name := r2];
  }

  lemma {:induction false} BothPath(p: Payload, q: Payload) returns (s: State)
    requires Apart(p, q)
    ensures Path(LAN, START, BothSteps(p, q), s)
    ensures Overlapping(s, p, q, TwoRows(p, q), [FirstNode(p)], Broadcasting([FirstNode(p), SecondNode(p, q)]))
  {
    FirstTwo();
    FirstUpsert(p);
    SecondUpsert(p, q);
    Snapshots(p, q);
    s := TwoRegister(p, q, Network(LAN) + 1, Network(LAN) + 2, OneRow(p), TwoRows(p, q), [FirstNode(p)],
                     [FirstNode(p), SecondNode(p, q)]);
  }

  function StaleSteps(p: Payload, q: Payload): seq<Step> {
    BothSteps(p, q) + [Step.Broadcast(1, [p.publicKey, q.publicKey])]
  }

  /** The newer snapshot is broadcast first. */
  lemma {:induction false} NewerFirst(s: State, p: Payload, q: Payload, t: Table, older: seq<Node>, newer: seq<Node>)
      returns (u: State)
    requires Apart(p, q) && Overlapping(s, p, q, t, older, Broadcasting(newer))
    ensures Path(LAN, s, [Step.Broadcast(1, [p.publicKey, q.publicKey])], u) && Overlapping(u, p, q, t, older, Reading)
  {
    var reached := [p.publicKey, q.publicKey];
    BroadcastPath(LAN, s, 1, newer, reached);
    u := At(s, 1, Reading).(agents := SendAll(s.agents, s.conns, reached, newer));
    SendAllKeys(s.agents, s.conns, reached, newer);
  }

  lemma {:induction false} OverlappingSound(s: State, p: Payload, q: Payload, t: Table, older: seq<Node>)
    requires Apart(p, q) && Overlapping(s, p, q, t, older, Reading) && DistinctNodes(older)
    ensures OwnEntries(s, 0) && SnapshotsGood(s)
  {
  }

  lemma {:induction false} LastStep(s: State, p: Payload, q: Payload, t: Table, older: seq<Node>)
    requires Apart(p, q) && Overlapping(s, p, q, t, older, Reading)
    ensures var last := Step.Broadcast(0, [p.publicKey, q.publicKey]);
            && Enabled(LAN, s, last) && Reaches(s, last, 0) && SnapshotOf(s, last) == older
               && s.handlers[0].publicKey == p.publicKey
            && Apply(s, last).table == t
            && forall c :: c in Apply(s, last).handlers ==> Apply(s, last).handlers[c].phase == Reading
  {
  }

  lemma {:induction false} OlderLast(s: State, p: Payload, q: Payload, t: Table, older: seq<Node>)
    requires Apart(p, q) && Overlapping(s, p, q, t, older, Reading) && Sound(LAN, t) && DistinctNodes(older)
    requires !Agrees(older, t, p.publicKey)
    ensures var last := Step.Broadcast(0, [p.publicKey, q.publicKey]);
            Path(LAN, s, [last], Apply(s, last)) && !UpToDate(Apply(s, last), 0, t)
  {
    var last := Step.Broadcast(0, [p.publicKey, q.publicKey]);
    LanRange();
    ParsedNetwork(LAN);
    LastStep(s, p, q, t, older);
    OneStep(LAN, s, last, Apply(s, last));
    OverlappingSound(s, p, q, t, older);
    BroadcastExactly(LAN, s, last, 0);
  }

  /**
   * Two registrations overlap, and the older snapshot is broadcast last: with every message sent and no handler at
   * work, the first node's last list does not show the second.
   */
  lemma {:induction false} StaleBroadcastWins(p: Payload, q: Payload) returns (run: seq<State>, steps: seq<Step>)
    requires Apart(p, q)
    ensures IsRun(LAN, run, steps) && Initial(LAN, run[0])
    ensures steps == StaleSteps(p, q) + [Step.Broadcast(0, [p.publicKey, q.publicKey])]
    ensures var s := run[|steps|];
            && (forall c :: c in s.handlers ==> s.handlers[c].phase == Reading)
            && q.name in s.table && !UpToDate(s, 0, s.table)
  {
    var s := BothPath(p, q);
    var u := NewerFirst(s, p, q, TwoRows(p, q), [FirstNode(p)], [FirstNode(p), SecondNode(p, q)]);
    SecondUpsert(p, q);
    NotInSnapshot(p, q);
    LastStep(u, p, q, TwoRows(p, q), [FirstNode(p)]);
    OlderLast(u, p, q, TwoRows(p, q), [FirstNode(p)]);
    var last := Step.Broadcast(0, [p.publicKey, q.publicKey]);
    PathAppend(LAN, START, BothSteps(p, q), s, [Step.Broadcast(1, [p.publicKey, q.publicKey])], u);
    PathAppend(LAN, START, StaleSteps(p, q), u, [last], Apply(u, last));
    steps := StaleSteps(p, q) + [last];
    run := RunOf(LAN, START, steps, Apply(u, last));
  }

  lemma {:induction false} NotInSnapshot(p: Payload, q: Payload)
    requires Apart(p, q)
    ensures !Agrees([FirstNode(p)], TwoRows(p, q), p.publicKey)
  {
    var t := TwoRows(p, q);
    var n := NodeOfRow(q.name, t[q.name]);
    assert n in Rows(t) && PeerOf(n) in OthersIn(Rows(t), p.publicKey);
    assert SetOf([FirstNode(p)]) == {FirstNode(p)};
  }

  function BothPeers(p: Payload, q: Payload): seq<PeerInfo> {
    [PeerOf(FirstNode(p)), PeerOf(SecondNode(p, q))]
  }

  lemma {:induction false} ThirdView(p: Payload, q: Payload, key: string)
    requires Apart(p, q) && key != p.publicKey && key != q.publicKey
    ensures IsView(BothPeers(p, q), key, TwoRows(p, q))
  {
    Snapshots(p, q);
    PeersOfAll([FirstNode(p), SecondNode(p, q)], BothPeers(p, q), key);
  }

  lemma {:induction false} SecondAdvertises(p: Payload, q: Payload)
    requires Apart(p, q) && Address(Network(LAN) + 1) + "/32" in q.subnets
    ensures !AddressesKept(BothPeers(p, q))
  {
    var view := BothPeers(p, q);
    assert view[0].meshIP == Address(Network(LAN) + 1) && view[1].advertisedSubnets == q.subnets;
  }

  /** Two rows, the second advertising the first one's mesh /32: a third agent sends the first node's traffic there. */
  lemma {:induction false} AddressTaken(p: Payload, q: Payload, key: string, before: Interface)
    requires Apart(p, q) && key != p.publicKey && key != q.publicKey
    requires Address(Network(LAN) + 1) + "/32" in q.subnets
    ensures Sound(LAN, TwoRows(p, q)) && IsView(BothPeers(p, q), key, TwoRows(p, q))
    ensures !Converged(Reconciled(before, BothPeers(p, q), {}), key, TwoRows(p, q))
  {
    SecondUpsert(p, q);
    ThirdView(p, q, key);
    SecondAdvertises(p, q);
    LanRange();
    ParsedNetwork(LAN);
    ViewConverges(LAN, TwoRows(p, q), key, before, BothPeers(p, q), {});
  }
}

/**
 * The nodes table as the resource store joins it: what registrations and heartbeats do to it, statement by
 * statement. It links the registry's rows to the rows the listing and the failover rules read.
 */
module NodeTable {
  import opened Wrappers
  import opened Mesh
  import opened Registry
  import opened TraefikConfig
  import opened ResourceStore
  import opened ResourceListing
  import opened Failover

  datatype Nodes = Nodes(rows: Table, lastSeen: map<string, int>)

  datatype Statement =
    | Upserts(name: string, publicKey: string, candidate: nat, endpoint: string, subnets: seq<string>, at: int)
    | Touches(publicKey: string, at: int)

  ghost predicate Consistent(s: Nodes) {
    s.lastSeen.Keys == s.rows.Keys && DistinctRows(s.rows) && forall n :: n in s.rows ==> s.rows[n].meshIP >= 0
  }

  function Execute(s: Nodes, st: Statement): Nodes
    requires s.lastSeen.Keys == s.rows.Keys
  {
    match st
    case Upserts(name, publicKey, candidate, endpoint, subnets, at) =>
      (match Upsert(s.rows, name, publicKey, candidate, endpoint, subnets)
       case Some(t) => Nodes(t, s.lastSeen[name := at])
       case None => s)
    case Touches(publicKey, at) => Nodes(s.rows, Touched(s.rows, s.lastSeen, publicKey, at))
  }

  /** The database's methods do just that. */
  method ExecuteOn(db: NodeDB, st: Statement)
    requires db.Valid() && (st.Upserts? ==> st.candidate < 0x1_0000_0000)
    modifies db
    ensures db.Valid() && Nodes(db.rows, db.lastSeen) == Execute(old(Nodes(db.rows, db.lastSeen)), st)
  {
    match st {
      case Upserts(name, publicKey, candidate, endpoint, subnets, at) =>
        var _ := db.UpsertNode(name, publicKey, Address(candidate), candidate, endpoint, subnets, at);
      case Touches(publicKey, at) =>
        db.TouchLastSeen(publicKey, at);
    }
  }

  lemma {:induction false} ExecuteConsistent(s: Nodes, st: Statement)
    requires Consistent(s)
    ensures Consistent(Execute(s, st))
  {
  }

  // ----- as the store sees it -----

  /** The generated identifiers: each name has its own, for ever, as rows are never deleted. */
  ghost predicate Identifies(idOf: string -> nat) {
    forall a, b :: idOf(a) == idOf(b) ==> a == b
  }

  function RowOf(s: Nodes, n: string): NodeRow
    requires n in s.rows && n in s.lastSeen && s.rows[n].meshIP >= 0
  {
    NodeRow(n, Address(s.rows[n].meshIP), Some(s.lastSeen[n]))
  }

  function View(s: Nodes, idOf: string -> nat): map<nat, NodeRow>
    requires Consistent(s) && Identifies(idOf)
  {
    map n | n in s.rows :: idOf(n) := RowOf(s, n)
  }

  lemma {:induction false} ViewAt(s: Nodes, idOf: string -> nat)
    requires Consistent(s) && Identifies(idOf)
    ensures forall n :: n in s.rows ==> idOf(n) in View(s, idOf) && View(s, idOf)[idOf(n)] == RowOf(s, n)
    ensures forall n :: n in s.rows ==>
              View(s, idOf)[idOf(n)] == NodeRow(n, Address(s.rows[n].meshIP), Some(s.lastSeen[n]))
    ensures forall id :: id in View(s, idOf) ==>
            exists n :: n in s.rows && id == idOf(n) && View(s, idOf)[id] == RowOf(s, n)
  {
  }

  /** Known names keep their rows and mesh IPs. */
  lemma {:induction false} ExecuteExtends(s: Nodes, st: Statement)
    requires Consistent(s)
    ensures forall n :: n in s.rows ==> n in Execute(s, st).rows && Execute(s, st).rows[n].meshIP == s.rows[n].meshIP
  {
  }

  lemma {:induction false} NameAt(s: Nodes, idOf: string -> nat, id: nat) returns (n: string)
    requires Consistent(s) && Identifies(idOf) && id in View(s, idOf)
    ensures n in s.rows && id == idOf(n) && View(s, idOf)[id] == RowOf(s, n)
  {
    ViewAt(s, idOf);
    n :| n in s.rows && id == idOf(n) && View(s, idOf)[id] == RowOf(s, n);
  }

  lemma {:induction false} ViewNames(s: Nodes, idOf: string -> nat)
    requires Consistent(s) && Identifies(idOf)
    ensures forall i, j :: i in View(s, idOf) && j in View(s, idOf) && i != j ==>
            View(s, idOf)[i].name != View(s, idOf)[j].name
  {
    forall i, j | i in View(s, idOf) && j in View(s, idOf) && i != j
      ensures View(s, idOf)[i].name != View(s, idOf)[j].name
    {
      var m := NameAt(s, idOf, i);
      var n := NameAt(s, idOf, j);
    }
  }

  lemma {:induction false} RowKept(s: Nodes, u: Nodes, n: string)
    requires Consistent(s) && Consistent(u) && n in s.rows && n in u.rows && u.rows[n].meshIP == s.rows[n].meshIP
    ensures RowOf(u, n).name == RowOf(s, n).name && RowOf(u, n).meshIP == RowOf(s, n).meshIP
  {
  }

  lemma {:induction false} IdKept(s: Nodes, u: Nodes, idOf: string -> nat, id: nat)
    requires Consistent(s) && Consistent(u) && Identifies(idOf) && id in View(s, idOf)
    requires forall n :: n in s.rows ==> n in u.rows && u.rows[n].meshIP == s.rows[n].meshIP
    ensures id in View(u, idOf) && View(u, idOf)[id].name == View(s, idOf)[id].name
    ensures View(u, idOf)[id].meshIP == View(s, idOf)[id].meshIP
  {
    var n := NameAt(s, idOf, id);
    RowKept(s, u, n);
    ViewAt(u, idOf);
    assert View(u, idOf)[idOf(n)] == RowOf(u, n);
  }

  /** An upsert, failed or not, and a touch keep every node's identifier, name and mesh IP, and names unique. */
  lemma {:induction false} StatementKeepsNodes(s: Nodes, st: Statement, idOf: string -> nat)
    requires Consistent(s) && Identifies(idOf)
    ensures Consistent(Execute(s, st)) && NodesKept(View(s, idOf), View(Execute(s, st), idOf))
  {
    ExecuteConsistent(s, st);
    ExecuteExtends(s, st);
    forall id | id in View(s, idOf)
      ensures id in View(Execute(s, st), idOf) && View(Execute(s, st), idOf)[id].name == View(s, idOf)[id].name
      ensures View(Execute(s, st), idOf)[id].meshIP == View(s, idOf)[id].meshIP
    {
      IdKept(s, Execute(s, st), idOf, id);
    }
    ViewNames(Execute(s, st), idOf);
  }

  /** So a registration or heartbeat is a step of the store, and keeps its tables valid. */
  lemma {:induction false} StatementKeepsValid(db: DB, s: Nodes, st: Statement, idOf: string -> nat)
    requires Valid(db) && Consistent(s) && Identifies(idOf) && db.nodes == View(s, idOf)
    ensures Consistent(Execute(s, st))
    ensures var after := db.(nodes := View(Execute(s, st), idOf));
            Leads(db, Step.Register(after.nodes), after) && Valid(after)
  {
    StatementKeepsNodes(s, st, idOf);
    NodesKeepValid(db, View(Execute(s, st), idOf));
  }

  // ----- runs of statements -----

  ghost predicate AreStates(states: seq<Nodes>, sts: seq<Statement>) {
    && |states| == |sts| + 1 && states[0] == Nodes(map[], map[])
    && forall i :: 0 <= i < |sts| ==> Consistent(states[i]) && states[i + 1] == Execute(states[i], sts[i])
  }

  lemma {:induction false} StatesConsistent(states: seq<Nodes>, sts: seq<Statement>, j: nat)
    requires AreStates(states, sts) && j <= |sts|
    ensures Consistent(states[j])
  {
    if j > 0 {
      ExecuteConsistent(states[j - 1], sts[j - 1]);
    }
  }

  /**
   * The touch a statement makes: of the name it upserts, or of the one row with its key; none if it changes
   * nothing.
   */
  ghost function TouchMade(s: Nodes, st: Statement): seq<Touch>
    requires s.lastSeen.Keys == s.rows.Keys
  {
    match st
    case Upserts(name, publicKey, candidate, endpoint, subnets, at) =>
      if Upsert(s.rows, name, publicKey, candidate, endpoint, subnets).Some? then [Touch(name, at)] else []
    case Touches(publicKey, at) =>
      if n :| n in s.rows && s.rows[n].publicKey == publicKey then [Touch(n, at)] else []
  }

  ghost function TouchesMade(states: seq<Nodes>, sts: seq<Statement>, j: nat): seq<Touch>
    requires AreStates(states, sts) && j <= |sts|
  {
    if j == 0 then [] else TouchesMade(states, sts, j - 1) + TouchMade(states[j - 1], sts[j - 1])
  }

  lemma {:induction false} LastSeenAfter(run: seq<Touch>, t: Touch, node: string)
    ensures LastSeen(run + [t], node) == if t.node == node then Some(t.at) else LastSeen(run, node)
  {
    assert (run + [t])[..|run|] == run;
  }

  /** Every row's last_seen is that of the touches so far. */
  ghost predicate Shows(s: Nodes, run: seq<Touch>) {
    forall n :: n in s.rows ==> n in s.lastSeen && LastSeen(run, n) == Some(s.lastSeen[n])
  }

  lemma {:induction false} StatementShows(s: Nodes, st: Statement, run: seq<Touch>)
    requires Consistent(s) && Shows(s, run)
    ensures Shows(Execute(s, st), run + TouchMade(s, st))
  {
    var u, made := Execute(s, st), TouchMade(s, st);
    if made == [] {
      assert run + made == run;
    } else {
      forall n | n in u.rows
        ensures n in u.lastSeen && LastSeen(run + made, n) == Some(u.lastSeen[n])
      {
        LastSeenAfter(run, made[0], n);
        assert made == [made[0]];
      }
    }
  }

  lemma {:induction false} StatesShow(states: seq<Nodes>, sts: seq<Statement>, j: nat)
    requires AreStates(states, sts) && j <= |sts|
    ensures Shows(states[j], TouchesMade(states, sts, j))
  {
    if j > 0 {
      StatesShow(states, sts, j - 1);
      StatementShows(states[j - 1], sts[j - 1], TouchesMade(states, sts, j - 1));
    }
  }

  /** After every run of registrations and heartbeats from an empty table, the node rows reflect the touches made. */
  lemma {:induction false} StatementsReflect(states: seq<Nodes>, sts: seq<Statement>, j: nat, idOf: string -> nat)
    requires AreStates(states, sts) && j <= |sts| && Identifies(idOf)
    ensures Consistent(states[j]) && Reflects(View(states[j], idOf), TouchesMade(states, sts, j))
  {
    StatesConsistent(states, sts, j);
    StatesShow(states, sts, j);
    ViewAt(states[j], idOf);
    var nodes := View(states[j], idOf);
    forall id | id in nodes
      ensures nodes[id].lastSeen == LastSeen(TouchesMade(states, sts, j), nodes[id].name)
    {
      var n :| n in states[j].rows && id == idOf(n) && nodes[id] == RowOf(states[j], n);
    }
  }

  ghost predicate NotAfter(run: seq<Touch>, at: int) {
    forall i :: 0 <= i < |run| ==> run[i].at <= at
  }

  lemma {:induction false} InTimeSnoc(run: seq<Touch>, made: seq<Touch>, at: int)
    requires InTime(run) && NotAfter(run, at) && |made| <= 1 && forall i :: 0 <= i < |made| ==> made[i].at == at
    ensures InTime(run + made) && NotAfter(run + made, at)
  {
  }

  /** Statements executed in order of time make touches in order of time. */
  lemma {:induction false} TouchesInTime(states: seq<Nodes>, sts: seq<Statement>, j: nat)
    requires AreStates(states, sts) && j <= |sts|
    requires forall i, k :: 0 <= i < k < |sts| ==> sts[i].at <= sts[k].at
    ensures InTime(TouchesMade(states, sts, j))
    ensures j > 0 ==> NotAfter(TouchesMade(states, sts, j), sts[j - 1].at)
  {
    if j > 0 {
      TouchesInTime(states, sts, j - 1);
      var made := TouchMade(states[j - 1], sts[j - 1]);
      assert NotAfter(TouchesMade(states, sts, j - 1), sts[j - 1].at);
      InTimeSnoc(TouchesMade(states, sts, j - 1), made, sts[j - 1].at);
    }
  }

  /**
   * A poll after a run of registrations and heartbeats: a mesh-backed primary is selected exactly if one of those
   * statements touched its node within the last 45 seconds, else the backup.
   */
  lemma {:induction false} PollAfterStatements(states: seq<Nodes>, sts: seq<Statement>, j: nat, idOf: string -> nat,
                                               db: DB, le: Collation, id: nat, r: Resource, p: Backend, b: Backend,
                                                   now: int)
    requires AreStates(states, sts) && j <= |sts| && Identifies(idOf) && Consistent(states[j])
    requires db.nodes == View(states[j], idOf)
    requires forall i, k :: 0 <= i < k < |sts| ==> sts[i].at <= sts[k].at
    requires Valid(db) && IsListed(db, le, id, r) && IsPair(db, id, p, b) && p.link.ToNode?
    ensures p.link.id in db.nodes
    ensures Selected(r.targets, now)
         == Resolved(db.nodes, if TouchedWithin(TouchesMade(states, sts, j), db.nodes[p.link.id].name, now) then p
             else b)
  {
    StatementsReflect(states, sts, j, idOf);
    TouchesInTime(states, sts, j);
    PollSelects(db, le, id, r, p, b, TouchesMade(states, sts, j), now);
  }
}

/** Primary and backup over timed runs: which of the two a poll of the configuration selects. */
module Failover {
  import opened Wrappers
  import opened Clock
  import opened Text
  import opened Bags
  import opened TraefikConfig
  import opened ResourceStore
  import opened ResourceListing

  const HEARTBEAT := 15 * SECOND

  /** A registration or heartbeat that reached the table: the node's last_seen becomes `at`. */
  datatype Touch = Touch(node: string, at: int)

  ghost predicate InTime(run: seq<Touch>) {
    forall i, j :: 0 <= i < j < |run| ==> run[i].at <= run[j].at
  }

  function LastSeen(run: seq<Touch>, node: string): Option<int> {
    if run == [] then None
    else if run[|run| - 1].node == node then Some(run[|run| - 1].at)
    else LastSeen(run[..|run| - 1], node)
  }

  /** The node rows show what the touches so far left in them. */
  ghost predicate Reflects(nodes: map<nat, NodeRow>, run: seq<Touch>) {
    forall id :: id in nodes ==> nodes[id].lastSeen == LastSeen(run, nodes[id].name)
  }

  ghost predicate TouchedWithin(run: seq<Touch>, node: string, now: int) {
    exists i :: 0 <= i < |run| && run[i].node == node && now - run[i].at <= PRIMARY_FRESHNESS
  }

  /** The latest touch decides: it is recent if any is. */
  lemma {:induction false} RecentExactly(run: seq<Touch>, node: string, now: int)
    requires InTime(run)
    ensures TouchedWithin(run, node, now)
       <==> LastSeen(run, node).Some? && now - LastSeen(run, node).value <= PRIMARY_FRESHNESS
  {
    if run != [] {
      var n := |run| - 1;
      RecentExactly(run[..n], node, now);
      if TouchedWithin(run, node, now) && run[n].node != node {
        var i :| 0 <= i < |run| && run[i].node == node && now - run[i].at <= PRIMARY_FRESHNESS;
        assert run[..n][i] == run[i];
      }
    }
  }

  // ----- one poll -----

  /** Stored as a pair, with these backends. */
  ghost predicate IsPair(db: DB, id: nat, p: Backend, b: Backend) {
    && p.role == "primary" && b.role == "backup"
    && (BackendsOf(db.targets, id) == [p, b] || BackendsOf(db.targets, id) == [b, p])
  }

  /** Every validated tcp or udp resource is a single target or such a pair. */
  lemma {:induction false} SingleOrPair(db: DB, id: nat)
    requires Valid(db) && id in db.resources && db.resources[id].fields.protocol != "http"
    ensures |BackendsOf(db.targets, id)| == 1 || exists p, b :: IsPair(db, id, p, b)
  {
    var bs := BackendsOf(db.targets, id);
    ShapeBounds(db.resources[id].fields.protocol, Roles(bs));
    if |bs| == 2 {
      assert Roles(bs)[0] == bs[0].role && Roles(bs)[1] == bs[1].role;
      assert IsPair(db, id, bs[0], bs[1]) || IsPair(db, id, bs[1], bs[0]);
    }
  }

  lemma {:induction false} PairListed(db: DB, le: Collation, id: nat, r: Resource, p: Backend, b: Backend, now: int)
    requires IsListed(db, le, id, r) && IsPair(db, id, p, b)
    ensures var primary := Resolved(db.nodes, p);
            Selected(r.targets, now) == if primary.external || Fresh(primary, now) then primary
                else Resolved(db.nodes, b)
  {
    var primary, backup := Resolved(db.nodes, p), Resolved(db.nodes, b);
    var us := ResolvedAll(db.nodes, BackendsOf(db.targets, id));
    SameSize(r.targets, us);
    TwoElements(r.targets, us);
    SelectedOfPair(r.targets, primary, backup, now);
  }

  /**
   * A poll selects a mesh-backed primary exactly when its node was touched within the last 45 seconds, and
   * the backup otherwise.
   */
  lemma {:induction false} PollSelects(db: DB, le: Collation, id: nat, r: Resource, p: Backend, b: Backend,
                                       run: seq<Touch>, now: int)
    requires Valid(db) && IsListed(db, le, id, r) && IsPair(db, id, p, b) && p.link.ToNode?
    requires InTime(run) && Reflects(db.nodes, run)
    ensures p.link.id in db.nodes
    ensures TouchedWithin(run, db.nodes[p.link.id].name, now) ==> Selected(r.targets, now) == Resolved(db.nodes, p)
    ensures !TouchedWithin(run, db.nodes[p.link.id].name, now) ==> Selected(r.targets, now) == Resolved(db.nodes, b)
  {
    GoodBackends(db, id);
    assert p in BackendsOf(db.targets, id) by {
      var bs := BackendsOf(db.targets, id);
      assert bs[0] == p || bs[1] == p;
    }
    PairListed(db, le, id, r, p, b, now);
    RecentExactly(run, db.nodes[p.link.id].name, now);
  }

  /** An external primary has no heartbeat and is always selected. */
  lemma {:induction false} ExternalPrimary(db: DB, le: Collation, id: nat, r: Resource, p: Backend, b: Backend,
                                           now: int)
    requires IsListed(db, le, id, r) && IsPair(db, id, p, b) && p.link.ToAddress?
    ensures Selected(r.targets, now) == Resolved(db.nodes, p)
  {
    PairListed(db, le, id, r, p, b, now);
  }

  lemma {:induction false} ResolvedMembers(nodes: map<nat, NodeRow>, bs: seq<Backend>, p: Backend, b: Backend)
    requires bs == [p, b] || bs == [b, p]
    ensures Resolved(nodes, p) in ResolvedAll(nodes, bs) && Resolved(nodes, b) in ResolvedAll(nodes, bs)
  {
    var us := ResolvedAll(nodes, bs);
    assert us[0] in us && us[1] in us;
  }

  /** The selection is always one of the stored targets, never the zero target. */
  lemma {:induction false} SelectionStored(db: DB, le: Collation, id: nat, r: Resource, now: int)
    requires Valid(db) && IsListed(db, le, id, r) && r.protocol != "http"
    ensures Selected(r.targets, now) in ResolvedAll(db.nodes, BackendsOf(db.targets, id))
    ensures Selected(r.targets, now) != ZERO_TARGET
  {
    var bs := BackendsOf(db.targets, id);
    var us := ResolvedAll(db.nodes, bs);
    SameSize(r.targets, us);
    SingleOrPair(db, id);
    if |bs| == 1 {
      assert r.targets[0] in us;
    } else {
      var p, b :| IsPair(db, id, p, b);
      PairListed(db, le, id, r, p, b, now);
      ResolvedMembers(db.nodes, bs, p, b);
    }
    ListedRoles(db, le, id, r);
  }

  /** The selected target is what Traefik is given. */
  lemma {:induction false} PollServes(out: seq<Resource>, r: Resource, now: int)
    requires UniqueNames(out) && r in out && r.protocol in {"tcp", "udp"}
    ensures var s, t := Section(Compiled(out, now), r.protocol), Selected(r.targets, now);
            && s.Some? && r.name in s.value.services
            && s.value.services[r.name].servers == [Server("", t.address + ":" + Decimal(t.port))]
  {
    CompiledExact(out, r.protocol, now);
    assert r.name in NamesOf(out, r.protocol);
  }

  // ----- runs -----

  /** Touches `i` and `k` of the node with none between. */
  predicate Consecutive(run: seq<Touch>, node: string, i: int, k: int) {
    && 0 <= i < k < |run| && run[i].node == node && run[k].node == node
    && forall j :: i < j < k ==> run[j].node != node
  }

  /** Consecutive touches of the node are at most 45 seconds apart. */
  ghost predicate Steady(run: seq<Touch>, node: string) {
    forall i, k :: Consecutive(run, node, i, k) ==> run[k].at - run[i].at <= PRIMARY_FRESHNESS
  }

  lemma {:induction false} LastBefore(run: seq<Touch>, node: string, first: nat, j: nat) returns (i: nat)
    requires first < j <= |run| && run[first].node == node
    ensures first <= i < j && run[i].node == node && forall k :: i < k < j ==> run[k].node != node
  {
    if run[j - 1].node == node {
      i := j - 1;
    } else {
      i := LastBefore(run, node, first, j - 1);
    }
  }

  lemma {:induction false} FirstFrom(run: seq<Touch>, node: string, j: nat, last: nat) returns (k: nat)
    requires j <= last < |run| && run[last].node == node
    ensures j <= k <= last && run[k].node == node && forall m :: j <= m < k ==> run[m].node != node
    decreases last - j
  {
    if run[j].node == node {
      k := j;
    } else {
      k := FirstFrom(run, node, j + 1, last);
    }
  }

  /**
   * A poll after `j` touches of a run: while consecutive touches of the node are at most 45 seconds apart, every
   * poll from the first of them until 45 seconds after the last finds it fresh.
   */
  lemma {:induction false} SteadyTouches(run: seq<Touch>, node: string, j: nat, first: nat, last: nat, now: int)
    requires InTime(run) && first < j <= |run| && first <= last < |run|
    requires run[first].node == node && run[last].node == node
    requires Steady(run, node)
    requires j < |run| ==> now <= run[j].at
    requires now <= run[last].at + PRIMARY_FRESHNESS
    ensures TouchedWithin(run[..j], node, now)
  {
    var i := LastBefore(run, node, first, j);
    if last >= j {
      var k := FirstFrom(run, node, j, last);
      assert Consecutive(run, node, i, k);
      assert j == k || run[j].at <= run[k].at;
    } else {
      assert last <= i;
      assert last == i || run[last].at <= run[i].at;
    }
    assert run[..j][i] == run[i];
  }

  /** Once the latest touch is more than 45 seconds old, no poll finds it fresh until the next. */
  lemma {:induction false} Untouched(run: seq<Touch>, node: string, j: nat, now: int)
    requires j <= |run|
    requires forall i :: 0 <= i < j && run[i].node == node ==> run[i].at + PRIMARY_FRESHNESS < now
    ensures !TouchedWithin(run[..j], node, now)
  {
  }

  /**
   * Between two consecutive touches with `missed` heartbeats lost between them and the second one `late`, or early,
   * by less than a heartbeat: all polls find the node fresh exactly when at most one was lost, or two and the second
   * touch is not late at all. Two lost beats are tolerated to the nanosecond only.
   */
  lemma {:induction false} MissedBeats(run: seq<Touch>, node: string, i: nat, k: nat, missed: nat, late: int)
    requires InTime(run) && Consecutive(run, node, i, k) && -HEARTBEAT < late < HEARTBEAT
    requires run[k].at - run[i].at == (missed + 1) * HEARTBEAT + late
    ensures missed <= 1 || (missed == 2 && late <= 0)
       <==> forall now :: run[i].at <= now <= run[k].at ==> TouchedWithin(run[..k], node, now)
  {
    assert run[..k][i] == run[i];
    if missed <= 1 || (missed == 2 && late <= 0) {
      assert run[k].at - run[i].at <= PRIMARY_FRESHNESS;
    } else {
      var now := run[k].at;
      assert missed >= 3 ==> (missed + 1) * HEARTBEAT >= 4 * HEARTBEAT;
      assert run[k].at - run[i].at > PRIMARY_FRESHNESS;
      forall m | 0 <= m < k && run[m].node == node
        ensures run[m].at + PRIMARY_FRESHNESS < now
      {
        assert m <= i;
        assert m == i || run[m].at <= run[i].at;
      }
      Untouched(run, node, k, now);
    }
  }

  /** Two heartbeats lost and the next one late by any amount: some poll before it finds the node stale. */
  lemma {:induction false} LateThirdBeat(node: string, late: int) returns (run: seq<Touch>, now: int)
    requires 0 < late < HEARTBEAT
    ensures InTime(run) && Consecutive(run, node, 0, 1) && run[1].at - run[0].at == 3 * HEARTBEAT + late
    ensures run[0].at <= now <= run[1].at && !TouchedWithin(run[..1], node, now)
  {
    run := [Touch(node, 0), Touch(node, 3 * HEARTBEAT + late)];
    MissedBeats(run, node, 0, 1, 2, late);
    now :| run[0].at <= now <= run[1].at && !TouchedWithin(run[..1], node, now);
  }

  /** A whole run: with steady touches of the primary's node, the poll selects the primary; gone silent, the backup. */
  lemma {:induction false} FailoverOverRuns(db: DB, le: Collation, id: nat, r: Resource, p: Backend, b: Backend,
                                            run: seq<Touch>, j: nat, first: nat, last: nat, now: int)
    requires Valid(db) && IsListed(db, le, id, r) && IsPair(db, id, p, b) && p.link.ToNode? && p.link.id in db.nodes
    requires InTime(run) && first < j <= |run| && first <= last < |run| && Reflects(db.nodes, run[..j])
    requires (forall i :: 0 <= i < j ==> run[i].at <= now) && (j < |run| ==> now <= run[j].at)
    requires var node := db.nodes[p.link.id].name;
             && run[first].node == node && run[last].node == node
             && (forall i :: last < i < |run| ==> run[i].node != node)
             && Steady(run, node)
    ensures now <= run[last].at + PRIMARY_FRESHNESS ==> Selected(r.targets, now) == Resolved(db.nodes, p)
    ensures now > run[last].at + PRIMARY_FRESHNESS ==> Selected(r.targets, now) == Resolved(db.nodes, b)
  {
    var node := db.nodes[p.link.id].name;
    if now <= run[last].at + PRIMARY_FRESHNESS {
      SteadyTouches(run, node, j, first, last, now);
    } else {
      forall i | 0 <= i < j && run[i].node == node
        ensures run[i].at + PRIMARY_FRESHNESS < now
      {
        assert i <= last;
        assert i == last || run[i].at <= run[last].at;
      }
      Untouched(run, node, j, now);
    }
    PollSelects(db, le, id, r, p, b, run[..j], now);
  }
}

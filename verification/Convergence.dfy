/** Convergence: once the table rests, every agent that keeps up ends with exactly the interface it should have. */
module Convergence {
  import opened Wrappers
  import opened WgSpec
  import opened Mesh
  import opened Registry
  import opened Protocol
  import opened Connections
  import opened Broadcasts

  // ----- what applied lists leave -----

  /** A cleanly applied last list determines the interface up to what was there before. */
  ghost predicate AppliedInv(s: State) {
    forall c :: c in s.agents && s.agents[c].clean ==> s.agents[c].last.Some? && CleanlyApplied(s.agents[c])
  }

  ghost predicate CleanlyApplied(a: Agent)
    requires a.last.Some?
  {
    exists before, stuck :: a.iface == Reconciled(before, a.last.value, stuck)
  }

  lemma {:induction false} SendAllInboxOnly(agents: map<nat, Agent>, conns: map<string, nat>, reached: seq<string>,
                                            nodes: seq<Node>, c: nat)
    requires (forall k :: k in reached ==> k in conns) && c in agents
    ensures c in SendAll(agents, conns, reached, nodes)
    ensures var b := SendAll(agents, conns, reached, nodes)[c]; b == agents[c].(inbox := b.inbox)
  {
    if reached != [] {
      SendAllInboxOnly(agents, conns, reached[..|reached| - 1], nodes, c);
    }
  }

  lemma {:induction false} StepKeepsApplied(cidr: Cidr, s: State, step: Step)
    requires cidr.ones <= 32 && Enabled(cidr, s, step) && AppliedInv(s)
    ensures AppliedInv(Apply(s, step))
  {
    var t := Apply(s, step);
    if step.Broadcast? {
      var nodes := s.handlers[step.c].phase.nodes;
      SendAllKeys(s.agents, s.conns, step.reached, nodes);
      forall c | c in t.agents && t.agents[c].clean
        ensures t.agents[c].last.Some? && CleanlyApplied(t.agents[c])
      {
        SendAllInboxOnly(s.agents, s.conns, step.reached, nodes, c);
        assert CleanlyApplied(s.agents[c]);
      }
    }
  }

  lemma {:induction false} AppliedRun(cidr: Cidr, run: seq<State>, steps: seq<Step>, j: nat)
    requires cidr.ones <= 32 && IsRun(cidr, run, steps) && Initial(cidr, run[0]) && j <= |steps|
    ensures AppliedInv(run[j])
    decreases j
  {
    if j > 0 {
      AppliedRun(cidr, run, steps, j - 1);
      assert Takes(cidr, run, steps, j - 1);
      StepKeepsApplied(cidr, run[j - 1], steps[j - 1]);
    }
  }

  // ----- snapshots while the table rests -----

  /** No handler holds a snapshot of another table. */
  ghost predicate NoStaleSnapshot(s: State, t: Table) {
    forall c :: c in s.handlers ==>
      var ph := s.handlers[c].phase; (ph.Replying? || ph.Broadcasting? ==> Lists(ph.nodes, t))
  }

  /** With the table fixed, no stale snapshot appears. */
  lemma StepKeepsFresh(cidr: Cidr, s: State, step: Step)
    requires cidr.ones <= 32 && Enabled(cidr, s, step) && NoStaleSnapshot(s, s.table)
    ensures NoStaleSnapshot(Apply(s, step), s.table)
  {
  }

  /** From state `q` to state `j` the table is `t`. */
  ghost predicate Rests(run: seq<State>, q: nat, j: nat, t: Table) {
    j < |run| && forall i :: q <= i <= j ==> run[i].table == t
  }

  lemma {:induction false} StaysFresh(cidr: Cidr, run: seq<State>, steps: seq<Step>, t: Table, q: nat, j: nat)
    requires cidr.ones <= 32 && IsRun(cidr, run, steps) && q <= j <= |steps| && Rests(run, q, j, t)
    requires NoStaleSnapshot(run[q], t)
    ensures NoStaleSnapshot(run[j], t)
    decreases j
  {
    if q < j {
      StaysFresh(cidr, run, steps, t, q, j - 1);
      FreshNext(cidr, run, steps, t, j - 1);
    }
  }

  lemma {:induction false} FreshNext(cidr: Cidr, run: seq<State>, steps: seq<Step>, t: Table, n: nat)
    requires cidr.ones <= 32 && IsRun(cidr, run, steps) && n < |steps| && run[n].table == t
    requires NoStaleSnapshot(run[n], t)
    ensures NoStaleSnapshot(run[n + 1], t)
  {
    assert Takes(cidr, run, steps, n);
    StepKeepsFresh(cidr, run[n], steps[n]);
  }

  // ----- agents while the table rests -----

  /** From a sender on, there is a last one. */
  lemma {:induction false} LastSenderFrom(run: seq<State>, steps: seq<Step>, b: nat, j: nat, c: nat) returns (i: nat)
    requires |run| == |steps| + 1 && b < j <= |steps| && SendsTo(run[b], steps[b], c)
    requires forall m :: b <= m < j ==> In(run[m], c)
    ensures b <= i < j && LastSender(run, steps, i, j, c)
  {
    if SendsTo(run[j - 1], steps[j - 1], c) {
      i := j - 1;
    } else {
      i := LastSenderFrom(run, steps, b, j - 1, c);
    }
  }

  /** While the table rests, an agent that a broadcast of a current snapshot has reached stays up to date. */
  lemma {:induction false} StaysUpToDate(cidr: Cidr, run: seq<State>, steps: seq<Step>, q: nat, b: nat, j: nat, c: nat)
    requires cidr.ones <= 32 && IsRun(cidr, run, steps) && Initial(cidr, run[0]) && q <= b < j <= |steps|
    requires OneKeyOf(run, steps, j, c)
    requires Rests(run, q, j, run[q].table) && NoStaleSnapshot(run[q], run[q].table)
    requires Reaches(run[b], steps[b], c)
    ensures UpToDate(run[j], c, run[q].table)
  {
    forall m | b <= m < j
      ensures In(run[m], c)
    {
      StaysIn(cidr, run, steps, b, m, c);
      AgentsAre(cidr, run, steps, m);
    }
    var i := LastSenderFrom(run, steps, b, j, c);
    StaysFresh(cidr, run, steps, run[q].table, q, i);
    LastSentBy(cidr, run, steps, i, j, c);
    assert Takes(cidr, run, steps, i);
    assert Lists(SnapshotOf(run[i], steps[i]), run[q].table);
  }

  // ----- interfaces -----

  /** The keys of the other nodes. */
  function OtherKeys(t: Table, key: string): set<string> {
    set n | n in t && t[n].publicKey != key :: t[n].publicKey
  }

  /**
   * The interface follows a view: every CIDR of it is routed and leads to the last entry that claims it, advertised
   * subnets included, and every endpoint it names is set.
   */
  ghost predicate Follows(iface: Interface, view: seq<PeerInfo>) {
    && AllClaims(view) <= iface.routes
    && (forall k, c :: k in iface.peers ==> (c in iface.peers[k] <==> LastClaim(view, k, c)))
    && (forall p :: p in view && p.endpoint != "" ==>
       p.publicKey in iface.endpoints && iface.endpoints[p.publicKey] == p.endpoint)
  }

  /**
   * The interface peers with exactly the other nodes, each one's mesh /32 leads to it alone and is routed, and
   * advertised subnets and endpoints follow some view of the table.
   */
  ghost predicate Converged(iface: Interface, key: string, t: Table) {
    && iface.peers.Keys == OtherKeys(t, key)
    && (exists view :: IsView(view, key, t) && Follows(iface, view))
    && forall n :: n in t && t[n].publicKey != key && t[n].meshIP >= 0 ==>
         var cidr := Address(t[n].meshIP) + "/32";
         && cidr in iface.routes
         && forall k :: k in iface.peers ==> (cidr in iface.peers[k] <==> k == t[n].publicKey)
  }

  lemma ViewKeys(nodes: seq<Node>, key: string, t: Table)
    requires Lists(nodes, t) && DistinctNodes(nodes)
    ensures Keys(PeersExcept(key, nodes)) == OtherKeys(t, key)
  {
    PeersExceptExact(key, nodes);
    var ps := PeersExcept(key, nodes);
    forall k
      ensures k in Keys(ps) <==> k in OtherKeys(t, key)
    {
      if k in Keys(ps) {
        var i :| 0 <= i < |ps| && ps[i].publicKey == k;
        assert ps[i] in ps;
        var n :| n in nodes && n.publicKey != key && ps[i] == PeerOf(n);
        assert n.name in t && t[n.name].publicKey == k;
      }
      if k in OtherKeys(t, key) {
        var name :| name in t && t[name].publicKey != key && t[name].publicKey == k;
        var n :| n in nodes && n.name == name;
        assert PeerOf(n) in ps;
      }
    }
  }

  /** The entry of one listed node. */
  lemma {:induction false} EntryOf(nodes: seq<Node>, key: string, t: Table, name: string) returns (i: nat)
    requires Lists(nodes, t) && DistinctNodes(nodes) && name in t && t[name].publicKey != key && t[name].meshIP >= 0
    ensures var ps := PeersExcept(key, nodes);
            i < |ps| && ps[i].publicKey == t[name].publicKey && ps[i].meshIP == Address(t[name].meshIP)
  {
    PeersExceptExact(key, nodes);
    var ps := PeersExcept(key, nodes);
    var n :| n in nodes && n.name == name;
    assert PeerOf(n) in ps;
    i :| 0 <= i < |ps| && ps[i] == PeerOf(n);
  }

  /** The node of one entry. */
  lemma {:induction false} NodeOf(nodes: seq<Node>, key: string, t: Table, i: nat) returns (name: string)
    requires Lists(nodes, t) && DistinctNodes(nodes) && i < |PeersExcept(key, nodes)|
    ensures name in t && t[name].publicKey != key && t[name].meshIP >= 0
    ensures var p := PeersExcept(key, nodes)[i];
            && p.publicKey == t[name].publicKey && p.meshIP == Address(t[name].meshIP)
            && p.advertisedSubnets == t[name].advertisedSubnets
  {
    PeersExceptExact(key, nodes);
    var ps := PeersExcept(key, nodes);
    assert ps[i] in ps;
    var n :| n in nodes && n.publicKey != key && ps[i] == PeerOf(n);
    name := n.name;
  }

  /** No entry advertises the mesh /32 of an entry before it. */
  ghost predicate AddressesKept(view: seq<PeerInfo>) {
    forall i, j :: 0 <= i < j < |view| ==> view[i].meshIP + "/32" !in view[j].advertisedSubnets
  }

  /** No advertised subnet is some node's mesh /32. */
  ghost predicate SubnetsApart(t: Table) {
    forall m, n :: m in t && n in t && t[n].meshIP >= 0 ==> Address(t[n].meshIP) + "/32" !in t[m].advertisedSubnets
  }

  lemma {:induction false} ApartKeeps(cidr: Cidr, t: Table, key: string, peers: seq<PeerInfo>)
    requires Fits(cidr) && Sound(cidr, t) && SubnetsApart(t) && IsView(peers, key, t)
    ensures AddressesKept(peers)
  {
    var nodes :| Lists(nodes, t) && peers == PeersExcept(key, nodes);
    ListingDistinct(cidr, t, nodes);
    forall i, j | 0 <= i < j < |peers|
      ensures peers[i].meshIP + "/32" !in peers[j].advertisedSubnets
    {
      var m := NodeOf(nodes, key, t, i);
      var n := NodeOf(nodes, key, t, j);
    }
  }

  lemma {:induction false} OwnClaim(p: PeerInfo)
    ensures p.meshIP + "/32" in Claims(p)
  {
    assert AllowedIPs(p)[0] == p.meshIP + "/32";
  }

  lemma {:induction false} NotClaimed(p: PeerInfo, meshIP: string)
    requires p.meshIP != meshIP && meshIP + "/32" !in p.advertisedSubnets
    ensures meshIP + "/32" !in Claims(p)
  {
    SuffixInjective(p.meshIP, meshIP, "/32");
  }

  lemma SuffixInjective(a: string, b: string, suffix: string)
    ensures a + suffix == b + suffix ==> a == b
  {
    if a + suffix == b + suffix {
      assert |a| == |b|;
      assert a == (a + suffix)[..|a|];
      assert b == (b + suffix)[..|b|];
    }
  }

  lemma {:induction false} EndpointsFollow(e: map<string, string>, ds: seq<PeerInfo>)
    requires DistinctKeys(ds)
    ensures forall p :: p in ds && p.endpoint != "" ==>
            p.publicKey in SetEndpoints(e, ds) && SetEndpoints(e, ds)[p.publicKey] == p.endpoint
  {
    if ds != [] {
      var n := |ds| - 1;
      EndpointsFollow(e, ds[..n]);
      forall p | p in ds && p.endpoint != ""
        ensures p.publicKey in SetEndpoints(e, ds) && SetEndpoints(e, ds)[p.publicKey] == p.endpoint
      {
        var i :| 0 <= i < |ds| && ds[i] == p;
        if i < n {
          assert ds[..n][i] == p;
          assert ds[i].publicKey != ds[n].publicKey;
        }
      }
    }
  }

  /** An entry whose mesh /32 no later entry advertises owns it alone. */
  lemma {:induction false} KeptAlone(peers: map<string, set<string>>, ds: seq<PeerInfo>, i: nat)
    requires DistinctKeys(ds) && DistinctIPs(ds) && i < |ds|
    requires forall j :: i < j < |ds| ==> ds[i].meshIP + "/32" !in ds[j].advertisedSubnets
    ensures var cidr := ds[i].meshIP + "/32";
            && cidr in AllClaims(ds)
            && forall k :: k in SetAll(peers, ds) ==> (cidr in SetAll(peers, ds)[k] <==> k == ds[i].publicKey)
  {
    OwnClaim(ds[i]);
    forall j | i < j < |ds|
      ensures ds[i].meshIP + "/32" !in Claims(ds[j])
    {
      NotClaimed(ds[j], ds[i].meshIP);
    }
    LastClaimantWins(peers, ds, i, ds[i].meshIP + "/32");
    assert ds[i].meshIP + "/32" in AllowedIPs(ds[i]);
  }

  /** A mesh /32 that a later entry advertises goes to another peer. */
  lemma {:induction false} TakenByLater(peers: map<string, set<string>>, ds: seq<PeerInfo>, i: nat, j: nat)
    returns (k: string)
    requires DistinctKeys(ds) && i < j < |ds| && ds[i].meshIP + "/32" in ds[j].advertisedSubnets
    ensures k != ds[i].publicKey && k in SetAll(peers, ds) && ds[i].meshIP + "/32" in SetAll(peers, ds)[k]
  {
    var cidr := ds[i].meshIP + "/32";
    assert cidr in AllowedIPs(ds[j]) && cidr in Claims(ds[j]);
    var m := LastClaimant(ds, cidr);
    assert m >= j;
    k := ds[m].publicKey;
    LastClaimantWins(peers, ds, m, cidr);
    SetAllExact(peers, ds);
    assert k in Keys(ds);
  }

  /**
   * Cleanly applying a current view gives the intended interface, whatever was there before, if and only if no
   * entry of it advertises the mesh /32 of an entry before it.
   */
  lemma {:induction false} ViewConverges(cidr: Cidr, t: Table, key: string, before: Interface, peers: seq<PeerInfo>,
                                         stuck: set<string>)
    requires Fits(cidr) && Sound(cidr, t) && IsView(peers, key, t)
    ensures Converged(Reconciled(before, peers, stuck), key, t) <==> AddressesKept(peers)
  {
    var nodes :| Lists(nodes, t) && peers == PeersExcept(key, nodes);
    ListingDistinct(cidr, t, nodes);
    PeersExceptExact(key, nodes);
    if AddressesKept(peers) {
      KeptConverges(t, key, nodes, before, stuck);
    } else {
      var i, j :| 0 <= i < j < |peers| && peers[i].meshIP + "/32" in peers[j].advertisedSubnets;
      var name := NodeOf(nodes, key, t, i);
      var k := TakenByLater(Without(before, Stale(before.peers, peers), stuck).peers, peers, i, j);
    }
  }

  lemma {:induction false} KeptConverges(t: Table, key: string, nodes: seq<Node>, before: Interface,
                                         stuck: set<string>)
    requires Lists(nodes, t) && DistinctNodes(nodes) && AddressesKept(PeersExcept(key, nodes))
    ensures Converged(Reconciled(before, PeersExcept(key, nodes), stuck), key, t)
  {
    var peers := PeersExcept(key, nodes);
    var cleared := Without(before, Stale(before.peers, peers), stuck);
    var iface := Reconciled(before, peers, stuck);
    PeersExceptExact(key, nodes);
    ViewKeys(nodes, key, t);
    ReconcileExact(before, peers, stuck);
    EndpointsFollow(cleared.endpoints, peers);
    assert IsView(peers, key, t) && Follows(iface, peers);
    forall name | name in t && t[name].publicKey != key && t[name].meshIP >= 0
      ensures var cidr := Address(t[name].meshIP) + "/32";
        && cidr in iface.routes
        && forall k :: k in iface.peers ==> (cidr in iface.peers[k] <==> k == t[name].publicKey)
    {
      var i := EntryOf(nodes, key, t, name);
      KeptAlone(cleared.peers, peers, i);
    }
  }

  // ----- convergence -----

  /**
   * Convergence, in every run and whatever the other connections do: let an agent have applied all lists sent to it,
   * the last one cleanly, and let that list be up to date. Then the agent peers with exactly the other nodes of the
   * table, each with its mesh /32 owned and routed, if and only if no entry of that list advertises the mesh /32 of
   * an entry before it.
   */
  lemma {:induction false} MeshConvergence(cidr: Cidr, run: seq<State>, steps: seq<Step>, j: nat, c: nat)
    requires Parsed(cidr) && IsRun(cidr, run, steps) && Initial(cidr, run[0]) && j <= |steps|
    requires UpToDate(run[j], c, run[j].table) && run[j].agents[c].inbox == [] && run[j].agents[c].clean
    ensures var a := run[j].agents[c];
            && a.last.Some?
            && (Converged(a.iface, run[j].handlers[c].publicKey, run[j].table) <==> AddressesKept(a.last.value))
            && (SubnetsApart(run[j].table) ==> Converged(a.iface, run[j].handlers[c].publicKey, run[j].table))
  {
    ParsedNetwork(cidr);
    AppliedRun(cidr, run, steps, j);
    RegistrySafety(cidr, run, steps, j, j);
    var a, key, t := run[j].agents[c], run[j].handlers[c].publicKey, run[j].table;
    var before, stuck :| a.iface == Reconciled(before, a.last.value, stuck);
    ViewConverges(cidr, t, key, before, a.last.value, stuck);
    if SubnetsApart(t) {
      ApartKeeps(cidr, t, key, a.last.value);
    }
  }

  /**
   * Say that from step `q` on the table rests and no stale snapshot is outstanding, and that some later broadcast
   * reaches `c` (any node's heartbeat causes one). Once `c` has drained its inbox, the last list cleanly, it has
   * converged. Other connections may register several keys, overlap, be missed by the broadcast or leak entries.
   */
  lemma {:induction false} RestingTableConverges(cidr: Cidr, run: seq<State>, steps: seq<Step>, q: nat, b: nat, j: nat,
                                                 c: nat)
    requires Parsed(cidr) && IsRun(cidr, run, steps) && Initial(cidr, run[0]) && q <= b < j <= |steps|
    requires OneKeyOf(run, steps, j, c) && Reaches(run[b], steps[b], c)
    requires Rests(run, q, j, run[q].table) && NoStaleSnapshot(run[q], run[q].table) && SubnetsApart(run[q].table)
    requires c in run[j].agents && run[j].agents[c].inbox == [] && run[j].agents[c].clean
    ensures c in run[j].handlers
    ensures Converged(run[j].agents[c].iface, run[j].handlers[c].publicKey, run[q].table)
  {
    StaysUpToDate(cidr, run, steps, q, b, j, c);
    MeshConvergence(cidr, run, steps, j, c);
  }

  /**
   * A broadcast written to every connection converges every agent connected then, if each connection registers one
   * key and connections with one key do not overlap: then `conns` holds them all.
   */
  lemma {:induction false} FullBroadcastConverges(cidr: Cidr, run: seq<State>, steps: seq<Step>, q: nat, b: nat,
                                                  j: nat, c: nat)
    requires Parsed(cidr) && IsRun(cidr, run, steps) && Initial(cidr, run[0]) && q <= b < j <= |steps|
    requires OneKeyUntil(run, steps, j) && AloneUntil(run, steps, b)
    requires steps[b].Broadcast? && forall k :: k in run[b].conns ==> k in steps[b].reached
    requires c in run[b].handlers && Running(run[b].handlers[c]) && run[b].handlers[c].inserted
    requires Rests(run, q, j, run[q].table) && NoStaleSnapshot(run[q], run[q].table) && SubnetsApart(run[q].table)
    requires c in run[j].agents && run[j].agents[c].inbox == [] && run[j].agents[c].clean
    ensures c in run[j].handlers
    ensures Converged(run[j].agents[c].iface, run[j].handlers[c].publicKey, run[q].table)
  {
    ConnectionMap(cidr, run, steps, b);
    AgentsAre(cidr, run, steps, b);
    RestingTableConverges(cidr, run, steps, q, b, j, c);
  }
}

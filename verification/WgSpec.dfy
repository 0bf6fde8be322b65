/**
 * What the `wg` and `ip` commands do to one WireGuard interface, as functions on
 * values, and what a reconciliation made of those commands achieves.
 */
module WgSpec {

  /** One entry of the desired peer list. */
  datatype PeerInfo = PeerInfo(publicKey: string, meshIP: string, endpoint: string, advertisedSubnets: seq<string>)

  /** The interface: each peer's allowed-ips, each peer's endpoint where one is set, and the routes through it. */
  datatype Interface = Interface(peers: map<string, set<string>>, endpoints: map<string, string>, routes: set<string>)

  const EMPTY := Interface(map[], map[], {})

  function AllowedIPs(p: PeerInfo): seq<string> {
    [p.meshIP + "/32"] + p.advertisedSubnets
  }

  function Claims(p: PeerInfo): set<string> {
    set c | c in AllowedIPs(p)
  }

  function Keys(ds: seq<PeerInfo>): set<string> {
    set i | 0 <= i < |ds| :: ds[i].publicKey
  }

  function AllClaims(ds: seq<PeerInfo>): set<string> {
    set i, c | 0 <= i < |ds| && c in AllowedIPs(ds[i]) :: c
  }

  /** Every CIDR that some peer owns. */
  function Owned(peers: map<string, set<string>>): set<string> {
    set k, c | k in peers && c in peers[k] :: c
  }

  /** Cryptokey routing: one CIDR leads to at most one peer. */
  ghost predicate Exclusive(peers: map<string, set<string>>) {
    forall k, l :: k in peers && l in peers && k != l ==> peers[k] !! peers[l]
  }

  // ----- single commands -----

  /** `wg set <if> peer <key> allowed-ips <cidrs>`: replaces one peer's set and takes those CIDRs from all others. */
  function SetPeer(peers: map<string, set<string>>, key: string, cidrs: set<string>): map<string, set<string>> {
    map k | k in peers.Keys + {key} :: if k == key then cidrs else peers[k] - cidrs
  }

  function SetEndpoint(endpoints: map<string, string>, p: PeerInfo): map<string, string> {
    if p.endpoint != "" then endpoints[p.publicKey := p.endpoint] else endpoints
  }

  /** `wg set <if> peer <key> remove`, then one `ip route del` for each CIDR the peer held; `stuck` routes stay. */
  function RemovePeer(s: Interface, key: string, stuck: set<string>): Interface {
    var held := if key in s.peers then s.peers[key] else {};
    Interface(s.peers - {key}, s.endpoints - {key}, s.routes - (held - stuck))
  }

  // ----- the two loops -----

  function SetAll(peers: map<string, set<string>>, ds: seq<PeerInfo>): map<string, set<string>> {
    if ds == [] then peers
    else SetPeer(SetAll(peers, ds[..|ds| - 1]), ds[|ds| - 1].publicKey, Claims(ds[|ds| - 1]))
  }

  function SetEndpoints(endpoints: map<string, string>, ds: seq<PeerInfo>): map<string, string> {
    if ds == [] then endpoints else SetEndpoint(SetEndpoints(endpoints, ds[..|ds| - 1]), ds[|ds| - 1])
  }

  function RemoveAll(s: Interface, order: seq<string>, stuck: set<string>): Interface {
    if order == [] then s else RemovePeer(RemoveAll(s, order[..|order| - 1], stuck), order[|order| - 1], stuck)
  }

  /** What removing a whole set of peers leaves, whatever the order. */
  function Without(s: Interface, gone: set<string>, stuck: set<string>): Interface {
    Interface(s.peers - gone, s.endpoints - gone, s.routes - (HeldBy(s.peers, gone) - stuck))
  }

  function HeldBy(peers: map<string, set<string>>, keys: set<string>): set<string> {
    set k, c | k in keys && k in peers && c in peers[k] :: c
  }

  function Stale(peers: map<string, set<string>>, ds: seq<PeerInfo>): set<string> {
    peers.Keys - Keys(ds)
  }

  /** The interface after a reconciliation in which no command failed, except the deletion of `stuck` routes. */
  function Reconciled(s: Interface, ds: seq<PeerInfo>, stuck: set<string>): Interface {
    AddedAll(Without(s, Stale(s.peers, ds), stuck), ds)
  }

  function AddedAll(s: Interface, ds: seq<PeerInfo>): Interface {
    Interface(SetAll(s.peers, ds), SetEndpoints(s.endpoints, ds), s.routes + AllClaims(ds))
  }

  /** Every interface an attempt can leave behind when one of its commands fails. */
  ghost predicate Interrupted(s: Interface, ds: seq<PeerInfo>, stuck: set<string>, t: Interface) {
    || StoppedRemoving(s, ds, stuck, t)
    || StoppedAdding(Without(s, Stale(s.peers, ds), stuck), ds, t)
  }

  ghost predicate StoppedRemoving(s: Interface, ds: seq<PeerInfo>, stuck: set<string>, t: Interface) {
    exists gone :: gone <= Stale(s.peers, ds) && t == Without(s, gone, stuck)
  }

  /** `n` entries are done; the next one may be set, and then some of its routes may be there. */
  ghost predicate StoppedAdding(s: Interface, ds: seq<PeerInfo>, t: Interface) {
    exists n :: 0 <= n < |ds| && StoppedAt(s, ds, n, t)
  }

  ghost predicate StoppedAt(s: Interface, ds: seq<PeerInfo>, n: nat, t: Interface)
    requires n < |ds|
  {
    var done := AddedAll(s, ds[..n]);
    || t == done
    || (&& t.peers == SetAll(s.peers, ds[..n + 1])
        && t.endpoints == SetEndpoints(s.endpoints, ds[..n + 1])
        && done.routes <= t.routes <= done.routes + Claims(ds[n]))
  }

  // ----- the removal loop -----

  /** Removing one more peer from what is left after removing `gone`. */
  lemma WithoutStep(s: Interface, gone: set<string>, key: string, stuck: set<string>)
    requires key in s.peers && key !in gone
    ensures RemovePeer(Without(s, gone, stuck), key, stuck) == Without(s, gone + {key}, stuck)
  {
    var w := Without(s, gone, stuck);
    assert w.peers[key] == s.peers[key];
    assert HeldBy(s.peers, gone + {key}) == HeldBy(s.peers, gone) + s.peers[key];
    assert w.peers - {key} == s.peers - (gone + {key});
    assert w.endpoints - {key} == s.endpoints - (gone + {key});
  }

  /** The removal loop ranges over a Go map: its order is arbitrary, its effect is not. */
  lemma {:induction false} RemovalOrderIrrelevant(s: Interface, order: seq<string>, stuck: set<string>)
    requires forall i, j :: 0 <= i < j < |order| ==> order[i] != order[j]
    requires forall k :: k in order ==> k in s.peers
    ensures RemoveAll(s, order, stuck) == Without(s, (set k | k in order), stuck)
  {
    if order == [] {
      var none: set<string> := set k | k in order;
      assert none == {};
      assert s.peers - {} == s.peers && s.endpoints - {} == s.endpoints;
      assert HeldBy(s.peers, {}) == {};
    } else {
      var front, last := order[..|order| - 1], order[|order| - 1];
      forall k | k in front
        ensures k in order
      {
      }
      RemovalOrderIrrelevant(s, front, stuck);
      var gone := set k | k in front;
      WithoutStep(s, gone, last, stuck);
      assert order == front + [last];
      assert (set k | k in order) == gone + {last};
    }
  }

  /** Two visiting orders of the same absent peers leave the same peers, endpoints and routes. */
  lemma RemovalOrdersAgree(s: Interface, a: seq<string>, b: seq<string>, stuck: set<string>)
    requires forall i, j :: 0 <= i < j < |a| ==> a[i] != a[j]
    requires forall i, j :: 0 <= i < j < |b| ==> b[i] != b[j]
    requires forall k :: k in a <==> k in b
    requires forall k :: k in a ==> k in s.peers
    ensures RemoveAll(s, a, stuck) == RemoveAll(s, b, stuck)
  {
    RemovalOrderIrrelevant(s, a, stuck);
    RemovalOrderIrrelevant(s, b, stuck);
    assert (set k | k in a) == (set k | k in b);
  }

  // ----- the addition loop -----

  lemma PrefixStep(ds: seq<PeerInfo>, n: nat)
    requires n < |ds|
    ensures ds[..n + 1][..n] == ds[..n] && ds[..n + 1][n] == ds[n]
    ensures Keys(ds[..n + 1]) == Keys(ds[..n]) + {ds[n].publicKey}
    ensures AllClaims(ds[..n + 1]) == AllClaims(ds[..n]) + Claims(ds[n])
  {
    var d := ds[..n + 1];
    assert d[..n] == ds[..n];
    assert forall i :: 0 <= i < n ==> d[i] == ds[..n][i];
    assert d[n] == ds[n];
    forall c | c in Claims(ds[n])
      ensures c in AllClaims(d)
    {
      assert c in AllowedIPs(d[n]);
    }
    forall c | c in AllClaims(ds[..n])
      ensures c in AllClaims(d)
    {
      var i :| 0 <= i < n && c in AllowedIPs(ds[..n][i]);
      assert c in AllowedIPs(d[i]);
    }
    forall k | k in Keys(ds[..n])
      ensures k in Keys(d)
    {
      var i :| 0 <= i < n && ds[..n][i].publicKey == k;
      assert d[i].publicKey == k;
    }
  }

  /** `k` owns `c` by the desired list: `k`'s last entry claims it and nothing after that entry does. */
  ghost predicate LastClaim(ds: seq<PeerInfo>, k: string, c: string) {
    exists i :: LastClaimAt(ds, k, c, i)
  }

  ghost predicate LastClaimAt(ds: seq<PeerInfo>, k: string, c: string, i: int) {
    && 0 <= i < |ds| && ds[i].publicKey == k && c in Claims(ds[i])
    && forall j :: i < j < |ds| ==> ds[j].publicKey != k && c !in Claims(ds[j])
  }

  lemma LastClaimStep(ds: seq<PeerInfo>, k: string, c: string)
    requires ds != []
    ensures var last := ds[|ds| - 1];
            LastClaim(ds, k, c) <==>
            if k == last.publicKey then c in Claims(last) else LastClaim(ds[..|ds| - 1], k, c) && c !in Claims(last)
  {
    var n := |ds| - 1;
    var front, last := ds[..n], ds[n];
    if k == last.publicKey {
      if c in Claims(last) {
        assert LastClaimAt(ds, k, c, n);
      }
    } else {
      if LastClaim(ds, k, c) {
        var i :| LastClaimAt(ds, k, c, i);
        assert LastClaimAt(front, k, c, i);
      }
      if LastClaim(front, k, c) && c !in Claims(last) {
        var i :| LastClaimAt(front, k, c, i);
        assert forall j :: i < j < n ==> ds[j] == front[j];
        assert LastClaimAt(ds, k, c, i);
      }
    }
  }

  /** The addition loop from any table: which keys it leaves, and what each of them owns. */
  lemma {:induction false} SetAllExact(peers: map<string, set<string>>, ds: seq<PeerInfo>)
    ensures SetAll(peers, ds).Keys == peers.Keys + Keys(ds)
    ensures forall k, c :: k in Keys(ds) ==> (c in SetAll(peers, ds)[k] <==> LastClaim(ds, k, c))
    ensures forall k :: k in peers && k !in Keys(ds) ==> SetAll(peers, ds)[k] == peers[k] - AllClaims(ds)
  {
    if ds == [] {
      assert Keys(ds) == {} && AllClaims(ds) == {};
    } else {
      var n := |ds| - 1;
      var front, last := ds[..n], ds[n];
      SetAllExact(peers, front);
      PrefixStep(ds, n);
      assert ds[..n + 1] == ds;
      var r := SetAll(peers, ds);
      forall k, c | k in Keys(ds)
        ensures c in r[k] <==> LastClaim(ds, k, c)
      {
        LastClaimStep(ds, k, c);
      }
    }
  }

  ghost predicate DistinctKeys(ds: seq<PeerInfo>) {
    forall i, j :: 0 <= i < j < |ds| ==> ds[i].publicKey != ds[j].publicKey
  }

  /** With distinct keys, each desired CIDR ends up with exactly the last peer that claims it. */
  lemma LastClaimantWins(peers: map<string, set<string>>, ds: seq<PeerInfo>, i: nat, c: string)
    requires DistinctKeys(ds)
    requires i < |ds| && c in Claims(ds[i])
    requires forall j :: i < j < |ds| ==> c !in Claims(ds[j])
    ensures forall k :: k in SetAll(peers, ds) ==> (c in SetAll(peers, ds)[k] <==> k == ds[i].publicKey)
  {
    SetAllExact(peers, ds);
    var r := SetAll(peers, ds);
    assert c in AllowedIPs(ds[i]);
    forall k | k in r
      ensures c in r[k] <==> k == ds[i].publicKey
    {
      if k == ds[i].publicKey {
        assert LastClaimAt(ds, k, c, i);
      } else if k in Keys(ds) && LastClaim(ds, k, c) {
        assert false;
      }
    }
  }

  /** The last entry that claims `c`. */
  lemma {:induction false} LastClaimant(ds: seq<PeerInfo>, c: string) returns (i: nat)
    requires c in AllClaims(ds)
    ensures i < |ds| && c in Claims(ds[i]) && forall j :: i < j < |ds| ==> c !in Claims(ds[j])
  {
    var n := |ds| - 1;
    assert ds[..n + 1] == ds;
    PrefixStep(ds, n);
    if c in Claims(ds[n]) {
      i := n;
    } else {
      i := LastClaimant(ds[..n], c);
      assert forall j :: i < j < n ==> ds[j] == ds[..n][j];
    }
  }

  /** With distinct keys, what ends up owned is exactly what is desired, plus what unlisted peers keep. */
  lemma OwnedAfter(peers: map<string, set<string>>, ds: seq<PeerInfo>)
    requires DistinctKeys(ds)
    requires peers.Keys <= Keys(ds)
    ensures Owned(SetAll(peers, ds)) == AllClaims(ds)
  {
    SetAllExact(peers, ds);
    var r := SetAll(peers, ds);
    forall c | c in Owned(r)
      ensures c in AllClaims(ds)
    {
      var k :| k in r && c in r[k];
      var i :| LastClaimAt(ds, k, c, i);
      assert c in AllowedIPs(ds[i]);
    }
    forall c | c in AllClaims(ds)
      ensures c in Owned(r)
    {
      var i := LastClaimant(ds, c);
      LastClaimantWins(peers, ds, i, c);
      assert ds[i].publicKey in r && c in r[ds[i].publicKey];
    }
  }

  // ----- whole reconciliations -----

  /**
   * Exactness. Peers and their CIDRs follow the desired list alone; routes lose the CIDRs of removed
   * peers (unless the deletion was refused) and gain every desired CIDR.
   */
  lemma ReconcileExact(s: Interface, ds: seq<PeerInfo>, stuck: set<string>)
    ensures var t := Reconciled(s, ds, stuck);
            && t.peers.Keys == Keys(ds)
            && (forall k, c :: k in t.peers ==> (c in t.peers[k] <==> LastClaim(ds, k, c)))
            && t.routes == (s.routes - (HeldBy(s.peers, Stale(s.peers, ds)) - stuck)) + AllClaims(ds)
  {
    SetAllExact(Without(s, Stale(s.peers, ds), stuck).peers, ds);
  }

  /** The routes a success adds: every listed peer's mesh /32 and every subnet it advertises, and nothing else. */
  lemma {:induction false} ClaimsExact(ds: seq<PeerInfo>, c: string)
    ensures c in AllClaims(ds) <==> exists p :: p in ds && (c == p.meshIP + "/32" || c in p.advertisedSubnets)
  {
    if p :| p in ds && (c == p.meshIP + "/32" || c in p.advertisedSubnets) {
      var i :| 0 <= i < |ds| && ds[i] == p;
      assert AllowedIPs(p)[0] == p.meshIP + "/32";
      assert c in AllowedIPs(ds[i]);
    }
  }

  /** When the current peers could not be read, nothing is removed: the keys are exact if and only if none was stale. */
  lemma BlindReconcile(s: Interface, ds: seq<PeerInfo>)
    ensures AddedAll(s, ds).peers.Keys == Keys(ds) + Stale(s.peers, ds)
    ensures AddedAll(s, ds).peers.Keys == Keys(ds) <==> Stale(s.peers, ds) == {}
    ensures forall k :: k in Stale(s.peers, ds) ==> AddedAll(s, ds).peers[k] == s.peers[k] - AllClaims(ds)
  {
    SetAllExact(s.peers, ds);
    assert Keys(ds) + s.peers.Keys == Keys(ds) + Stale(s.peers, ds);
    assert Stale(s.peers, ds) !! Keys(ds);
    if Stale(s.peers, ds) != {} {
      var k :| k in Stale(s.peers, ds);
      assert k in AddedAll(s, ds).peers.Keys && k !in Keys(ds);
    }
  }

  /** What a reconciliation does to the peer table does not depend on the table it found. */
  lemma {:induction false} SetAllForgets(p: map<string, set<string>>, q: map<string, set<string>>, ds: seq<PeerInfo>)
    requires p.Keys <= Keys(ds) && q.Keys <= Keys(ds)
    ensures SetAll(p, ds) == SetAll(q, ds)
  {
    SetAllExact(p, ds);
    SetAllExact(q, ds);
    var a, b := SetAll(p, ds), SetAll(q, ds);
    assert a.Keys == b.Keys;
    forall k | k in a
      ensures a[k] == b[k]
    {
      assert forall c :: c in a[k] <==> c in b[k];
    }
  }

  /** One success gives, from any interface, the peer table it gives from an empty one, with everything owned routed. */
  lemma ReconcileFromAnywhere(s: Interface, ds: seq<PeerInfo>, stuck: set<string>)
    ensures Reconciled(s, ds, stuck).peers == Reconciled(EMPTY, ds, {}).peers
    ensures Owned(Reconciled(s, ds, stuck).peers) <= Reconciled(s, ds, stuck).routes
  {
    var w, e := Without(s, Stale(s.peers, ds), stuck), Without(EMPTY, Stale(EMPTY.peers, ds), {});
    SetAllForgets(w.peers, e.peers, ds);
    ReconcileExact(s, ds, stuck);
    var t := Reconciled(s, ds, stuck);
    forall c | c in Owned(t.peers)
      ensures c in AllClaims(ds)
    {
      var k :| k in t.peers && c in t.peers[k];
      var i :| LastClaimAt(ds, k, c, i);
      assert c in AllowedIPs(ds[i]);
    }
  }

  /** The endpoint `k` has after the addition loop: its last non-empty one in the list, else the one it had. */
  ghost predicate NamesEndpoint(ds: seq<PeerInfo>, k: string) {
    exists i :: 0 <= i < |ds| && ds[i].publicKey == k && ds[i].endpoint != ""
  }

  lemma {:induction false} NamesEndpointStep(ds: seq<PeerInfo>, k: string)
    requires ds != []
    ensures var n := |ds| - 1;
            NamesEndpoint(ds, k) <==> NamesEndpoint(ds[..n], k) || (ds[n].publicKey == k && ds[n].endpoint != "")
  {
    var n := |ds| - 1;
    if NamesEndpoint(ds[..n], k) {
      var i :| 0 <= i < n && ds[..n][i].publicKey == k && ds[..n][i].endpoint != "";
      assert ds[i].publicKey == k && ds[i].endpoint != "";
    }
    if NamesEndpoint(ds, k) && !(ds[n].publicKey == k && ds[n].endpoint != "") {
      var i :| 0 <= i < |ds| && ds[i].publicKey == k && ds[i].endpoint != "";
      assert ds[..n][i].publicKey == k && ds[..n][i].endpoint != "";
    }
  }

  /** One key, over the addition loop from two maps of endpoints. */
  lemma {:induction false} EndpointAt(e: map<string, string>, f: map<string, string>, ds: seq<PeerInfo>, k: string)
    ensures NamesEndpoint(ds, k) ==>
            k in SetEndpoints(e, ds) && k in SetEndpoints(f, ds) && SetEndpoints(e, ds)[k] == SetEndpoints(f, ds)[k]
    ensures !NamesEndpoint(ds, k) ==>
            (k in SetEndpoints(e, ds) <==> k in e) && (k in e ==> SetEndpoints(e, ds)[k] == e[k])
  {
    if ds != [] {
      EndpointAt(e, f, ds[..|ds| - 1], k);
      NamesEndpointStep(ds, k);
    }
  }

  lemma {:induction false} EndpointsExact(e: map<string, string>, f: map<string, string>, ds: seq<PeerInfo>)
    ensures forall k :: NamesEndpoint(ds, k) ==> k in SetEndpoints(e, ds) && k in SetEndpoints(f, ds)
    ensures forall k :: NamesEndpoint(ds, k) ==> SetEndpoints(e, ds)[k] == SetEndpoints(f, ds)[k]
    ensures forall k :: !NamesEndpoint(ds, k) ==>
      (k in SetEndpoints(e, ds) <==> k in e) && (k in e ==> SetEndpoints(e, ds)[k] == e[k])
  {
    forall k
      ensures NamesEndpoint(ds, k) ==>
              k in SetEndpoints(e, ds) && k in SetEndpoints(f, ds) && SetEndpoints(e, ds)[k] == SetEndpoints(f, ds)[k]
      ensures !NamesEndpoint(ds, k) ==>
              (k in SetEndpoints(e, ds) <==> k in e) && (k in e ==> SetEndpoints(e, ds)[k] == e[k])
    {
      EndpointAt(e, f, ds, k);
    }
  }

  /**
   * A surviving peer that is now listed without an endpoint keeps its old one: exactly then endpoints differ from
   * a fresh start.
   */
  lemma EndpointResidue(s: Interface, ds: seq<PeerInfo>, stuck: set<string>)
    ensures Reconciled(s, ds, stuck).endpoints == Reconciled(EMPTY, ds, {}).endpoints
        <==> forall k :: k in s.endpoints && k !in Stale(s.peers, ds) ==> NamesEndpoint(ds, k)
  {
    var w, e := Without(s, Stale(s.peers, ds), stuck).endpoints, Without(EMPTY, Stale(EMPTY.peers, ds), {}).endpoints;
    EndpointsExact(w, e, ds);
    EndpointsExact(e, w, ds);
    var a, b := SetEndpoints(w, ds), SetEndpoints(e, ds);
    if forall k :: k in w ==> NamesEndpoint(ds, k) {
      assert forall k :: k in a <==> k in b;
      assert a == b;
    } else {
      var k :| k in w && !NamesEndpoint(ds, k);
      assert k in a && k !in b;
    }
  }

  /** A second identical reconciliation changes nothing, overlapping subnets or not. */
  lemma ReconcileIdempotent(s: Interface, ds: seq<PeerInfo>, stuck: set<string>, stuckLater: set<string>)
    ensures Reconciled(Reconciled(s, ds, stuck), ds, stuckLater) == Reconciled(s, ds, stuck)
  {
    var t := Reconciled(s, ds, stuck);
    ReconcileFromAnywhere(s, ds, stuck);
    ReconcileFromAnywhere(t, ds, stuckLater);
    ReconcileExact(s, ds, stuck);
    var none := Stale(t.peers, ds);
    assert none == {} && HeldBy(t.peers, none) == {};
    var w := Without(t, none, stuckLater);
    assert w == t;
    var before := Without(s, Stale(s.peers, ds), stuck).endpoints;
    EndpointsExact(t.endpoints, before, ds);
    EndpointsExact(before, t.endpoints, ds);
    var u := SetEndpoints(t.endpoints, ds);
    assert u == t.endpoints by {
      assert forall k :: k in u <==> k in t.endpoints;
      forall k | k in u
        ensures u[k] == t.endpoints[k]
      {
        if NamesEndpoint(ds, k) {
        } else {
        }
      }
    }
    assert t.routes + AllClaims(ds) == t.routes;
  }

  /** Old CIDRs of surviving peers that nothing desired claims any more: their routes are not deleted. */
  function Withdrawn(s: Interface, ds: seq<PeerInfo>): set<string> {
    Owned(s.peers - Stale(s.peers, ds)) - AllClaims(ds)
  }

  lemma OwnedSplits(peers: map<string, set<string>>, gone: set<string>)
    requires Exclusive(peers)
    ensures Owned(peers) - HeldBy(peers, gone) == Owned(peers - gone)
  {
    var rest := peers - gone;
    forall c
      ensures c in Owned(peers) - HeldBy(peers, gone) <==> c in Owned(rest)
    {
      if c in Owned(peers) && c !in HeldBy(peers, gone) {
        var k :| k in peers && c in peers[k];
        assert k in rest && c in rest[k];
      }
      if c in Owned(rest) {
        var k :| k in rest && c in rest[k];
        assert k in peers && c in peers[k];
        assert c !in HeldBy(peers, gone);
      }
    }
  }

  /**
   * Starting with exactly the owned CIDRs routed and every deletion accepted, the routes left over are
   * exactly the withdrawn CIDRs of surviving peers: routes equal owned CIDRs again if and only if there are none.
   */
  lemma RouteResidue(s: Interface, ds: seq<PeerInfo>, stuck: set<string>)
    requires DistinctKeys(ds) && Exclusive(s.peers)
    requires s.routes == Owned(s.peers) && stuck !! Owned(s.peers)
    ensures var t := Reconciled(s, ds, stuck);
            t.routes - Owned(t.peers) == Withdrawn(s, ds) && (t.routes == Owned(t.peers) <==> Withdrawn(s, ds) == {})
  {
    var gone := Stale(s.peers, ds);
    OwnedSplits(s.peers, gone);
    var t := Reconciled(s, ds, stuck);
    var w := Without(s, gone, stuck);
    OwnedAfter(w.peers, ds);
    assert forall c :: c in HeldBy(s.peers, gone) ==> c in Owned(s.peers);
    assert HeldBy(s.peers, gone) - stuck == HeldBy(s.peers, gone);
    assert w.peers.Keys <= Keys(ds);
    assert Owned(t.peers) == AllClaims(ds);
    assert t.routes == Owned(s.peers - gone) + AllClaims(ds);
    assert forall c :: c in Withdrawn(s, ds) <==> c in Owned(s.peers - gone) && c !in AllClaims(ds);
  }

  /** Key rotation on the same mesh IP: the old key goes, the new key owns the address, and its route is there. */
  lemma KeyRotation(s: Interface, ds: seq<PeerInfo>, stuck: set<string>, oldKey: string, i: nat)
    requires DistinctKeys(ds) && i < |ds| && oldKey !in Keys(ds)
    requires var cidr := ds[i].meshIP + "/32"; oldKey in s.peers && cidr in s.peers[oldKey] && cidr in s.routes
    requires forall j :: 0 <= j < |ds| && j != i ==> ds[i].meshIP + "/32" !in Claims(ds[j])
    ensures var t := Reconciled(s, ds, stuck);
            var cidr := ds[i].meshIP + "/32";
            && oldKey !in t.peers && ds[i].publicKey in t.peers
            && cidr in t.peers[ds[i].publicKey] && cidr in t.routes
            && forall k :: k in t.peers && k != ds[i].publicKey ==> cidr !in t.peers[k]
  {
    var cidr := ds[i].meshIP + "/32";
    assert cidr == AllowedIPs(ds[i])[0];
    assert cidr in AllowedIPs(ds[i]);
    ReconcileExact(s, ds, stuck);
    LastClaimantWins(Without(s, Stale(s.peers, ds), stuck).peers, ds, i, cidr);
    assert ds[i].publicKey in Keys(ds);
  }

  // ----- why removal comes first -----

  /** The removal loop from `t`, driven, as in the code, by the CIDRs that were read before the first command. */
  function RemoveRead(t: Interface, read: map<string, set<string>>, order: seq<string>, stuck: set<string>): Interface {
    if order == [] then t else
      var u := RemoveRead(t, read, order[..|order| - 1], stuck);
      var key := order[|order| - 1];
      var held := if key in read then read[key] else {};
      Interface(u.peers - {key}, u.endpoints - {key}, u.routes - (held - stuck))
  }

  /** What is left of `t` when `gone` has been removed. */
  function LeftOver(t: Interface, read: map<string, set<string>>, gone: set<string>, stuck: set<string>): Interface {
    Interface(t.peers - gone, t.endpoints - gone, t.routes - (HeldBy(read, gone) - stuck))
  }

  lemma {:induction false} LeftOverStep(t: Interface, read: map<string, set<string>>, gone: set<string>, key: string,
                                        stuck: set<string>)
    ensures var u := LeftOver(t, read, gone, stuck);
            var held := if key in read then read[key] else {};
            Interface(u.peers - {key}, u.endpoints - {key}, u.routes - (held - stuck))
                == LeftOver(t, read, gone + {key}, stuck)
  {
    assert (t.peers - gone) - {key} == t.peers - (gone + {key});
    assert (t.endpoints - gone) - {key} == t.endpoints - (gone + {key});
    assert HeldBy(read, gone + {key}) == HeldBy(read, gone) + (if key in read then read[key] else {});
  }

  lemma {:induction false} RemoveReadAll(t: Interface, read: map<string, set<string>>, order: seq<string>,
                                         stuck: set<string>)
    ensures RemoveRead(t, read, order, stuck) == LeftOver(t, read, (set k | k in order), stuck)
  {
    if order == [] {
      assert (set k | k in order) == {} && t.peers - {} == t.peers && t.endpoints - {} == t.endpoints;
    } else {
      var front, key := order[..|order| - 1], order[|order| - 1];
      RemoveReadAll(t, read, front, stuck);
      LeftOverStep(t, read, (set k | k in front), key, stuck);
      assert order == front + [key];
      assert (set k | k in order) == (set k | k in front) + {key};
    }
  }

  lemma {:induction false} SetWithout(s: Interface, p: PeerInfo, gone: set<string>)
    requires p.publicKey !in gone
    ensures SetPeer(s.peers, p.publicKey, Claims(p)) - gone == SetPeer(s.peers - gone, p.publicKey, Claims(p))
    ensures SetEndpoint(s.endpoints, p) - gone == SetEndpoint(s.endpoints - gone, p)
  {
  }

  /** Peers that are not listed may go before the additions or after them. */
  lemma {:induction false} SetAllWithout(s: Interface, ds: seq<PeerInfo>, gone: set<string>)
    requires forall i :: 0 <= i < |ds| ==> ds[i].publicKey !in gone
    ensures SetAll(s.peers, ds) - gone == SetAll(s.peers - gone, ds)
    ensures SetEndpoints(s.endpoints, ds) - gone == SetEndpoints(s.endpoints - gone, ds)
  {
    if ds != [] {
      var n := |ds| - 1;
      SetAllWithout(s, ds[..n], gone);
      SetWithout(AddedAll(s, ds[..n]), ds[n], gone);
    }
  }

  /**
   * With the two loops exchanged, a reconciliation would leave the same peers and endpoints, but it would lack
   * exactly the routes of the CIDRs that a removed peer held and a desired one claims.
   */
  lemma {:induction false} AddingFirstLosesRoutes(s: Interface, ds: seq<PeerInfo>, order: seq<string>,
                                                  stuck: set<string>)
    requires (set k | k in order) == Stale(s.peers, ds)
    ensures var moved := HeldBy(s.peers, Stale(s.peers, ds)) * AllClaims(ds) - stuck;
            && RemoveRead(AddedAll(s, ds), s.peers, order, stuck)
            == Reconciled(s, ds, stuck).(routes := Reconciled(s, ds, stuck).routes - moved)
            && moved <= Reconciled(s, ds, stuck).routes
  {
    RemoveReadAll(AddedAll(s, ds), s.peers, order, stuck);
    assert forall i :: 0 <= i < |ds| ==> ds[i].publicKey in Keys(ds);
    SetAllWithout(s, ds, Stale(s.peers, ds));
  }

  // ----- inputs at which a clean start would have given more -----

  const MESH_IP := "100.100.0.3"
  const SUBNET := "192.168.7.0/24"

  lemma {:induction false} OnePeer(p: PeerInfo)
    ensures Keys([p]) == {p.publicKey} && AllClaims([p]) == Claims(p) && [p][..0] == []
  {
    var ds := [p];
    assert ds[0] == p;
    forall c | c in AllowedIPs(p)
      ensures c in AllClaims(ds)
    {
      assert c in AllowedIPs(ds[0]);
    }
    assert ds[0].publicKey in Keys(ds);
  }

  /** A peer that stays and withdraws its one subnet: the route is left, and nobody owns it. */
  lemma {:induction false} WithdrawnSubnetKeepsRoute(key: string)
    ensures var s := Interface(map[key := {MESH_IP + "/32", SUBNET}], map[], {MESH_IP + "/32", SUBNET});
            var ds := [PeerInfo(key, MESH_IP, "", [])];
            && DistinctKeys(ds) && Exclusive(s.peers) && s.routes == Owned(s.peers)
            && SUBNET in Reconciled(s, ds, {}).routes && SUBNET !in Owned(Reconciled(s, ds, {}).peers)
  {
    var s := Interface(map[key := {MESH_IP + "/32", SUBNET}], map[], {MESH_IP + "/32", SUBNET});
    var p := PeerInfo(key, MESH_IP, "", []);
    OnePeer(p);
    assert AllowedIPs(p) == [MESH_IP + "/32"];
    assert SUBNET[2] != (MESH_IP + "/32")[2];
    assert Owned(s.peers) == s.peers[key];
    assert s.peers - Stale(s.peers, [p]) == s.peers;
    RouteResidue(s, [p], {});
    assert SUBNET in Withdrawn(s, [p]);
  }

  /** A peer that had an endpoint and is listed without one: the old one stays, where a clean start has none. */
  lemma {:induction false} UnlistedEndpointStays(key: string, endpoint: string)
    ensures var s := Interface(map[key := {}], map[key := endpoint], {});
            var ds := [PeerInfo(key, MESH_IP, "", [])];
            && key in Reconciled(s, ds, {}).endpoints && Reconciled(s, ds, {}).endpoints[key] == endpoint
            && key !in Reconciled(EMPTY, ds, {}).endpoints
  {
    var p := PeerInfo(key, MESH_IP, "", []);
    OnePeer(p);
    forall e: map<string, string>
      ensures SetEndpoints(e, [p]) == e
    {
      assert SetEndpoints(e, [p][..0]) == e;
    }
    assert EMPTY.endpoints - Stale(EMPTY.peers, [p]) == map[];
  }

  // ----- runs of attempts -----

  /** One attempt: a success or a stop at any failing command, with the current peers read or taken for none. */
  ghost predicate Attempt(s: Interface, ds: seq<PeerInfo>, stuck: set<string>, t: Interface) {
    || t == Reconciled(s, ds, stuck)
    || t == AddedAll(s, ds)
    || Interrupted(s, ds, stuck, t)
    || StoppedAdding(s, ds, t)
  }

  datatype Try = Try(desired: seq<PeerInfo>, stuck: set<string>)

  ghost predicate AreAttempts(run: seq<Interface>, tries: seq<Try>) {
    && |run| == |tries| + 1
    && forall i :: 0 <= i < |tries| ==> Attempt(run[i], tries[i].desired, tries[i].stuck, run[i + 1])
  }

  lemma {:induction false} SetAllExclusive(peers: map<string, set<string>>, ds: seq<PeerInfo>)
    requires Exclusive(peers)
    ensures Exclusive(SetAll(peers, ds))
  {
    if ds != [] {
      SetAllExclusive(peers, ds[..|ds| - 1]);
    }
  }

  lemma AttemptKeepsExclusive(s: Interface, ds: seq<PeerInfo>, stuck: set<string>, t: Interface)
    requires Exclusive(s.peers) && Attempt(s, ds, stuck, t)
    ensures Exclusive(t.peers)
  {
    var w := Without(s, Stale(s.peers, ds), stuck);
    SetAllExclusive(w.peers, ds);
    SetAllExclusive(s.peers, ds);
    if StoppedAdding(w, ds, t) {
      StoppedKeepsExclusive(w, ds, t);
    } else if StoppedAdding(s, ds, t) {
      StoppedKeepsExclusive(s, ds, t);
    }
  }

  lemma StoppedKeepsExclusive(s: Interface, ds: seq<PeerInfo>, t: Interface)
    requires Exclusive(s.peers) && StoppedAdding(s, ds, t)
    ensures Exclusive(t.peers)
  {
    var n :| 0 <= n < |ds| && StoppedAt(s, ds, n, t);
    SetAllExclusive(s.peers, ds[..n]);
    SetAllExclusive(s.peers, ds[..n + 1]);
  }

  /** Routes after an attempt were there before or are desired now. */
  lemma AttemptRoutes(s: Interface, ds: seq<PeerInfo>, stuck: set<string>, t: Interface)
    requires Attempt(s, ds, stuck, t)
    ensures t.routes <= s.routes + AllClaims(ds)
  {
    var w := Without(s, Stale(s.peers, ds), stuck);
    if StoppedAdding(w, ds, t) {
      StoppedRoutes(w, ds, t);
    } else if StoppedAdding(s, ds, t) {
      StoppedRoutes(s, ds, t);
    }
  }

  lemma StoppedRoutes(s: Interface, ds: seq<PeerInfo>, t: Interface)
    requires StoppedAdding(s, ds, t)
    ensures t.routes <= s.routes + AllClaims(ds)
  {
    var n :| 0 <= n < |ds| && StoppedAt(s, ds, n, t);
    PrefixStep(ds, n);
    forall c | c in AllClaims(ds[..n + 1])
      ensures c in AllClaims(ds)
    {
      var i :| 0 <= i <= n && c in AllowedIPs(ds[..n + 1][i]);
      assert c in AllowedIPs(ds[i]);
    }
  }

  ghost function DesiredInRun(tries: seq<Try>): set<string> {
    set i, c | 0 <= i < |tries| && c in AllClaims(tries[i].desired) :: c
  }

  /**
   * Self-stabilisation. After any run of attempts, each succeeding or stopping at an arbitrary failing
   * command, cryptokey routing is still exclusive and no route exists that was not there at the start or
   * desired on the way; one success then gives the table an empty interface would get, all of it routed.
   */
  lemma {:induction false} SelfStabilising(run: seq<Interface>, tries: seq<Try>)
    requires AreAttempts(run, tries) && Exclusive(run[0].peers)
    ensures Exclusive(run[|tries|].peers)
    ensures run[|tries|].routes <= run[0].routes + DesiredInRun(tries)
    ensures forall ds, stuck :: var t := Reconciled(run[|tries|], ds, stuck);
              && t.peers == Reconciled(EMPTY, ds, {}).peers
              && Owned(t.peers) <= t.routes
              && Reconciled(t, ds, stuck) == t
  {
    if tries != [] {
      var n := |tries| - 1;
      var front := tries[..n];
      assert forall i :: 0 <= i < n ==> front[i] == tries[i] && run[..n + 1][i + 1] == run[i + 1];
      SelfStabilising(run[..n + 1], front);
      AttemptKeepsExclusive(run[n], tries[n].desired, tries[n].stuck, run[n + 1]);
      AttemptRoutes(run[n], tries[n].desired, tries[n].stuck, run[n + 1]);
      forall c | c in DesiredInRun(front)
        ensures c in DesiredInRun(tries)
      {
        var i :| 0 <= i < n && c in AllClaims(front[i].desired);
        assert c in AllClaims(tries[i].desired);
      }
      assert forall c :: c in AllClaims(tries[n].desired) ==> c in DesiredInRun(tries);
    }
    forall ds, stuck
      ensures var t := Reconciled(run[|tries|], ds, stuck);
        && t.peers == Reconciled(EMPTY, ds, {}).peers && Owned(t.peers) <= t.routes && Reconciled(t, ds, stuck) == t
    {
      ReconcileFromAnywhere(run[|tries|], ds, stuck);
      ReconcileIdempotent(run[|tries|], ds, stuck, stuck);
    }
  }
}

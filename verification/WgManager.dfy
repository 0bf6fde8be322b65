/** The agent's reconciliation, command by command, against a kernel whose commands may fail. */
module WgManager {
  import opened WgSpec
  import opened WgText

  /** How `wg show` behaves: it prints the peers, or fails after printing something or nothing. */
  datatype Show = Works | Fails(output: string)

  /** `table` lists exactly the peers and CIDRs of `peers`, in some order. */
  ghost predicate Lists(table: seq<Entry>, peers: map<string, set<string>>) {
    && PrintableTable(table)
    && (forall k :: k in peers <==> exists e :: e in table && e.key == k)
    && (forall e :: e in table ==> e.key in peers && (set c | c in e.cidrs) == peers[e.key])
  }

  method Sequence(s: set<string>) returns (r: seq<string>)
    ensures (set c | c in r) == s
  {
    r := [];
    var rest := s;
    while rest != {}
      invariant rest <= s && forall c :: c in r <==> c in s && c !in rest
      decreases rest
    {
      var c :| c in rest;
      ghost var before := r;
      r, rest := r + [c], rest - {c};
      assert forall d :: d in r <==> d in before || d == c;
    }
  }

  /**
   * One WireGuard interface and the routes through it. `stuck` routes cannot be deleted; `refusals` counts the
   * other commands that failed.
   */
  class Kernel {
    var peers: map<string, set<string>>
    var endpoints: map<string, string>
    var routes: set<string>
    var refusals: nat
    const stuck: set<string>
    const show: Show

    constructor (peers: map<string, set<string>>, endpoints: map<string, string>, routes: set<string>,
                 stuck: set<string>, show: Show)
      requires forall k :: k in peers ==> IsToken(k) && forall c :: c in peers[k] ==> IsToken(c) && c != NONE
      ensures Valid() && State() == Interface(peers, endpoints, routes) && this.stuck == stuck && this.show == show
    {
      this.peers, this.endpoints, this.routes := peers, endpoints, routes;
      this.stuck, this.show, this.refusals := stuck, show, 0;
    }

    /** Keys and CIDRs are words: `wg` refuses anything else. */
    ghost predicate Valid()
      reads this
    {
      forall k :: k in peers ==> IsToken(k) && forall c :: c in peers[k] ==> IsToken(c) && c != NONE
    }

    ghost function State(): Interface
      reads this
    {
      Interface(peers, endpoints, routes)
    }

    method WgShow() returns (failed: bool, out: string)
      requires Valid()
      ensures failed <==> show != Works
      ensures failed ==> out == show.output
      ensures !failed ==> exists table :: Lists(table, peers) && out == Print(table)
    {
      match show {
        case Fails(output) =>
          return true, output;
        case Works =>
          var table: seq<Entry> := [];
          var rest := peers.Keys;
          while rest != {}
            invariant rest <= peers.Keys
            invariant forall k :: k in peers ==> (k in rest <==> !exists e :: e in table && e.key == k)
            invariant forall e :: e in table ==> e.key in peers && (set c | c in e.cidrs) == peers[e.key]
            invariant forall i, j :: 0 <= i < j < |table| ==> table[i].key != table[j].key
            decreases rest
          {
            var k :| k in rest;
            var cidrs := Sequence(peers[k]);
            ghost var before := table;
            table, rest := table + [Entry(k, cidrs)], rest - {k};
            assert forall e :: e in table <==> e in before || e == Entry(k, cidrs);
          }
          assert forall i :: 0 <= i < |table| ==> table[i] in table;
          forall i | 0 <= i < |table|
            ensures Printable(table[i])
          {
            var e := table[i];
            assert forall c :: c in e.cidrs ==> c in (set d | d in e.cidrs);
          }
          assert Lists(table, peers);
          return false, Print(table);
      }
    }

    /** Replaces the peer's allowed-ips and, where one is given, its endpoint; refuses malformed words. */
    method WgSetPeer(p: PeerInfo, cidrs: seq<string>) returns (ok: bool)
      requires Valid()
      modifies this`peers, this`endpoints, this`refusals
      ensures Valid() && refusals == old(refusals) + if ok then 0 else 1
      ensures ok ==> peers == SetPeer(old(peers), p.publicKey, set c | c in cidrs)
      ensures ok ==> endpoints == SetEndpoint(old(endpoints), p)
      ensures !ok ==> State() == old(State())
    {
      ok := *;
      if !IsToken(p.publicKey) || exists c | c in cidrs :: !IsToken(c) || c == NONE {
        ok := false;
      }
      if ok {
        peers := SetPeer(peers, p.publicKey, set c | c in cidrs);
        endpoints := SetEndpoint(endpoints, p);
      } else {
        refusals := refusals + 1;
      }
    }

    method WgRemovePeer(key: string) returns (ok: bool)
      requires Valid()
      modifies this`peers, this`endpoints, this`refusals
      ensures Valid() && refusals == old(refusals) + if ok then 0 else 1
      ensures ok ==> peers == old(peers) - {key} && endpoints == old(endpoints) - {key}
      ensures !ok ==> State() == old(State())
    {
      ok := *;
      if ok {
        peers, endpoints := peers - {key}, endpoints - {key};
      } else {
        refusals := refusals + 1;
      }
    }

    method IpRouteDel(cidr: string)
      modifies this`routes
      ensures routes == old(routes) - ({cidr} - stuck)
    {
      if cidr !in stuck {
        routes := routes - {cidr};
      }
    }

    method IpRouteShow(cidr: string) returns (ok: bool, found: bool)
      modifies this`refusals
      ensures refusals == old(refusals) + if ok then 0 else 1
      ensures ok ==> (found <==> cidr in routes)
    {
      ok, found := *, cidr in routes;
      if !ok {
        refusals := refusals + 1;
      }
    }

    /** Adding a route that is already there is an error. */
    method IpRouteAdd(cidr: string) returns (ok: bool)
      modifies this`routes, this`refusals
      ensures refusals == old(refusals) + if ok then 0 else 1
      ensures ok ==> cidr !in old(routes) && routes == old(routes) + {cidr}
      ensures !ok ==> routes == old(routes)
    {
      ok := *;
      if cidr in routes {
        ok := false;
      }
      if ok {
        routes := routes + {cidr};
      } else {
        refusals := refusals + 1;
      }
    }
  }

  /** The peers read from the kernel; `None` stands for an error. A silent failure reads as no peers. */
  method CurrentPeersOf(kernel: Kernel) returns (ok: bool, current: map<string, seq<string>>)
    requires kernel.Valid()
    ensures ok <==> kernel.show == Works || kernel.show == Fails("")
    ensures kernel.show == Works ==> current.Keys == kernel.peers.Keys
    ensures kernel.show == Works ==> forall k :: k in current ==> (set c | c in current[k]) == kernel.peers[k]
    ensures kernel.show == Fails("") ==> current == map[]
  {
    var failed, out := kernel.WgShow();
    if failed {
      return |out| == 0, map[];
    }
    ghost var table: seq<Entry> :| Lists(table, kernel.peers) && out == Print(table);
    RoundTrip(table);
    TableLookup(table);
    current := CurrentPeers(out);
    ok := true;
    forall k | k in current
      ensures k in kernel.peers && (set c | c in current[k]) == kernel.peers[k]
    {
      var e :| e in table && e.key == k;
      assert current[k] == e.cidrs;
    }
    assert current.Keys == kernel.peers.Keys;
  }

  /** Deletes the routes of one removed peer, ignoring refusals. */
  method DeleteRoutes(kernel: Kernel, cidrs: seq<string>)
    modifies kernel`routes
    ensures kernel.routes == old(kernel.routes) - ((set c | c in cidrs) - kernel.stuck)
  {
    for i := 0 to |cidrs|
      invariant kernel.routes == old(kernel.routes) - ((set c | c in cidrs[..i]) - kernel.stuck)
    {
      assert cidrs[..i + 1] == cidrs[..i] + [cidrs[i]];
      kernel.IpRouteDel(cidrs[i]);
    }
    assert cidrs[..|cidrs|] == cidrs;
  }

  /** Adds the missing routes of one peer. */
  method AddRoutes(kernel: Kernel, cidrs: seq<string>) returns (ok: bool)
    modifies kernel`routes, kernel`refusals
    ensures kernel.refusals == old(kernel.refusals) + if ok then 0 else 1
    ensures old(kernel.routes) <= kernel.routes <= old(kernel.routes) + set c | c in cidrs
    ensures ok ==> kernel.routes == old(kernel.routes) + set c | c in cidrs
  {
    for i := 0 to |cidrs|
      invariant kernel.routes == old(kernel.routes) + set c | c in cidrs[..i]
      invariant kernel.refusals == old(kernel.refusals)
    {
      assert cidrs[..i + 1] == cidrs[..i] + [cidrs[i]];
      var shown, hasRoute := kernel.IpRouteShow(cidrs[i]);
      if !shown {
        return false;
      }
      if !hasRoute {
        var added := kernel.IpRouteAdd(cidrs[i]);
        if !added {
          return false;
        }
      }
    }
    assert cidrs[..|cidrs|] == cidrs;
    ok := true;
  }

  method ByKey(desired: seq<PeerInfo>) returns (desiredByKey: map<string, PeerInfo>)
    ensures desiredByKey.Keys == Keys(desired)
  {
    desiredByKey := map[];
    for n := 0 to |desired|
      invariant desiredByKey.Keys == Keys(desired[..n])
    {
      PrefixStep(desired, n);
      desiredByKey := desiredByKey[desired[n].publicKey := desired[n]];
    }
    assert desired[..|desired|] == desired;
  }

  /** Removes one more absent peer, then the routes it was read with. `s` is the interface before the first removal. */
  method RemoveOne(kernel: Kernel, key: string, cidrs: seq<string>, ghost s: Interface, ghost gone: set<string>)
    returns (ok: bool)
    requires kernel.Valid() && kernel.State() == Without(s, gone, kernel.stuck)
    requires key in s.peers && key !in gone && (set c | c in cidrs) == s.peers[key]
    modifies kernel
    ensures kernel.Valid()
    ensures kernel.State() == Without(s, if ok then gone + {key} else gone, kernel.stuck)
    ensures kernel.refusals == old(kernel.refusals) + if ok then 0 else 1
  {
    ok := kernel.WgRemovePeer(key);
    if ok {
      DeleteRoutes(kernel, cidrs);
      WithoutStep(s, gone, key, kernel.stuck);
    }
  }

  /** The removal loop, over the peers as read, in whatever order the map yields them. */
  method RemoveStale(kernel: Kernel, current: map<string, seq<string>>, desired: seq<PeerInfo>)
    returns (ok: bool, ghost gone: set<string>)
    requires kernel.Valid()
    requires current.Keys <= kernel.peers.Keys
    requires forall k :: k in current ==> (set c | c in current[k]) == kernel.peers[k]
    modifies kernel
    ensures kernel.Valid()
    ensures kernel.State() == Without(old(kernel.State()), gone, kernel.stuck)
    ensures if ok then gone == current.Keys - Keys(desired) else gone < current.Keys - Keys(desired)
    ensures kernel.refusals == old(kernel.refusals) + if ok then 0 else 1
  {
    var desiredByKey := ByKey(desired);
    ghost var s := kernel.State();
    gone := {};
    var rest := current.Keys;
    WithoutNone(s, kernel.stuck);
    while rest != {}
      invariant kernel.Valid()
      invariant rest <= current.Keys && gone == current.Keys - rest - Keys(desired)
      invariant kernel.State() == Without(s, gone, kernel.stuck)
      invariant kernel.refusals == old(kernel.refusals)
      decreases rest
    {
      var key :| key in rest;
      if key !in desiredByKey {
        ok := RemoveOne(kernel, key, current[key], s, gone);
        if !ok {
          assert key in current.Keys - Keys(desired) && key !in gone;
          return;
        }
        gone := gone + {key};
      }
      rest := rest - {key};
    }
    ok := true;
  }

  lemma WithoutNone(s: Interface, stuck: set<string>)
    ensures Without(s, {}, stuck) == s
  {
    assert s.peers - {} == s.peers && s.endpoints - {} == s.endpoints && HeldBy(s.peers, {}) == {};
  }

  /** The addition loop. */
  method AddDesired(kernel: Kernel, desired: seq<PeerInfo>) returns (ok: bool)
    requires kernel.Valid()
    modifies kernel
    ensures kernel.Valid()
    ensures ok ==> kernel.State() == AddedAll(old(kernel.State()), desired)
    ensures !ok ==> StoppedAdding(old(kernel.State()), desired, kernel.State())
    ensures kernel.refusals == old(kernel.refusals) + if ok then 0 else 1
  {
    ghost var s := kernel.State();
    assert AllClaims([]) == {};
    for n := 0 to |desired|
      invariant kernel.Valid()
      invariant kernel.State() == AddedAll(s, desired[..n])
      invariant kernel.refusals == old(kernel.refusals)
    {
      PrefixStep(desired, n);
      var p := desired[n];
      var allowedIPs := [p.meshIP + "/32"] + p.advertisedSubnets;
      assert allowedIPs == AllowedIPs(p);
      ok := kernel.WgSetPeer(p, allowedIPs);
      if ok {
        ok := AddRoutes(kernel, allowedIPs);
      }
      if !ok {
        assert StoppedAt(s, desired, n, kernel.State());
        return;
      }
    }
    assert desired[..|desired|] == desired;
    ok := true;
  }

  /** Manager.Reconcile: it succeeds exactly if the peers could be read and no command but a route deletion failed. */
  method Reconcile(kernel: Kernel, desired: seq<PeerInfo>) returns (ok: bool)
    requires kernel.Valid()
    modifies kernel
    ensures kernel.Valid()
    ensures ok <==> (kernel.show == Works || kernel.show == Fails("")) && kernel.refusals == old(kernel.refusals)
    ensures kernel.refusals <= old(kernel.refusals) + 1
    ensures kernel.show == Works && ok ==> kernel.State() == Reconciled(old(kernel.State()), desired, kernel.stuck)
    ensures kernel.show == Works && !ok ==> Interrupted(old(kernel.State()), desired, kernel.stuck, kernel.State())
    ensures kernel.show == Fails("") && ok ==> kernel.State() == AddedAll(old(kernel.State()), desired)
    ensures kernel.show == Fails("") && !ok ==> StoppedAdding(old(kernel.State()), desired, kernel.State())
    ensures kernel.show.Fails? && kernel.show.output != "" ==> !ok && unchanged(kernel)
    ensures Attempt(old(kernel.State()), desired, kernel.stuck, kernel.State())
  {
    ghost var s := kernel.State();
    var read, current := CurrentPeersOf(kernel);
    WithoutNone(s, kernel.stuck);
    if !read {
      assert StoppedRemoving(s, desired, kernel.stuck, s);
      return false;
    }
    ghost var gone;
    ok, gone := RemoveStale(kernel, current, desired);
    assert kernel.show == Fails("") ==> current.Keys - Keys(desired) == {};
    assert kernel.show == Works ==> current.Keys - Keys(desired) == Stale(s.peers, desired);
    if ok {
      ok := AddDesired(kernel, desired);
    }
  }

  /**
   * `wg show` fails without a word while one peer is configured and none is wanted: success is reported, and the
   * peer stays.
   */
  method SilentFailureKeepsPeer(key: string) returns (kernel: Kernel, ok: bool)
    requires IsToken(key)
    ensures ok && key in kernel.peers && kernel.peers.Keys != Keys([])
  {
    kernel := new Kernel(map[key := {}], map[], {}, {}, Fails(""));
    ok := Reconcile(kernel, []);
    assert AllClaims([]) == {} && Keys([]) == {};
  }
}

/** The control plane's address allocation and each node's view of the peer list. */
module Mesh {
  import opened Wrappers
  import opened Text
  import opened IpBytes
  import opened WgSpec

  // ----- dotted addresses -----

  /** net.IP.String on four bytes. */
  function Dotted(ip: seq<byte>): string
    requires |ip| == 4
  {
    Decimal(ip[0]) + "." + (Decimal(ip[1]) + "." + (Decimal(ip[2]) + "." + Decimal(ip[3])))
  }

  /** Reads a dotted address from the left, each part as a decimal numeral and each dot as a shift by one byte. */
  function ReadDotted(s: string, total: int, part: int): int {
    if s == "" then total * 256 + part
    else if s[0] == '.' then ReadDotted(s[1..], total * 256 + part, 0)
    else ReadDotted(s[1..], total, part * 10 + DigitValue(s[0]))
  }

  lemma {:induction false} ReadNumeral(n: nat, rest: string, total: int)
    ensures ReadDotted(Numeral(n) + rest, total, 0) == ReadDotted(rest, total, n)
  {
    var d := [Digit(n % 10)];
    assert (d + rest)[1..] == rest;
    if n >= 10 {
      ReadNumeral(n / 10, d + rest, total);
      assert Numeral(n) + rest == Numeral(n / 10) + (d + rest);
    } else {
      assert Numeral(n) + rest == d + rest;
    }
  }

  /** One part and the dot after it. */
  lemma {:induction false} ReadPart(n: nat, rest: string, total: int)
    ensures ReadDotted(Decimal(n) + "." + rest, total, 0) == ReadDotted(rest, total * 256 + n, 0)
  {
    ReadNumeral(n, "." + rest, total);
    assert Decimal(n) + "." + rest == Decimal(n) + ("." + rest) && ("." + rest)[1..] == rest;
  }

  lemma {:induction false} ReadParts(w: nat, x: nat, y: nat, z: nat)
    ensures ReadDotted(Decimal(w) + "." + (Decimal(x) + "." + (Decimal(y) + "." + Decimal(z))), 0, 0)
         == ((w * 256 + x) * 256 + y) * 256 + z
  {
    var s3 := Decimal(z);
    var s2 := Decimal(y) + "." + s3;
    ReadPart(w, Decimal(x) + "." + s2, 0);
    ReadPart(x, s2, w);
    ReadPart(y, s3, w * 256 + x);
    ReadNumeral(z, "", (w * 256 + x) * 256 + y);
    assert s3 + "" == s3;
  }

  /** The four bytes of an integer. */
  function Bytes(v: nat): (r: seq<byte>)
    ensures |r| == 4
  {
    [v / 256 / 256 / 256 % 256, v / 256 / 256 % 256, v / 256 % 256, v % 256]
  }

  lemma BytesOfValue(s: seq<byte>)
    requires |s| == 4
    ensures Bytes(Value(s)) == s
  {
    ValueStep(s, 3);
    ValueStep(s[..3], 2);
    ValueStep(s[..3][..2], 1);
    ValueStep(s[..3][..2][..1], 0);
    assert Value(s) / 256 == Value(s[..3]);
    assert Value(s[..3]) / 256 == Value(s[..3][..2]);
    assert Value(s[..3][..2]) / 256 == Value(s[..3][..2][..1]);
  }

  lemma ValueOf4Bound(s: seq<byte>)
    requires |s| == 4
    ensures Value(s) < 0x1_0000_0000 == Pow2(32)
  {
    ValueBound(s);
    Pow2Plus8(24);
    Pow2Plus8(16);
    Pow2Plus8(8);
    Pow2Of8();
  }

  /** The text of the address with integer value `v`. */
  function Address(v: nat): string {
    Dotted(Bytes(v))
  }

  /** Reading an address's text gives the address back. */
  lemma {:induction false} AddressRoundTrip(v: nat)
    requires v < 0x1_0000_0000
    ensures ReadDotted(Address(v), 0, 0) == v
  {
    var ip := Bytes(v);
    ReadParts(ip[0], ip[1], ip[2], ip[3]);
    assert v / 256 / 256 / 256 < 256;
    assert v == v / 256 * 256 + v % 256;
    assert v / 256 == v / 256 / 256 * 256 + v / 256 % 256;
    assert v / 256 / 256 == v / 256 / 256 / 256 * 256 + v / 256 / 256 % 256;
  }

  lemma AddressInjective(v: nat, w: nat)
    requires v < 0x1_0000_0000 && w < 0x1_0000_0000 && Address(v) == Address(w)
    ensures v == w
  {
    AddressRoundTrip(v);
    AddressRoundTrip(w);
  }

  /** The most significant byte comes first. */
  lemma {:induction false} AddressText()
    ensures Address(0x0A00_0102) == "10.0.1.2"
  {
    assert Bytes(0x0A00_0102) == [10, 0, 1, 2];
    assert Numeral(1) == "1" && Decimal(10) == "10" && Decimal(0) == "0" && Decimal(1) == "1" && Decimal(2) == "2";
  }

  // ----- the allocator -----

  /** A parsed IPv4 CIDR: the masked network address and the prefix length. */
  datatype Cidr = Cidr(net: seq<byte>, ones: nat)

  /** What net.ParseCIDR returns: the network number has no bit set past the prefix. */
  ghost predicate Parsed(c: Cidr) {
    |c.net| == 4 && c.ones <= 32 && RoundDown(Value(c.net), 32 - c.ones) == Value(c.net)
  }

  /** That is, masking it changes nothing. */
  lemma ParsedIsMasked(c: Cidr)
    requires |c.net| == 4 && c.ones <= 32
    ensures Parsed(c) <==> And(c.net, Mask(c.ones, 4)) == c.net
  {
    MaskedNetwork(c.net, Mask(c.ones, 4), c.ones, 32 - c.ones);
    EqualByValue(And(c.net, Mask(c.ones, 4)), c.net);
  }

  /** First address of the network. */
  function Network(c: Cidr): nat {
    Value(c.net)
  }

  function Size(c: Cidr): nat
    requires c.ones <= 32
  {
    Pow2(32 - c.ones)
  }

  function Broadcast(c: Cidr): int
    requires c.ones <= 32
  {
    Network(c) + Size(c) - 1
  }

  /** What parsing guarantees about the range: every address is a 32-bit integer. */
  ghost predicate Fits(c: Cidr) {
    c.ones <= 32 && Broadcast(c) < 0x1_0000_0000
  }

  /** A host address: strictly between network and broadcast. */
  ghost predicate IsHost(c: Cidr, v: int)
    requires c.ones <= 32
  {
    Network(c) < v < Broadcast(c)
  }

  lemma ParsedNetwork(c: Cidr)
    requires Parsed(c)
    ensures RoundDown(Network(c), 32 - c.ones) == Network(c)
    ensures Value(OrNot(c.net, Mask(c.ones, 4))) == Broadcast(c) && Fits(c)
  {
    MaskedValue(c.net, c.ones);
    ValueOf4Bound(OrNot(c.net, Mask(c.ones, 4)));
  }

  /** The addresses, as integers, whose text is in `used`. */
  ghost function Taken(used: set<string>): set<int> {
    set v: int | 0 <= v < 0x1_0000_0000 && Address(v) in used
  }

  /** The least free host address. */
  ghost predicate LeastFree(c: Cidr, taken: set<int>, v: int)
    requires c.ones <= 32
  {
    IsHost(c, v) && v !in taken && forall u :: IsHost(c, u) && u < v ==> u in taken
  }

  ghost predicate Exhausted(c: Cidr, taken: set<int>)
    requires c.ones <= 32
  {
    forall u :: IsHost(c, u) ==> u in taken
  }

  lemma LeastFreeUnique(c: Cidr, taken: set<int>, v: int, w: int)
    requires c.ones <= 32 && LeastFree(c, taken, v) && LeastFree(c, taken, w)
    ensures v == w
  {
    assert IsHost(c, v) && IsHost(c, w);
  }

  lemma TakenByText(used: set<string>, ip: seq<byte>)
    requires |ip| == 4
    ensures Value(ip) in Taken(used) <==> Dotted(ip) in used
    ensures Dotted(ip) == Address(Value(ip))
  {
    BytesOfValue(ip);
    ValueOf4Bound(ip);
  }

  /** The set built from the list of used addresses. */
  method UsedSet(used: seq<string>) returns (usedSet: set<string>)
    ensures usedSet == (set u | u in used)
  {
    usedSet := {};
    for i := 0 to |used|
      invariant usedSet == (set u | u in used[..i])
    {
      assert used[..i + 1] == used[..i] + [used[i]];
      usedSet := usedSet + {used[i]};
    }
    assert used[..|used|] == used;
  }

  lemma InNetwork(c: Cidr, ip: seq<byte>)
    requires Parsed(c) && |ip| == 4
    ensures Contains(c.net, Mask(c.ones, 4), ip) <==> Network(c) <= Value(ip) <= Broadcast(c)
  {
    ParsedNetwork(c);
    ContainsIsInterval(ip, c.net, Mask(c.ones, 4), c.ones, 32 - c.ones);
  }

  /**
   * One increment short of the broadcast address stays inside; in a one-address network it leaves, even by
   * wrapping.
   */
  lemma IncrementInNetwork(c: Cidr, ip: seq<byte>)
    requires Parsed(c) && |ip| == 4 && Network(c) <= Value(ip) <= Broadcast(c)
    ensures Value(ip) < Broadcast(c) ==> Value(Inc(ip)) == Value(ip) + 1
    ensures c.ones == 32 ==> Value(ip) == Network(c) == Broadcast(c) && Value(Inc(ip)) != Network(c)
    ensures c.ones < 32 ==> Network(c) < Broadcast(c)
  {
    IncIsPlusOne(ip);
    ValueOf4Bound(ip);
    ParsedNetwork(c);
    Pow2Monotone(1, if c.ones == 32 then 1 else 32 - c.ones);
  }

  method CopyOf(s: seq<byte>) returns (a: array<byte>)
    ensures fresh(a) && a[..] == s
  {
    a := new byte[|s|](i requires 0 <= i < |s| => s[i]);
  }

  /** Where the search stands: all host addresses below `v` are in use, or a one-address network was left. */
  ghost predicate SearchAt(c: Cidr, taken: set<int>, v: nat)
    requires c.ones <= 32
  {
    || (Network(c) < v <= Broadcast(c) && forall u :: IsHost(c, u) && u < v ==> u in taken)
    || (c.ones == 32 && v != Network(c))
  }

  /** The loop guard of the search. */
  predicate InPool(c: Cidr, mask: seq<byte>, last: seq<byte>, ip: seq<byte>)
    requires |c.net| == |mask| == |ip|
  {
    Contains(c.net, mask, ip) && ip != last
  }

  lemma InPoolExact(c: Cidr, mask: seq<byte>, last: seq<byte>, ip: seq<byte>)
    requires Parsed(c) && mask == Mask(c.ones, 4) && |last| == |ip| == 4 && Value(last) == Broadcast(c)
    ensures InPool(c, mask, last, ip) <==> Network(c) <= Value(ip) < Broadcast(c)
  {
    InNetwork(c, ip);
    EqualByValue(ip, last);
  }

  /** Leaving the network ends the search; a free address inside it is the least; a taken one leads to the next. */
  lemma {:induction false} SearchOn(c: Cidr, taken: set<int>, v: nat)
    requires Parsed(c) && SearchAt(c, taken, v)
    ensures !(Network(c) <= v < Broadcast(c)) ==> Exhausted(c, taken)
    ensures Network(c) <= v < Broadcast(c) ==> if v in taken then SearchAt(c, taken, v + 1) else LeastFree(c, taken, v)
  {
    ParsedNetwork(c);
  }

  lemma SearchStep(c: Cidr, taken: set<int>, ip: seq<byte>)
    requires Parsed(c) && |ip| == 4 && SearchAt(c, taken, Value(ip))
    ensures !(Network(c) <= Value(ip) < Broadcast(c)) ==> Exhausted(c, taken)
    ensures Network(c) <= Value(ip) < Broadcast(c) ==>
      if Value(ip) in taken then Value(Inc(ip)) == Value(ip) + 1 && SearchAt(c, taken, Value(Inc(ip)))
      else LeastFree(c, taken, Value(ip))
  {
    SearchOn(c, taken, Value(ip));
    if Network(c) <= Value(ip) < Broadcast(c) {
      IncrementInNetwork(c, ip);
    }
  }

  /** The search loop: `ip` is the address under consideration. */
  method Search(c: Cidr, mask: seq<byte>, last: seq<byte>, usedSet: set<string>, ip: array<byte>)
    returns (r: Result<string>)
    requires Parsed(c) && mask == Mask(c.ones, 4) && |last| == ip.Length == 4 && Value(last) == Broadcast(c)
    requires SearchAt(c, Taken(usedSet), Value(ip[..]))
    modifies ip
    ensures r.Ok? ==> exists v: nat :: LeastFree(c, Taken(usedSet), v) && r.value == Address(v)
    ensures r.Err? ==> Exhausted(c, Taken(usedSet))
  {
    ghost var taken := Taken(usedSet);
    InPoolExact(c, mask, last, ip[..]);
    SearchStep(c, taken, ip[..]);
    while InPool(c, mask, last, ip[..])
      invariant SearchAt(c, taken, Value(ip[..]))
      decreases Broadcast(c) - Value(ip[..])
    {
      InPoolExact(c, mask, last, ip[..]);
      SearchStep(c, taken, ip[..]);
      TakenByText(usedSet, ip[..]);
      var candidate := Dotted(ip[..]);
      if candidate !in usedSet {
        return Ok(candidate);
      }
      IncIP(ip);
    }
    InPoolExact(c, mask, last, ip[..]);
    SearchStep(c, taken, ip[..]);
    return Err("mesh cidr exhausted");
  }

  /**
   * AllocateIP: the least host address not in use, or an error exactly when the CIDR does not parse or
   * no host address is free.
   */
  method AllocateIP(cidr: Result<Cidr>, used: seq<string>) returns (r: Result<string>)
    requires cidr.Ok? ==> Parsed(cidr.value)
    ensures r.Ok? ==> cidr.Ok? && exists v: nat ::
            LeastFree(cidr.value, Taken(set u | u in used), v) && r.value == Address(v)
    ensures r.Err? <==> cidr.Err? || Exhausted(cidr.value, Taken(set u | u in used))
  {
    if cidr.Err? {
      return Err("parse mesh cidr");
    }
    var c := cidr.value;
    var usedSet := UsedSet(used);
    var mask := Mask(c.ones, 4);
    ParsedIsMasked(c);
    var ip := CopyOf(And(c.net, mask));
    var broadcast := LastAddr(c.net, mask);
    ParsedNetwork(c);
    IncrementInNetwork(c, c.net);
    IncIP(ip);
    r := Search(c, mask, broadcast[..], usedSet, ip);
  }

  // ----- the peer view -----

  /** A row of the nodes table, as listed. */
  datatype Node = Node(name: string, publicKey: string, meshIP: string, lastEndpoint: Option<string>,
                       advertisedSubnets: seq<string>)

  function PeerOf(n: Node): PeerInfo {
    PeerInfo(n.publicKey, n.meshIP, if n.lastEndpoint.Some? then n.lastEndpoint.value else "", n.advertisedSubnets)
  }

  function PeersExcept(key: string, nodes: seq<Node>): seq<PeerInfo> {
    if nodes == [] then [] else
      var last := nodes[|nodes| - 1];
      PeersExcept(key, nodes[..|nodes| - 1]) + (if last.publicKey == key then [] else [PeerOf(last)])
  }

  /** PeerListFor: every other node, in list order. */
  method PeerListFor(publicKey: string, nodes: seq<Node>) returns (peers: seq<PeerInfo>)
    ensures peers == PeersExcept(publicKey, nodes)
  {
    peers := [];
    for i := 0 to |nodes|
      invariant peers == PeersExcept(publicKey, nodes[..i])
    {
      assert nodes[..i + 1][..i] == nodes[..i];
      var n := nodes[i];
      if n.publicKey == publicKey {
        continue;
      }
      var endpoint := "";
      if n.lastEndpoint != None {
        endpoint := n.lastEndpoint.value;
      }
      peers := peers + [PeerInfo(n.publicKey, n.meshIP, endpoint, n.advertisedSubnets)];
    }
    assert nodes[..|nodes|] == nodes;
  }

  /** Nodes with pairwise distinct keys and pairwise distinct mesh IPs. */
  ghost predicate DistinctNodes(nodes: seq<Node>) {
    forall i, j :: 0 <= i < j < |nodes| ==>
        nodes[i].publicKey != nodes[j].publicKey && nodes[i].meshIP != nodes[j].meshIP
  }

  ghost predicate DistinctIPs(ps: seq<PeerInfo>) {
    forall i, j :: 0 <= i < j < |ps| ==> ps[i].meshIP != ps[j].meshIP
  }

  lemma {:induction false} PeersMembers(key: string, nodes: seq<Node>)
    ensures forall p :: p in PeersExcept(key, nodes) <==> exists n :: n in nodes && n.publicKey != key && p == PeerOf(n)
  {
    if nodes != [] {
      var front, last := nodes[..|nodes| - 1], nodes[|nodes| - 1];
      PeersMembers(key, front);
      assert nodes == front + [last];
      forall p
        ensures p in PeersExcept(key, nodes) <==> exists n :: n in nodes && n.publicKey != key && p == PeerOf(n)
      {
        if p == PeerOf(last) && last.publicKey != key {
          assert last in nodes;
        }
      }
    }
  }

  /** The list keeps the order of the nodes. */
  lemma {:induction false} PeersInOrder(key: string, front: seq<Node>, back: seq<Node>)
    ensures PeersExcept(key, front + back) == PeersExcept(key, front) + PeersExcept(key, back)
  {
    var all := front + back;
    if back == [] {
      assert all == front;
    } else {
      var n := |back| - 1;
      PeersInOrder(key, front, back[..n]);
      assert all[..|all| - 1] == front + back[..n] && all[|all| - 1] == back[n];
    }
  }

  lemma {:induction false} PeersDistinct(key: string, nodes: seq<Node>)
    requires DistinctNodes(nodes)
    ensures DistinctKeys(PeersExcept(key, nodes)) && DistinctIPs(PeersExcept(key, nodes))
  {
    if nodes != [] {
      var front, last := nodes[..|nodes| - 1], nodes[|nodes| - 1];
      PeersDistinct(key, front);
      PeersMembers(key, front);
      var ps := PeersExcept(key, front);
      forall i | 0 <= i < |ps|
        ensures ps[i].publicKey != last.publicKey && ps[i].meshIP != last.meshIP
      {
        assert ps[i] in ps;
        var n :| n in front && n.publicKey != key && ps[i] == PeerOf(n);
        var k :| 0 <= k < |front| && front[k] == n;
        assert nodes[k] == n;
      }
    }
  }

  /**
   * The list shows exactly the other nodes, each with its key, mesh IP and subnets, and with its endpoint or none;
   * each once, never the receiver, never a mesh IP twice.
   */
  lemma {:induction false} PeersExceptExact(key: string, nodes: seq<Node>)
    requires DistinctNodes(nodes)
    ensures forall p :: p in PeersExcept(key, nodes) <==> exists n :: n in nodes && n.publicKey != key && p == PeerOf(n)
    ensures forall p :: p in PeersExcept(key, nodes) <==>
              exists n :: n in nodes && n.publicKey != key
                && p.publicKey == n.publicKey && p.meshIP == n.meshIP && p.advertisedSubnets == n.advertisedSubnets
                && p.endpoint == match n.lastEndpoint case Some(endpoint) => endpoint case None => ""
    ensures DistinctKeys(PeersExcept(key, nodes))
    ensures DistinctIPs(PeersExcept(key, nodes))
  {
    PeersMembers(key, nodes);
    PeersDistinct(key, nodes);
    forall p: PeerInfo, n | n in nodes && n.publicKey != key
                && p.publicKey == n.publicKey && p.meshIP == n.meshIP && p.advertisedSubnets == n.advertisedSubnets
                && p.endpoint == match n.lastEndpoint case Some(endpoint) => endpoint case None => ""
      ensures p == PeerOf(n)
    {
    }
  }
}

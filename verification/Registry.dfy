/** The nodes table: what its statements do to it, and what every sequence of them keeps. */
module Registry {
  import opened Wrappers
  import opened IpBytes
  import opened Mesh

  /** A row, without its name, identifier and timestamps. Mesh IPs are integers. */
  datatype Row = Row(publicKey: string, meshIP: int, lastEndpoint: Option<string>, advertisedSubnets: seq<string>)

  /** The table, by its unique name column. */
  type Table = map<string, Row>

  function MeshIPs(t: Table): set<int> {
    set n | n in t :: t[n].meshIP
  }

  predicate KeyUsedByOther(t: Table, name: string, publicKey: string) {
    exists n :: n in t && n != name && t[n].publicKey == publicKey
  }

  /**
   * INSERT ... ON CONFLICT (name) DO UPDATE: an existing name keeps its mesh IP; a violated UNIQUE
   * constraint is an error.
   */
  function Upsert(t: Table, name: string, publicKey: string, candidate: int, endpoint: string, subnets: seq<string>):
    (r: Option<Table>)
  {
    if KeyUsedByOther(t, name, publicKey) then None
    else if name in t then Some(t[name := Row(publicKey, t[name].meshIP, Some(endpoint), subnets)])
    else if candidate in MeshIPs(t) then None
    else Some(t[name := Row(publicKey, candidate, Some(endpoint), subnets)])
  }

  // ----- safety -----

  ghost predicate DistinctRows(t: Table) {
    forall m, n :: m in t && n in t && m != n ==> t[m].publicKey != t[n].publicKey && t[m].meshIP != t[n].meshIP
  }

  ghost predicate Sound(c: Cidr, t: Table)
    requires c.ones <= 32
  {
    DistinctRows(t) && forall n :: n in t ==> IsHost(c, t[n].meshIP)
  }

  /** Later tables keep every name with its mesh IP. */
  ghost predicate Extends(t: Table, u: Table) {
    forall n :: n in t ==> n in u && u[n].meshIP == t[n].meshIP
  }

  /** An upsert with any host address as candidate, however stale, keeps the table sound and extends it. */
  lemma UpsertSound(c: Cidr, t: Table, name: string, publicKey: string, candidate: int, endpoint: string,
                    subnets: seq<string>)
    requires c.ones <= 32 && Sound(c, t) && IsHost(c, candidate)
    ensures var r := Upsert(t, name, publicKey, candidate, endpoint, subnets);
            r.Some? ==> Sound(c, r.value) && Extends(t, r.value) && r.value.Keys == t.Keys + {name}
  {
    if !KeyUsedByOther(t, name, publicKey) && name !in t && candidate !in MeshIPs(t) {
      forall n | n in t
        ensures t[n].meshIP != candidate && t[n].publicKey != publicKey
      {
      }
    }
  }

  // ----- conservation -----

  /** The integers strictly between `lo` and `hi`. */
  function Hosts(lo: int, hi: int): set<int>
    decreases hi - lo
  {
    if lo + 1 < hi then Hosts(lo, hi - 1) + {hi - 1} else {}
  }

  lemma {:induction false} HostCount(lo: int, hi: int)
    ensures |Hosts(lo, hi)| == if lo + 1 < hi then hi - lo - 1 else 0
    ensures forall v :: v in Hosts(lo, hi) <==> lo < v < hi
    decreases hi - lo
  {
    if lo + 1 < hi {
      HostCount(lo, hi - 1);
    }
  }

  /** How many nodes the CIDR has room for: every address but the first and the last. */
  function Capacity(c: Cidr): nat
    requires c.ones <= 32
  {
    if Size(c) >= 2 then Size(c) - 2 else 0
  }

  ghost function FreeHosts(c: Cidr, t: Table): set<int>
    requires c.ones <= 32
  {
    Hosts(Network(c), Broadcast(c)) - MeshIPs(t)
  }

  lemma {:induction false} DistinctCount(t: Table)
    requires DistinctRows(t)
    ensures |MeshIPs(t)| == |t|
    decreases |t|
  {
    if t == map[] {
      assert MeshIPs(t) == {};
    } else {
      var n :| n in t;
      var rest := t - {n};
      assert |rest| == |t| - 1 by {
        assert rest.Keys == t.Keys - {n};
      }
      DistinctCount(rest);
      forall ip
        ensures ip in MeshIPs(t) <==> ip in MeshIPs(rest) + {t[n].meshIP}
      {
        if ip in MeshIPs(t) && ip != t[n].meshIP {
          var m :| m in t && t[m].meshIP == ip;
          assert m in rest && rest[m].meshIP == ip;
        }
      }
      assert MeshIPs(t) == MeshIPs(rest) + {t[n].meshIP};
      assert t[n].meshIP !in MeshIPs(rest);
    }
  }

  /** Nodes and free addresses add up to the capacity. */
  lemma Conservation(c: Cidr, t: Table)
    requires c.ones <= 32 && Sound(c, t)
    ensures |t| + |FreeHosts(c, t)| == Capacity(c)
  {
    var hosts := Hosts(Network(c), Broadcast(c));
    HostCount(Network(c), Broadcast(c));
    DistinctCount(t);
    assert MeshIPs(t) <= hosts;
    assert |hosts - MeshIPs(t)| == |hosts| - |MeshIPs(t)|;
  }

  /** Some host address is free exactly while the table is below capacity, and then there is a least one. */
  lemma FreeExactlyBelowCapacity(c: Cidr, t: Table)
    requires c.ones <= 32 && Sound(c, t)
    ensures |t| < Capacity(c) <==> exists v :: LeastFree(c, MeshIPs(t), v)
    ensures |t| == Capacity(c) <==> Exhausted(c, MeshIPs(t))
  {
    Conservation(c, t);
    HostCount(Network(c), Broadcast(c));
    var free := FreeHosts(c, t);
    if |free| == 0 {
      forall v | IsHost(c, v)
        ensures v in MeshIPs(t)
      {
        assert v !in free;
      }
    } else {
      var v := Member(free);
      var w := LeastFrom(c, MeshIPs(t), Network(c) + 1, v);
      assert LeastFree(c, MeshIPs(t), w);
      assert IsHost(c, w) && w !in MeshIPs(t);
    }
    forall v | LeastFree(c, MeshIPs(t), v)
      ensures v in free
    {
    }
  }

  lemma RoomLeft(c: Cidr, t: Table)
    requires c.ones <= 32 && Sound(c, t) && !Exhausted(c, MeshIPs(t))
    ensures |t| < Capacity(c)
  {
    FreeExactlyBelowCapacity(c, t);
    Conservation(c, t);
  }

  lemma Member<T>(s: set<T>) returns (v: T)
    requires |s| > 0
    ensures v in s
  {
    v :| v in s;
  }

  lemma {:induction false} LeastFrom(c: Cidr, taken: set<int>, from: int, v: int) returns (w: int)
    requires c.ones <= 32 && IsHost(c, v) && v !in taken && Network(c) < from <= v
    requires forall u :: IsHost(c, u) && u < from ==> u in taken
    ensures LeastFree(c, taken, w)
    decreases v - from
  {
    if from !in taken {
      w := from;
    } else {
      w := LeastFrom(c, taken, from + 1, v);
    }
  }

  // ----- one registration, not interleaved with others -----

  /** Allocate, then upsert: `None` when either fails. The allocation runs for known names too. */
  ghost predicate Registers(c: Cidr, t: Table, name: string, publicKey: string, endpoint: string,
                            subnets: seq<string>, u: Table)
    requires c.ones <= 32
  {
    exists v :: LeastFree(c, MeshIPs(t), v) && Upsert(t, name, publicKey, v, endpoint, subnets) == Some(u)
  }

  /**
   * A registration alone succeeds exactly while the table is below capacity and no other name holds the
   * key. The first condition binds a node that already has its address as well: on a full pool it cannot reconnect.
   */
  lemma RegistrationSucceeds(c: Cidr, t: Table, name: string, publicKey: string, endpoint: string, subnets: seq<string>)
    requires c.ones <= 32 && Sound(c, t)
    ensures (exists u :: Registers(c, t, name, publicKey, endpoint, subnets, u))
       <==> |t| < Capacity(c) && !KeyUsedByOther(t, name, publicKey)
  {
    FreeExactlyBelowCapacity(c, t);
    if |t| < Capacity(c) && !KeyUsedByOther(t, name, publicKey) {
      var v :| LeastFree(c, MeshIPs(t), v);
      var r := Upsert(t, name, publicKey, v, endpoint, subnets);
      assert r.Some?;
      assert Registers(c, t, name, publicKey, endpoint, subnets, r.value);
    }
  }

  const SMALL := Cidr([10, 0, 0, 0], 30)

  /** A /30 with its two nodes: neither can register again, although each has its address. */
  lemma {:induction false} FullPoolLocksOut(key: string, endpoint: string)
    requires key != "kb"
    ensures var t := map["a" := Row("ka", Network(SMALL) + 1, None, []),
                         "b" := Row("kb", Network(SMALL) + 2, None, [])];
            Sound(SMALL, t) && "a" in t && !exists u :: Registers(SMALL, t, "a", key, endpoint, [], u)
  {
    var t := map["a" := Row("ka", Network(SMALL) + 1, None, []), "b" := Row("kb", Network(SMALL) + 2, None, [])];
    assert Size(SMALL) == 4;
    assert t.Keys == {"a", "b"};
    RegistrationSucceeds(SMALL, t, "a", key, endpoint, []);
  }

  lemma {:induction false} UpsertExact(t: Table, name: string, publicKey: string, candidate: int, endpoint: string,
                                       subnets: seq<string>, u: Table)
    requires Upsert(t, name, publicKey, candidate, endpoint, subnets) == Some(u)
    ensures u == t[name := Row(publicKey, if name in t then t[name].meshIP else candidate, Some(endpoint), subnets)]
  {
  }

  /** What a successful registration alone changes: one row, with its old address or the least free one. */
  lemma {:induction false} RegistrationExact(c: Cidr, t: Table, name: string, publicKey: string, endpoint: string,
                                             subnets: seq<string>, u: Table)
    requires c.ones <= 32 && Sound(c, t) && Registers(c, t, name, publicKey, endpoint, subnets, u)
    ensures Sound(c, u) && Extends(t, u) && u.Keys == t.Keys + {name}
    ensures u[name].publicKey == publicKey && u[name].lastEndpoint == Some(endpoint)
    ensures u[name].advertisedSubnets == subnets
    ensures forall n :: n in t && n != name ==> u[n] == t[n]
    ensures name !in t ==> LeastFree(c, MeshIPs(t), u[name].meshIP) && |FreeHosts(c, u)| == |FreeHosts(c, t)| - 1
  {
    var v :| LeastFree(c, MeshIPs(t), v) && Upsert(t, name, publicKey, v, endpoint, subnets) == Some(u);
    UpsertExact(t, name, publicKey, v, endpoint, subnets, u);
    UpsertSound(c, t, name, publicKey, v, endpoint, subnets);
    if name !in t {
      OneFewer(c, t, u, name);
    }
  }

  lemma {:induction false} OneFewer(c: Cidr, t: Table, u: Table, name: string)
    requires c.ones <= 32 && Sound(c, t) && Sound(c, u) && name !in t && u.Keys == t.Keys + {name}
    ensures |FreeHosts(c, u)| == |FreeHosts(c, t)| - 1
  {
    Conservation(c, t);
    Conservation(c, u);
    assert |u.Keys| == |t.Keys| + 1;
  }

  // ----- the table as an object -----

  /** UPDATE nodes SET last_seen = now() WHERE public_key = ... */
  function Touched(rows: Table, lastSeen: map<string, int>, publicKey: string, now: int): map<string, int>
    requires lastSeen.Keys == rows.Keys
  {
    map n | n in rows :: if rows[n].publicKey == publicKey then now else lastSeen[n]
  }

  /** `nodes` lists exactly the rows of `t`, in some order. */
  ghost predicate Lists(nodes: seq<Node>, t: Table) {
    && (forall i, j :: 0 <= i < j < |nodes| ==> nodes[i].name != nodes[j].name)
    && (forall n :: n in nodes ==> n.name in t && IsRow(n, t[n.name]))
    && (forall name :: name in t ==> exists n :: n in nodes && n.name == name)
  }

  ghost predicate IsRow(n: Node, r: Row) {
    && r.meshIP >= 0
    && n.publicKey == r.publicKey && n.meshIP == Address(r.meshIP)
    && n.lastEndpoint == r.lastEndpoint && n.advertisedSubnets == r.advertisedSubnets
  }

  /** ... and all of `t` but these names. */
  ghost predicate ListsBut(nodes: seq<Node>, t: Table, rest: set<string>) {
    && (forall i, j :: 0 <= i < j < |nodes| ==> nodes[i].name != nodes[j].name)
    && (forall n :: n in nodes ==> n.name in t && n.name !in rest && IsRow(n, t[n.name]))
    && (forall name :: name in t && name !in rest ==> exists n :: n in nodes && n.name == name)
  }

  lemma {:induction false} ListsOneMore(nodes: seq<Node>, t: Table, rest: set<string>, node: Node)
    requires ListsBut(nodes, t, rest) && node.name in rest && node.name in t && IsRow(node, t[node.name])
    ensures ListsBut(nodes + [node], t, rest - {node.name})
  {
    var more := nodes + [node];
    assert forall n :: n in more <==> n in nodes || n == node;
    forall i | 0 <= i < |nodes|
      ensures nodes[i].name != node.name
    {
      assert nodes[i] in nodes;
    }
    forall name | name in t && name !in rest - {node.name}
      ensures exists n :: n in more && n.name == name
    {
      if name == node.name {
        assert node in more;
      } else {
        var n :| n in nodes && n.name == name;
        assert n in more;
      }
    }
  }

  lemma TakenIsMeshIPs(t: Table, ips: seq<string>)
    requires forall n :: n in t ==> 0 <= t[n].meshIP < 0x1_0000_0000
    requires forall a :: a in ips <==> exists n :: n in t && a == Address(t[n].meshIP)
    ensures Taken(set a | a in ips) == MeshIPs(t)
  {
    forall v: int | 0 <= v < 0x1_0000_0000 && Address(v) in ips
      ensures v in MeshIPs(t)
    {
      var n :| n in t && Address(v) == Address(t[n].meshIP);
      AddressInjective(v, t[n].meshIP);
    }
  }

  /** DB, as far as nodes go: the rows, and each row's last_seen. */
  class NodeDB {
    var rows: Table
    var lastSeen: map<string, int>

    constructor ()
      ensures rows == map[] && lastSeen == map[] && Valid()
    {
      rows, lastSeen := map[], map[];
    }

    ghost predicate Valid()
      reads this
    {
      lastSeen.Keys == rows.Keys && forall n :: n in rows ==> 0 <= rows[n].meshIP < 0x1_0000_0000
    }

    method UsedMeshIPs() returns (ips: seq<string>)
      requires Valid()
      ensures forall a :: a in ips <==> exists n :: n in rows && a == Address(rows[n].meshIP)
      ensures Taken(set a | a in ips) == MeshIPs(rows)
    {
      ips := [];
      var rest := rows.Keys;
      while rest != {}
        invariant rest <= rows.Keys
        invariant forall a :: a in ips <==> exists n :: n in rows && n !in rest && a == Address(rows[n].meshIP)
        decreases rest
      {
        var n :| n in rest;
        var a := Address(rows[n].meshIP);
        ghost var before := ips;
        ips, rest := ips + [a], rest - {n};
        assert forall b :: b in ips <==> b in before || b == a;
      }
      TakenIsMeshIPs(rows, ips);
    }

    /** The address comes as text, as the statement's parameter does; `ip` is the integer it denotes. */
    method UpsertNode(name: string, publicKey: string, meshIP: string, ghost ip: int, endpoint: string,
                      subnets: seq<string>, now: int)
      returns (r: Result<string>)
      requires Valid() && 0 <= ip < 0x1_0000_0000 && meshIP == Address(ip)
      modifies this
      ensures Valid()
      ensures var after := Upsert(old(rows), name, publicKey, ip, endpoint, subnets);
              && (r.Ok? <==> after.Some?)
              && (r.Ok? ==> rows == after.value && lastSeen == old(lastSeen)[name := now])
              && (r.Ok? ==> r.value == Address(rows[name].meshIP))
              && (r.Err? ==> unchanged(this))
    {
      var inet: int :| 0 <= inet < 0x1_0000_0000 && Address(inet) == meshIP;
      AddressInjective(inet, ip);
      var after := Upsert(rows, name, publicKey, inet, endpoint, subnets);
      match after {
        case None => r := Err("upsert node");
        case Some(t) =>
          rows, lastSeen := t, lastSeen[name := now];
          r := Ok(Address(rows[name].meshIP));
      }
    }

    /** Touches at most the row with this key; an unknown key is no error. */
    method TouchLastSeen(publicKey: string, now: int)
      requires Valid()
      modifies this`lastSeen
      ensures Valid()
      ensures lastSeen == Touched(rows, old(lastSeen), publicKey, now)
    {
      lastSeen := map n | n in rows :: if rows[n].publicKey == publicKey then now else lastSeen[n];
    }

    method ScanRow(name: string) returns (n: Node)
      requires Valid() && name in rows
      ensures n.name == name && IsRow(n, rows[name])
    {
      var r := rows[name];
      n := Node(name, r.publicKey, Address(r.meshIP), r.lastEndpoint, r.advertisedSubnets);
    }

    method ListNodes() returns (nodes: seq<Node>)
      requires Valid()
      ensures Lists(nodes, rows)
    {
      nodes := [];
      var rest := rows.Keys;
      while rest != {}
        invariant rest <= rows.Keys && ListsBut(nodes, rows, rest)
        decreases rest
      {
        var name :| name in rest;
        var node := ScanRow(name);
        ListsOneMore(nodes, rows, rest, node);
        nodes, rest := nodes + [node], rest - {name};
      }
    }
  }
}

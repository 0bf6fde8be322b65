/**
 * The server's handlers as methods. Each runs its steps without others in between; what it does is then a
 * path of the protocol's step relation, which is what the protocol's theorems range over.
 */
module WsServer {
  import opened Wrappers
  import opened WgSpec
  import opened Mesh
  import opened Registry
  import opened Protocol
  import opened ProtocolPaths
  import opened Text

  /** What StoreNode reports of table `t`: a candidate if there is one, and the new table if the upsert went through. */
  ghost predicate Outcome(cidr: Cidr, t: Table, remoteHost: string, p: Payload, candidate: Option<int>,
                          stored: Option<Table>)
    requires cidr.ones <= 32
  {
    && (candidate.None? <==> Exhausted(cidr, MeshIPs(t)))
    && (candidate.Some? ==> LeastFree(cidr, MeshIPs(t), candidate.value))
    && stored == if candidate.None? then None
                 else Upsert(t, p.name, p.publicKey, candidate.value, EndpointOf(p, remoteHost), p.subnets)
  }

  lemma NotStored(cidr: Cidr, s: State, c: nat, p: Payload, candidate: Option<int>)
    requires cidr.ones <= 32 && In(s, c) && s.handlers[c].phase == Reading
    requires Outcome(cidr, s.table, s.handlers[c].remoteHost, p, candidate, None)
    ensures Leads(cidr, s, Keyed(s, c, p.publicKey))
  {
    if candidate.None? {
      ExhaustedPath(cidr, s, c, p);
    } else {
      StorePath(cidr, s, c, p, candidate.value, None);
    }
  }

  lemma RowStored(cidr: Cidr, s: State, c: nat, p: Payload, candidate: Option<int>, t: Table)
    requires cidr.ones <= 32 && In(s, c) && s.handlers[c].phase == Reading
    requires Outcome(cidr, s.table, s.handlers[c].remoteHost, p, candidate, Some(t))
    ensures Leads(cidr, s, StoredAs(s, c, p, t))
  {
    StorePath(cidr, s, c, p, candidate.value, Some(t));
  }

  lemma StoredThenReading(s: State, c: nat, p: Payload, t: Table)
    requires In(s, c) && s.handlers[c].phase == Reading
    ensures At(StoredAs(s, c, p, t), c, Reading) == Keyed(s, c, p.publicKey).(table := t)
    ensures In(StoredAs(s, c, p, t), c) && StoredAs(s, c, p, t).handlers[c].phase == Stored(p)
  {
  }

  /** The broadcast goes to exactly the connections whose writes do not fail. */
  ghost predicate ReachedExactly(reached: seq<string>, conns: map<string, nat>, broken: set<nat>) {
    Distinct(reached) && forall k :: k in reached <==> k in conns && conns[k] !in broken
  }

  /**
   * With no other handler at work, a registration stores its row exactly if there is room and the key is not
   * another's.
   */
  predicate Admitted(cidr: Cidr, t: Table, p: Payload)
    requires cidr.ones <= 32
  {
    |t| < Capacity(cidr) && !KeyUsedByOther(t, p.name, p.publicKey)
  }

  lemma OutcomeExact(cidr: Cidr, t: Table, remoteHost: string, p: Payload, candidate: Option<int>,
                     stored: Option<Table>)
    requires cidr.ones <= 32 && Sound(cidr, t) && Outcome(cidr, t, remoteHost, p, candidate, stored)
    ensures stored.Some? <==> Admitted(cidr, t, p)
    ensures stored.Some? ==> Registers(cidr, t, p.name, p.publicKey, EndpointOf(p, remoteHost), p.subnets, stored.value)
  {
    FreeExactlyBelowCapacity(cidr, t);
    Conservation(cidr, t);
    if candidate.Some? {
      RoomLeft(cidr, t);
    }
  }

  /** The reply and the broadcast of a snapshot of `t`, if the reply can be written; otherwise nothing is sent. */
  ghost predicate Answers(before: map<nat, Agent>, after: map<nat, Agent>, conns: map<string, nat>, c: nat,
                          key: string, t: Table, broken: set<nat>, ok: bool, nodes: seq<Node>, reached: seq<string>)
  {
    && (ok <==> c !in broken)
    && (!ok ==> after == before)
    && (ok ==> Lists(nodes, t) && ReachedExactly(reached, conns, broken)
               && after == SendAll(Send(before, c, PeersExcept(key, nodes)), conns, reached, nodes))
  }

  /** What a registration leaves in its row: the override where one is sent, else the address it came from. */
  lemma {:induction false} RowRegistered(cidr: Cidr, t: Table, remoteHost: string, p: Payload, u: Table)
    requires cidr.ones <= 32 && Sound(cidr, t)
    requires Registers(cidr, t, p.name, p.publicKey, EndpointOf(p, remoteHost), p.subnets, u)
    ensures p.name in u && u[p.name].publicKey == p.publicKey && u[p.name].advertisedSubnets == p.subnets
    ensures p.endpoint != "" ==> u[p.name].lastEndpoint == Some(p.endpoint)
    ensures p.endpoint == "" ==> u[p.name].lastEndpoint == Some(remoteHost + ":" + Decimal(p.port))
    ensures p.name in t ==> u[p.name].meshIP == t[p.name].meshIP
    ensures forall n :: n in t && n != p.name ==> n in u && u[n] == t[n]
  {
    RegistrationExact(cidr, t, p.name, p.publicKey, EndpointOf(p, remoteHost), p.subnets, u);
  }

  class Server {
    const db: NodeDB
    const cidr: Cidr
    var conns: map<string, nat>
    var handlers: map<nat, Handler>
    var agents: map<nat, Agent>

    constructor (db: NodeDB, cidr: Cidr)
      requires Parsed(cidr) && db.Valid() && Sound(cidr, db.rows)
      ensures Valid() && Initial(cidr, Now()) && this.db == db && this.cidr == cidr
    {
      this.db, this.cidr := db, cidr;
      conns, handlers, agents := map[], map[], map[];
    }

    ghost predicate Valid()
      reads this, db
    {
      && Parsed(cidr) && db.Valid() && Sound(cidr, db.rows)
      && agents.Keys == handlers.Keys
    }

    ghost function Now(): State
      reads this, db
    {
      State(db.rows, handlers, conns, agents)
    }

    /** conn.WriteJSON: the list is on its way, unless writes to this connection fail. */
    method WriteJSON(c: nat, peers: seq<PeerInfo>, broken: set<nat>) returns (ok: bool)
      requires c in agents
      modifies this`agents
      ensures ok <==> c !in broken
      ensures agents == if ok then Send(old(agents), c, peers) else old(agents)
    {
      ok := c !in broken;
      if ok {
        agents := agents[c := agents[c].(inbox := agents[c].inbox + [peers])];
      }
    }

    /** broadcastPeerLists: one personal list per connection, in map order; a failed write is skipped. */
    method BroadcastPeerLists(nodes: seq<Node>, broken: set<nat>) returns (ghost reached: seq<string>)
      requires forall k :: k in conns ==> conns[k] in agents
      modifies this`agents
      ensures ReachedExactly(reached, conns, broken)
      ensures agents == SendAll(old(agents), conns, reached, nodes)
      ensures agents.Keys == old(agents).Keys
    {
      reached := [];
      var rest := conns.Keys;
      while rest != {}
        invariant rest <= conns.Keys
        invariant Distinct(reached) && forall k :: k in reached <==> k in conns && k !in rest && conns[k] !in broken
        invariant agents == SendAll(old(agents), conns, reached, nodes)
        invariant agents.Keys == old(agents).Keys
        decreases rest
      {
        var publicKey :| publicKey in rest;
        var peers := PeerListFor(publicKey, nodes);
        var ok := WriteJSON(conns[publicKey], peers, broken);
        if ok {
          assert (reached + [publicKey])[..|reached|] == reached;
          reached := reached + [publicKey];
        }
        rest := rest - {publicKey};
      }
    }

    /** UsedMeshIPs and AllocateIP: the text of the least free address, or an error when there is none. */
    method Candidate() returns (candidateIP: Result<string>, ghost candidate: Option<int>)
      requires Valid()
      ensures candidateIP.Err? <==> candidate.None?
      ensures candidate.None? <==> Exhausted(cidr, MeshIPs(db.rows))
      ensures candidate.Some? ==> LeastFree(cidr, MeshIPs(db.rows), candidate.value)
      ensures candidate.Some? ==> 0 <= candidate.value < 0x1_0000_0000 && candidateIP.value == Address(candidate.value)
    {
      var used := db.UsedMeshIPs();
      candidateIP := AllocateIP(Ok(cidr), used);
      if candidateIP.Err? {
        return candidateIP, None;
      }
      ghost var v: nat :| LeastFree(cidr, MeshIPs(db.rows), v) && candidateIP.value == Address(v);
      ParsedNetwork(cidr);
      assert IsHost(cidr, v);
      return candidateIP, Some(v);
    }

    /** The part of handleRegister up to the stored row. */
    method StoreNode(c: nat, p: Payload, now: int) returns (ok: bool, ghost candidate: Option<int>)
      requires Valid() && c in handlers
      modifies db
      ensures db.Valid() && Sound(cidr, db.rows)
      ensures Outcome(cidr, old(db.rows), handlers[c].remoteHost, p, candidate, if ok then Some(db.rows) else None)
      ensures ok <==> Admitted(cidr, old(db.rows), p)
      ensures ok ==> Registers(cidr, old(db.rows), p.name, p.publicKey, EndpointOf(p, handlers[c].remoteHost),
                               p.subnets, db.rows)
      ensures ok ==> p.name in db.rows && db.rows[p.name].publicKey == p.publicKey
                     && db.rows[p.name].advertisedSubnets == p.subnets
      ensures ok && p.endpoint != "" ==> db.rows[p.name].lastEndpoint == Some(p.endpoint)
      ensures ok && p.endpoint == "" ==>
                db.rows[p.name].lastEndpoint == Some(handlers[c].remoteHost + ":" + Decimal(p.port))
      ensures !ok ==> db.rows == old(db.rows)
    {
      ghost var t := db.rows;
      var candidateIP;
      candidateIP, candidate := Candidate();
      if candidateIP.Err? {
        OutcomeExact(cidr, t, handlers[c].remoteHost, p, None, None);
        return false, None;
      }
      var endpoint;
      if p.endpoint != "" {
        endpoint := p.endpoint;
      } else {
        endpoint := handlers[c].remoteHost + ":" + Decimal(p.port);
      }
      assert IsHost(cidr, candidate.value);
      UpsertSound(cidr, db.rows, p.name, p.publicKey, candidate.value, endpoint, p.subnets);
      var meshIP := db.UpsertNode(p.name, p.publicKey, candidateIP.value, candidate.value, endpoint, p.subnets, now);
      ok := meshIP.Ok?;
      OutcomeExact(cidr, t, handlers[c].remoteHost, p, candidate, if ok then Some(db.rows) else None);
      if ok {
        RowRegistered(cidr, t, handlers[c].remoteHost, p, db.rows);
      }
    }

    /** HandleWS takes over the key, then the row is stored. */
    method KeyAndStore(c: nat, p: Payload, now: int) returns (stores: bool, ghost candidate: Option<int>)
      requires Valid() && c in handlers
      modifies this`handlers, db
      ensures Valid() && Now() == Keyed(old(Now()), c, p.publicKey).(table := db.rows)
      ensures Outcome(cidr, old(db.rows), old(handlers)[c].remoteHost, p, candidate,
                      if stores then Some(db.rows) else None)
      ensures stores <==> Admitted(cidr, old(db.rows), p)
      ensures stores ==>
                && Registers(cidr, old(db.rows), p.name, p.publicKey, EndpointOf(p, old(handlers)[c].remoteHost),
                             p.subnets, db.rows)
                && p.name in db.rows && db.rows[p.name].publicKey == p.publicKey
                && db.rows[p.name].advertisedSubnets == p.subnets
                && db.rows[p.name].lastEndpoint
                == Some(if p.endpoint != "" then p.endpoint
                        else old(handlers)[c].remoteHost + ":" + Decimal(p.port))
      ensures !stores ==> db.rows == old(db.rows)
    {
      handlers := handlers[c := handlers[c].(publicKey := p.publicKey)];
      stores, candidate := StoreNode(c, p, now);
    }

    /**
     * HandleWS on one register message, with handleRegister run to its end: what it stores, whom it enters into
     * `conns`, and what it sends to whom. `broken` are the connections whose writes fail.
     */
    method HandleRegister(c: nat, p: Payload, now: int, broken: set<nat>)
      returns (ok: bool, ghost nodes: seq<Node>, ghost reached: seq<string>)
      requires Valid() && c in handlers && handlers[c].phase == Reading
      requires forall k :: k in conns ==> conns[k] in agents
      modifies this, db
      ensures Valid() && forall k :: k in conns ==> conns[k] in agents
      ensures Leads(cidr, old(Now()), Now())
      ensures c in handlers && handlers[c].phase == Reading && handlers[c].publicKey == p.publicKey
      ensures if Admitted(cidr, old(db.rows), p)
              then && Registers(cidr, old(db.rows), p.name, p.publicKey, EndpointOf(p, old(handlers)[c].remoteHost),
                                p.subnets, db.rows)
                   && conns == old(conns)[p.publicKey := c]
                   && Answers(old(agents), agents, conns, c, p.publicKey, db.rows, broken, ok, nodes, reached)
              else !ok && db.rows == old(db.rows) && conns == old(conns) && agents == old(agents)
      ensures Admitted(cidr, old(db.rows), p) ==>
                && p.name in db.rows && db.rows[p.name].publicKey == p.publicKey
                && db.rows[p.name].advertisedSubnets == p.subnets
                && db.rows[p.name].lastEndpoint
                == Some(if p.endpoint != "" then p.endpoint
                        else old(handlers)[c].remoteHost + ":" + Decimal(p.port))
    {
      ghost var s := Now();
      ghost var candidate;
      var stores;
      stores, candidate := KeyAndStore(c, p, now);
      ok, nodes, reached := false, [], [];
      if stores {
        ok, nodes, reached := Enter(c, p, s, candidate, broken);
      } else {
        assert Now() == Keyed(s, c, p.publicKey);
        NotStored(cidr, s, c, p, candidate);
      }
    }

    /** The rest of a registration whose row is stored; `s` is the state before the registration. */
    method Enter(c: nat, p: Payload, ghost s: State, ghost candidate: Option<int>, broken: set<nat>)
      returns (ok: bool, ghost nodes: seq<Node>, ghost reached: seq<string>)
      requires Valid() && In(s, c) && s.handlers[c].phase == Reading
      requires forall k :: k in conns ==> conns[k] in agents
      requires Outcome(cidr, s.table, s.handlers[c].remoteHost, p, candidate, Some(db.rows))
      requires Now() == Keyed(s, c, p.publicKey).(table := db.rows)
      modifies this
      ensures Valid() && forall k :: k in conns ==> conns[k] in agents
      ensures Leads(cidr, s, Now())
      ensures conns == old(conns)[p.publicKey := c]
      ensures handlers == old(handlers)[c := old(handlers)[c].(inserted := true)]
      ensures Answers(old(agents), agents, conns, c, p.publicKey, db.rows, broken, ok, nodes, reached)
    {
      RowStored(cidr, s, c, p, candidate, db.rows);
      StoredThenReading(s, c, p, db.rows);
      ok, nodes, reached := InsertAndReply(c, p, StoredAs(s, c, p, db.rows), broken);
      LeadsOn(cidr, s, StoredAs(s, c, p, db.rows), Now());
    }

    /** The insertion into `conns` and what follows; `stored` is the protocol state just before. */
    method InsertAndReply(c: nat, p: Payload, ghost stored: State, broken: set<nat>)
      returns (ok: bool, ghost nodes: seq<Node>, ghost reached: seq<string>)
      requires Valid() && c in handlers && handlers[c].phase == Reading
      requires forall k :: k in conns ==> conns[k] in agents
      requires In(stored, c) && stored.handlers[c].phase == Stored(p) && Now() == At(stored, c, Reading)
      modifies this
      ensures Valid() && forall k :: k in conns ==> conns[k] in agents
      ensures Leads(cidr, stored, Now())
      ensures conns == old(conns)[p.publicKey := c]
      ensures handlers == old(handlers)[c := old(handlers)[c].(inserted := true)]
      ensures Answers(old(agents), agents, conns, c, p.publicKey, db.rows, broken, ok, nodes, reached)
    {
      conns := conns[p.publicKey := c];
      handlers := handlers[c := handlers[c].(inserted := true)];
      assert Now() == Inserted(stored, c, p);
      ok, nodes, reached := ReplyAndBroadcast(c, p, stored, broken);
    }

    /**
     * The part of handleRegister after the insertion into `conns`; `stored` is the state just before that
     * insertion.
     */
    method ReplyAndBroadcast(c: nat, p: Payload, ghost stored: State, broken: set<nat>)
      returns (ok: bool, ghost nodes: seq<Node>, ghost reached: seq<string>)
      requires Valid() && c in handlers && handlers[c].phase == Reading
      requires forall k :: k in conns ==> conns[k] in agents
      requires In(stored, c) && stored.handlers[c].phase == Stored(p) && Now() == Inserted(stored, c, p)
      modifies this`agents
      ensures Valid() && agents.Keys == old(agents).Keys
      ensures Leads(cidr, stored, Now())
      ensures Answers(old(agents), agents, conns, c, p.publicKey, db.rows, broken, ok, nodes, reached)
    {
      var listed := db.ListNodes();
      nodes, reached := listed, [];
      var peers := PeerListFor(p.publicKey, listed);
      ok := WriteJSON(c, peers, broken);
      if !ok {
        ReplyFailsPath(cidr, stored, c, p, nodes);
        return;
      }
      reached := BroadcastPeerLists(listed, broken);
      ReplySentPath(cidr, stored, c, p, nodes, reached);
    }

    /** handleHeartbeat, up to the broadcast. */
    method TouchAndList(publicKey: string, now: int) returns (nodes: seq<Node>)
      requires db.Valid()
      modifies db`lastSeen
      ensures db.Valid() && Lists(nodes, db.rows)
      ensures forall n :: n in db.rows ==>
                db.lastSeen[n] == if db.rows[n].publicKey == publicKey then now else old(db.lastSeen)[n]
    {
      db.TouchLastSeen(publicKey, now);
      nodes := db.ListNodes();
    }

    /** HandleWS on one heartbeat: dropped before registration, else touch, snapshot, broadcast. */
    method HandleHeartbeat(c: nat, now: int, broken: set<nat>)
        returns (ghost nodes: seq<Node>, ghost reached: seq<string>)
      requires Valid() && c in handlers && handlers[c].phase == Reading
      requires forall k :: k in conns ==> conns[k] in agents
      modifies this`agents, db`lastSeen
      ensures Valid()
      ensures handlers[c].publicKey == "" ==> agents == old(agents) && db.lastSeen == old(db.lastSeen)
      ensures handlers[c].publicKey != "" ==>
                && Lists(nodes, db.rows) && ReachedExactly(reached, conns, broken)
                && Path(cidr, old(Now()), HeartbeatSteps(c, nodes, reached), Now())
                && agents == SendAll(old(agents), conns, reached, nodes)
                && forall n :: n in db.rows ==>
                     db.lastSeen[n] == if db.rows[n].publicKey == handlers[c].publicKey then now
                         else old(db.lastSeen)[n]
    {
      ghost var s := Now();
      nodes, reached := [], [];
      var publicKey := handlers[c].publicKey;
      if publicKey == "" {
        return;
      }
      var listed := TouchAndList(publicKey, now);
      nodes := listed;
      reached := BroadcastPeerLists(listed, broken);
      HeartbeatPath(cidr, s, c, nodes, reached);
    }

    /** The end of HandleWS: the entry under the last key read is deleted, whoever holds it. */
    method Disconnect(c: nat)
      requires Valid() && c in handlers && handlers[c].phase == Reading
      modifies this`conns, this`handlers
      ensures Valid() && Enabled(cidr, old(Now()), Step.Close(c)) && Now() == Apply(old(Now()), Step.Close(c))
    {
      var publicKey := handlers[c].publicKey;
      if publicKey != "" {
        conns := conns - {publicKey};
      }
      handlers := handlers[c := handlers[c].(phase := Closed)];
    }
  }
}

# rv-tx, verified

rv-tx is a control plane that hands out mesh addresses to WireGuard agents, tells every agent about the
others, and compiles stored resources into Traefik's dynamic configuration. This project is a Dafny model of
that logic with proofs. `dafny verify dfyconfig.toml` checks all of it.

External commands, SQL statements and network writes are state transitions that may fail; everything the Go and
JavaScript code decides between them is modelled as it is written, branch by branch. Code that changes things
in place is a method or a class here, proved against a function on values; the theorems are lemmas about those
functions and about runs of them.

## The parts

- **WgSpec, WgText, WgManager**: an agent reconciles its interface. `wg set ... allowed-ips` replaces one peer's
  set and takes those CIDRs from all other peers; `ip route` adds and deletes one route. `WgManager.Kernel` is
  the interface, with commands that may be refused; `WgManager.Reconcile` drives it. `WgSpec` says what a
  reconciliation achieves, alone and over runs of attempts that stop anywhere. `WgText` is the `wg show` text and
  its parser.
- **IpBytes, Mesh**: addresses as bytes with carry and byte-wise masks, related to integers and intervals; the
  allocator, refined to "least free host address"; the peer list of one node.
- **Registry, Protocol**: the nodes table; the registration, heartbeat and broadcast protocol as a step relation in
  which every database call, locked section and write is its own step. **Connections** says exactly which
  connections the server's map holds, **Broadcasts** exactly when an agent's last list is up to date, **Convergence**
  exactly when its interface is then the intended one. **ProtocolPaths** and **ProtocolRuns** hold concrete sequences of steps, among
  them runs that go wrong. **WsServer, WsClient** are the handlers and the agent's read loop as methods whose effects
  are steps of that relation.
- **NodeTable** executes registrations and heartbeats one statement at a time and links the registry's rows to the
  rows that the resource listing and the failover rules read.
- **HostRule, TraefikConfig, EmittedConfig, Failover**: the configuration compiler, what it emits text by text, the
  wildcard rule under a small regular expression semantics, and the choice between primary and backup over timed runs.
- **ResourceStore, ResourceListing, ResourceDB**: resources and targets as tables with transactions, and the
  grouped listing against a relational specification.
- **EditForm, EditRoundTrip, EditConfig**: an untouched edit in the dashboard, from listing to form to request to
  update, and what it does to the configuration.
- **Migrate**: migrations over crashes and restarts. **Users**: invite and reset tokens over runs.
- **Bags, Text, Wrappers, Clock**: permutations and sorting, decimal numerals, Option and Result, units of time.

Lemmas that carry `{:induction false}` are proved by their own bodies alone.

## What does not hold

Each of these is proved: when exactly it happens, and an input or a run at which it does.

- A peer that stays but withdraws a subnet keeps its old route: the deletion loop visits absent peers only
  (`WgSpec.RouteResidue`, `WgSpec.WithdrawnSubnetKeepsRoute`). A peer that is now listed without an endpoint keeps
  its old one (`WgSpec.EndpointResidue`, `WgSpec.UnlistedEndpointStays`).
- A `wg show` that fails without printing anything reads as "no peers", so stale peers survive a reconciliation
  that reports success (`WgSpec.BlindReconcile`, `WgManager.SilentFailureKeepsPeer`).
- A re-registration allocates before it upserts, so on a full pool a known node cannot reconnect
  (`Registry.RegistrationSucceeds`, `Registry.FullPoolLocksOut`).
- `conns` keeps an entry for a connection that is closed, exactly if the connection's last key was another one or
  the empty one and nothing touched the entry's key since (`Connections.SoundExactly`). That happens to a node
  registered with an empty key (`ProtocolRuns.EmptyKeyLeaks`), and to a connection that sends a second register
  message with another key, even one that is then rejected (`ProtocolRuns.SecondKeyLeaks`).
- `conns` lacks a running connection that was entered, exactly if since then another connection was entered under
  the key or one with that last key was closed (`Connections.CompleteExactly`): a late disconnect removes the newer
  connection's entry (`ProtocolRuns.LateDisconnect`).
- Whoever broadcasts last wins: an agent is up to date exactly if the snapshot behind the last list sent to it agrees
  with the table (`Broadcasts.UpToDateExactly`), and an older snapshot can be sent last
  (`ProtocolRuns.StaleBroadcastWins`).
- Two lost heartbeats are tolerated only if the third is not late at all (`Failover.MissedBeats`,
  `Failover.LateThirdBeat`): at two lost beats the freshness limit is reached to the nanosecond.
- An untouched edit of a tcp resource drops its domain, because the form sends a domain for http only
  (`EditConfig.NoOpConfig`, `EditConfig.TcpDomainDropped`).
- A migration file that sorts before an applied one is applied out of order (`Migrate.OrderKeptExactly`,
  `Migrate.LateFileOutOfOrder`).
- A wildcard suffix with a quantifier or an anchor of regular expressions is not escaped: exactly then the rule does
  not mean the hosts of one label under the suffix (`HostRule.WildcardExactly`), and it can match other hosts
  (`HostRule.SpecialSuffix`).
- A node that advertises the mesh /32 of a node listed before it takes that address on every other agent: exactly
  then an agent that applied a current list has not converged (`Convergence.MeshConvergence`,
  `ProtocolRuns.AddressTaken`).

Two comments in the source differ from the code, which the model follows. The one at
`internal/agent/wgmanager/wgmanager.go:200-203` says that CIDRs are separated by commas; the code below it splits on
white space. The one on `UpsertNode` says that it updates the mesh IP; the statement does not.

## Model

| member | source | states |
|---|---|---|
| `WgSpec.RemovalOrderIrrelevant` | internal/agent/wgmanager/wgmanager.go:149-160 | The removal loop has the same effect on peers, endpoints and routes in every order of Go's map iteration: that of removing the whole set at once, refused route deletions included |
| `WgSpec.RemovalOrdersAgree` | internal/agent/wgmanager/wgmanager.go:149-160 | Any two visiting orders of the same absent peers leave the same interface |
| `WgSpec.SetAllExact` | internal/agent/wgmanager/wgmanager.go:162-172 | The addition loop from any table: the keys it leaves, what every listed peer owns (what its last entry claims and no later one does), and what unlisted peers keep |
| `WgSpec.LastClaimantWins` | internal/agent/wgmanager/wgmanager.go:162-172 | With distinct keys, a CIDR claimed by several desired peers ends up with the last of them and nobody else |
| `WgSpec.OwnedAfter` | internal/agent/wgmanager/wgmanager.go:162-172 | With distinct keys and no peer unlisted, the owned CIDRs are exactly the desired ones |
| `WgSpec.ReconcileExact` | internal/agent/wgmanager/wgmanager.go:138-187 | After a success the keys are the desired ones, each CIDR belongs to its last claimant, and the routes are the old ones less those of removed peers plus all desired CIDRs |
| `WgSpec.ClaimsExact` | internal/agent/wgmanager/wgmanager.go:163 | What a listed peer claims, and so what is routed, is its mesh IP with `/32` and every subnet it advertises, and nothing else |
| `WgSpec.BlindReconcile` | internal/agent/wgmanager/wgmanager.go:205-214 | When `wg show` fails silently nothing is removed: the keys are exact if and only if no peer was stale, and stale peers keep what nothing desired claims |
| `WgSpec.ReconcileFromAnywhere` | internal/agent/wgmanager/wgmanager.go:138-187 | One success gives, from any interface, the peer table it gives from an empty one, with every owned CIDR routed |
| `WgSpec.EndpointResidue` | internal/agent/wgmanager/wgmanager.go:165-169 | Endpoints equal those of a fresh start if and only if every surviving peer that had one is listed with one |
| `WgSpec.ReconcileIdempotent` | internal/agent/wgmanager/wgmanager.go:138-187 | A second identical reconciliation changes nothing, overlapping subnets included |
| `WgSpec.RouteResidue` | internal/agent/wgmanager/wgmanager.go:149-185 | If routes equalled owned CIDRs before, the routes left over afterwards are exactly the old CIDRs of surviving peers that nothing claims any more; they are equal again if and only if there are none |
| `WgSpec.KeyRotation` | internal/agent/wgmanager/wgmanager.go:149-185 | When a key rotates on the same mesh IP, the old key is gone and the new one alone owns the address, which is routed |
| `WgSpec.AddingFirstLosesRoutes` | internal/agent/wgmanager/wgmanager.go:149-185 | Why removal comes first: with the two loops exchanged, in any visiting order and with any refused route deletions, peers and endpoints would be the same, but exactly the routes of CIDRs that a removed peer held and a desired one claims would be missing |
| `WgSpec.WithdrawnSubnetKeepsRoute` | internal/agent/wgmanager/wgmanager.go:149-160 | An interface and a list at which a withdrawn subnet stays routed and unowned |
| `WgSpec.UnlistedEndpointStays` | internal/agent/wgmanager/wgmanager.go:165-169 | An interface and a list at which an old endpoint stays |
| `WgSpec.AttemptKeepsExclusive` | internal/agent/wgmanager/wgmanager.go:138-187 | However an attempt ends, no CIDR belongs to two peers |
| `WgSpec.AttemptRoutes` | internal/agent/wgmanager/wgmanager.go:138-187 | However an attempt ends, it adds no route that is not desired |
| `WgSpec.SelfStabilising` | internal/agent/wgmanager/wgmanager.go:138-187 | After any run of attempts that stop at arbitrary failing commands, routing is exclusive and no route came from nowhere; one success then gives the table of an empty interface, all routed, and stays put |
| `WgText.CurrentPeers` | internal/agent/wgmanager/wgmanager.go:215-239 | The line loop computes the parse of the whole text |
| `WgText.RoundTrip` | internal/agent/wgmanager/wgmanager.go:204-240 | Whatever table of white-space-free keys and CIDR lists is printed, the parser returns it, `(none)` and several CIDRs included |
| `WgText.TableLookup` | internal/agent/wgmanager/wgmanager.go:204-240 | The map the parser returns has exactly the table's keys, each with its own list |
| `WgText.ParseNone` | internal/agent/wgmanager/wgmanager.go:215-239 | A line of any key, a tab and `(none)` is a peer without CIDRs |
| `WgText.ParseTwo` | internal/agent/wgmanager/wgmanager.go:215-239 | A line of any key, a tab and two words with a space between is a peer with these two CIDRs |
| `WgText.FirstFieldOnlyExact` | README.md:186-188 | The earlier parser, which read one field after the key, was right for a peer if and only if it had at most one CIDR |
| `WgManager.CurrentPeersOf` | internal/agent/wgmanager/wgmanager.go:204-240 | Reading succeeds unless `wg show` fails with output; then it yields the kernel's keys and sets, or nothing after a silent failure |
| `WgManager.RemoveStale` | internal/agent/wgmanager/wgmanager.go:144-160 | The removal loop removes exactly the read peers that are not desired, with their routes, or stops at the first refused removal with a strict part of them gone |
| `WgManager.AddDesired` | internal/agent/wgmanager/wgmanager.go:162-186 | The addition loop sets every desired peer and adds every missing route, or stops at the first refused command having done a prefix |
| `WgManager.Reconcile` | internal/agent/wgmanager/wgmanager.go:138-187 | Succeeds exactly if the peers could be read and no command but a route deletion failed; then the interface is the specified one, and otherwise one of those an interruption can leave |
| `WgManager.SilentFailureKeepsPeer` | internal/agent/wgmanager/wgmanager.go:205-214 | With one configured peer, an empty list and a silent failure of `wg show`, success is reported and the peer stays |
| `IpBytes.IncIP` | internal/controlplane/mesh/mesh.go:45-52 | The carry loop increments the byte array in place, as specified byte by byte |
| `IpBytes.IncIsPlusOne` | internal/controlplane/mesh/mesh.go:45-52 | That increment adds one modulo 256 to the number of bytes |
| `IpBytes.LastAddr` | internal/controlplane/mesh/mesh.go:54-60 | The loop fills a fresh slice with the network bytes or-ed with the inverted mask |
| `IpBytes.MaskedValue` | internal/controlplane/mesh/mesh.go:54-60 | For every prefix length, byte-wise masking rounds the value down to a multiple of the block size, and filling the host bits adds that size less one |
| `IpBytes.ContainsIsInterval` | internal/controlplane/mesh/mesh.go:35 | Byte-wise masked containment is membership in an interval of integers |
| `Mesh.AddressRoundTrip` | internal/controlplane/mesh/mesh.go:36 | A reader of dotted addresses, each part a decimal numeral and each dot a shift by one byte, reads every 32-bit address back from its text |
| `Mesh.AddressText` | internal/controlplane/mesh/mesh.go:36 | The address 0x0A000102 has the text `10.0.1.2` |
| `Mesh.AddressInjective` | internal/controlplane/mesh/mesh.go:36 | Different 32-bit addresses have different texts, so the set of used texts is a set of addresses |
| `Mesh.ParsedNetwork` | internal/controlplane/mesh/mesh.go:29-30 | For a parsed CIDR, lastAddr is network plus block size less one and fits 32 bits |
| `Mesh.AllocateIP` | internal/controlplane/mesh/mesh.go:18-43 | Terminates with the least host address strictly between network and broadcast that is not used, and fails exactly if the CIDR does not parse or there is none; for every prefix length |
| `Mesh.Search` | internal/controlplane/mesh/mesh.go:35-42 | The search loop on the mutated address finds the least free address or shows that there is none, with wrap-around |
| `Mesh.LeastFreeUnique` | internal/controlplane/mesh/mesh.go:35-42 | There is at most one such address |
| `Mesh.PeerListFor` | internal/controlplane/mesh/mesh.go:64-82 | The loop appends every other node, in order, with an absent endpoint as the empty text |
| `Mesh.PeersExceptExact` | internal/controlplane/mesh/mesh.go:64-82 | The list shows exactly the other nodes, each with its key, mesh IP, subnets and its endpoint or the empty text; never the receiver, no key and no mesh IP twice |
| `Mesh.PeersInOrder` | internal/controlplane/mesh/mesh.go:66-80 | The list keeps the order of the nodes |
| `Registry.UpsertSound` | internal/controlplane/db/db.go:75-94 | An upsert with any host address as candidate, however stale, keeps names, keys and addresses distinct and every known name's address, and adds at most that name |
| `Registry.Conservation` | internal/controlplane/mesh/mesh.go:29-42 | Nodes plus free addresses equal the block size less two, or zero |
| `Registry.FreeExactlyBelowCapacity` | internal/controlplane/mesh/mesh.go:29-42 | A least free address exists if and only if the table is below capacity |
| `Registry.RegistrationSucceeds` | internal/controlplane/wsserver/wsserver.go:110-136 | A registration alone succeeds if and only if the table is below capacity, also for a known name, and no other name holds the key |
| `Registry.FullPoolLocksOut` | internal/controlplane/wsserver/wsserver.go:110-117 | On a /30 with its two nodes, a known name cannot register again |
| `Registry.RegistrationExact` | internal/controlplane/wsserver/wsserver.go:110-136 | It changes one row, which keeps its old address or gets the least free one, and uses up one free address if it is new |
| `Registry.NodeDB.UsedMeshIPs` | internal/controlplane/db/db.go:47-63 | Lists exactly the texts of the allocated addresses |
| `Registry.NodeDB.UpsertNode` | internal/controlplane/db/db.go:75-94 | The conflict clause as specified: an existing name keeps its address, a violated UNIQUE constraint is an error that changes nothing, the final address is returned and last_seen set |
| `Registry.NodeDB.TouchLastSeen` | internal/controlplane/db/db.go:100-109 | Sets last_seen of the row with this key and of no other |
| `Registry.NodeDB.ListNodes` | internal/controlplane/db/db.go:112-131 | Lists every row once, with its columns |
| `Protocol.StepKeepsRegistry` | internal/controlplane/wsserver/wsserver.go:109-136 | Every protocol step keeps the table sound and extends it |
| `Protocol.RegistrySafety` | internal/controlplane/wsserver/wsserver.go:109-136 | In every interleaved run, stale candidates included: names, keys and addresses stay distinct, addresses stay inside the CIDR, no row disappears, a name keeps its address, and conservation holds |
| `Connections.ConnsExactly` | internal/controlplane/wsserver/wsserver.go:102-140 | Over every run, whatever agents do: `conns` leads from a key to a connection exactly if some step entered it under that key and since then nothing was entered under the key and no connection with that last key was closed |
| `Connections.SoundExactly` | internal/controlplane/wsserver/wsserver.go:102-106 | The entry under a key belongs to a running handler exactly unless its connection was closed while its last key was another, or empty, and the key was untouched since |
| `Connections.CompleteExactly` | internal/controlplane/wsserver/wsserver.go:102-140 | A running connection is found under a key exactly if it was entered under it and no other connection has since been entered under it, or closed with it as its last key |
| `Connections.OwnAlong` | internal/controlplane/wsserver/wsserver.go:82-140 | A connection that registers one non-empty key is never entered under another, whatever the other connections do |
| `Connections.ConnectionMap` | internal/controlplane/wsserver/wsserver.go:82-106 | If each connection registers one non-empty key, every entry of `conns` belongs to a running handler of that key; if connections with one key never overlap, every running handler that reached the insertion is in it |
| `ProtocolRuns.LateDisconnect` | internal/controlplane/wsserver/wsserver.go:102-106 | A run from an empty table in which a node reconnects, its older connection is closed, and the newer, running one is not in `conns` |
| `ProtocolRuns.EmptyKeyLeaks` | internal/controlplane/wsserver/wsserver.go:102-106 | A run in which a node with an empty key registers and leaves, and its entry stays |
| `ProtocolRuns.SecondKeyLeaks` | internal/controlplane/wsserver/wsserver.go:82-86 | A run in which a second, rejected register message overwrites the connection's key, and the first key's entry outlives the handler |
| `Broadcasts.SentLists` | internal/controlplane/wsserver/wsserver.go:147-190 | If an agent's connection registers one non-empty key, no list ever sent to it contains that key, a key twice or a mesh IP twice, whatever the other connections do |
| `Broadcasts.LastSentBy` | internal/controlplane/wsserver/wsserver.go:147-190 | Over runs in which the receiving connection registers one non-empty key, the last list sent to it is its view of the snapshot of the last step that sent to it |
| `Broadcasts.ViewExactly` | internal/controlplane/mesh/mesh.go:64-82 | The list a snapshot yields is a view of the table exactly if snapshot and table have the same other nodes with the same addresses, endpoints and subnets |
| `Broadcasts.BroadcastExactly` | internal/controlplane/wsserver/wsserver.go:175-190 | After a broadcast that reaches an agent, the agent is up to date exactly if the snapshot broadcast agrees with the table |
| `Broadcasts.UpToDateExactly` | internal/controlplane/wsserver/wsserver.go:147-190 | Over runs in which the receiving connection registers one non-empty key, its agent is up to date exactly if something was sent to it and the snapshot behind the last list sent to it agrees with the present table |
| `Convergence.StaysUpToDate` | internal/controlplane/wsserver/wsserver.go:175-190 | If its connection registers one non-empty key: while the table rests and no stale snapshot is outstanding, an agent reached by a broadcast keeps a current view as its last list |
| `Convergence.AppliedRun` | internal/agent/wsclient/wsclient.go:92-120 | In every run, an agent whose last list was applied cleanly has the interface that reconciling that list gives |
| `Convergence.ViewConverges` | internal/agent/wsclient/wsclient.go:131-136 | Cleanly applying a current view makes the interface peer with exactly the other nodes, each mesh /32 owned by its node alone and routed, every advertised subnet routed and owned by its last claimant, every endpoint set, if and only if no entry advertises the mesh /32 of an entry before it |
| `ProtocolRuns.AddressTaken` | internal/agent/wgmanager/wgmanager.go:162-172 | Two rows, the second advertising the first one's mesh /32: a third agent that applies its view has not converged |
| `Convergence.MeshConvergence` | internal/controlplane/wsserver/wsserver.go:109-190 | In every run, whatever any connection does: an agent whose last list is up to date and which has applied all its lists, the last one cleanly, has converged, advertised subnets and endpoints included, if and only if no entry of the list advertises the mesh /32 of an entry before it |
| `Convergence.RestingTableConverges` | internal/controlplane/wsserver/wsserver.go:175-190 | Once the table rests and no stale snapshot is outstanding, any agent that a later broadcast reaches, and whose own connection registers one non-empty key, has converged as soon as it has cleanly applied its last list; other connections may register several keys, overlap or be missed |
| `Convergence.FullBroadcastConverges` | internal/controlplane/wsserver/wsserver.go:175-190 | If each connection registers one non-empty key and connections with one key do not overlap up to a broadcast written to every entry of `conns`, it converges every agent entered by then |
| `ProtocolRuns.StaleBroadcastWins` | internal/controlplane/wsserver/wsserver.go:157 | A run of two overlapping registrations in which the older snapshot is broadcast last: with no handler at work, the first node's last list lacks the second |
| `WsServer.Server.BroadcastPeerLists` | internal/controlplane/wsserver/wsserver.go:175-190 | Sends one list of its own to exactly the connections whose writes do not fail, in map order |
| `WsServer.RowRegistered` | internal/controlplane/wsserver/wsserver.go:119-136 | The row a registration leaves has its key and subnets, the override as endpoint where one is sent and else the host it came from with its port, and the mesh IP it had; no other row changes |
| `WsServer.Server.StoreNode` | internal/controlplane/wsserver/wsserver.go:110-136 | Read used, allocate, upsert: the new table if both succeed, with the endpoint override or else the connection's host and the port sent in the row, and otherwise no change |
| `WsServer.Server.HandleRegister` | internal/controlplane/wsserver/wsserver.go:76-86 | Stores the row exactly if there is room and the key is not another's, with the key, subnets and endpoint sent or detected; then enters the connection, replies, and broadcasts the same snapshot; its effect is a path of protocol steps |
| `WsServer.Server.HandleHeartbeat` | internal/controlplane/wsserver/wsserver.go:88-95 | Dropped before a registration; else touches exactly the key's row and broadcasts a current snapshot, as three protocol steps |
| `WsServer.Server.Disconnect` | internal/controlplane/wsserver/wsserver.go:102-106 | Is the protocol's closing step: the entry under the last key read goes, whoever holds it |
| `WsServer.OutcomeExact` | internal/controlplane/wsserver/wsserver.go:110-136 | The stored part of a registration succeeds if and only if the table is below capacity and no other name holds the key |
| `WsClient.Client.ApplyPeerList` | internal/agent/wsclient/wsclient.go:131-136 | Succeeds exactly if the interface is up, the peers could be read and no command that matters was refused, and has then reconciled; nothing is touched while the interface is down |
| `WsClient.Client.ReadMessage` | internal/agent/wsclient/wsclient.go:92-120 | One message read and applied is the protocol's delivery step; it is clean exactly if the peers could be read, no command that matters was refused and, for a reply, the interface was up, and then the interface is the reconciled one |
| `HostRule.WildcardMeaning` | internal/controlplane/traefikconfig/traefikconfig.go:244-250 | For every suffix free of special characters, dots aside, the emitted pattern parses and matches a host if and only if it is one non-empty dot-free label, a dot and the suffix |
| `HostRule.WildcardExactly` | internal/controlplane/traefikconfig/traefikconfig.go:244-250 | For every suffix without parentheses, opening brackets or braces, bars or backslashes: the emitted pattern parses and matches exactly the hosts of one label under the suffix if and only if no character of it is a quantifier or an anchor |
| `HostRule.SpecialSuffix` | internal/controlplane/traefikconfig/traefikconfig.go:246 | The suffix `a+b` is compiled to a pattern that matches `x.aab` |
| `HostRule.ParseWildcard` | internal/controlplane/traefikconfig/traefikconfig.go:244-250 | The emitted text is a pattern of exactly the intended items, every dot escaped |
| `TraefikConfig.SelectMasterBackupTarget` | internal/controlplane/traefikconfig/traefikconfig.go:261-283 | The one pass over the targets selects what the last primary and the last backup determine, whatever their order; a single target is taken as it is |
| `TraefikConfig.SelectedOfPair` | internal/controlplane/traefikconfig/traefikconfig.go:261-283 | Of a primary and a backup in either order, the primary if external or fresh, else the backup |
| `TraefikConfig.Generate` | internal/controlplane/traefikconfig/traefikconfig.go:127-234 | The loop fills the maps entry by entry and ends with the compiled configuration, whose sections CompiledExact characterises |
| `TraefikConfig.CompiledExact` | internal/controlplane/traefikconfig/traefikconfig.go:127-234 | For uniquely named resources each section's routers, services and transports are exactly its resources' own entries, and a section is absent if and only if its protocol has no resource |
| `TraefikConfig.ConfigClosed` | internal/controlplane/traefikconfig/traefikconfig.go:127-234 | Keys are exactly the resource names, every referenced service and transport exists, and every transport is used by exactly one service |
| `TraefikConfig.InsecureExactly` | internal/controlplane/traefikconfig/traefikconfig.go:163-172 | An http resource has its insecure transport if and only if it is https and skips verification |
| `TraefikConfig.ServerShowsTarget` | internal/controlplane/traefikconfig/traefikconfig.go:160 | Two targets give the same server text if and only if they have the same address and port, colons in addresses included |
| `TraefikConfig.HttpServed` | internal/controlplane/traefikconfig/traefikconfig.go:158-189 | An http service has one server for each target in order, a cookie and a health check exactly if the resource is sticky, and a cookie no other service has |
| `TraefikConfig.PermutationInvariant` | internal/controlplane/traefikconfig/traefikconfig.go:127-234 | The order of the resources does not matter |
| `TraefikConfig.Isolation` | internal/controlplane/traefikconfig/traefikconfig.go:127-234 | Changing one resource, protocol included, leaves every other resource's router, service and transport alone |
| `TraefikConfig.TlsDomainsForWildcards` | internal/controlplane/traefikconfig/traefikconfig.go:140-146 | With a resolver, explicit TLS domains are emitted exactly for rules that match by pattern, and then for that domain |
| `Text.NumeralText` | internal/controlplane/traefikconfig/traefikconfig.go:160 | Numbers are printed in decimal, most significant digit first, a minus sign in front |
| `EmittedConfig.HttpRouted` | internal/controlplane/traefikconfig/traefikconfig.go:136-152 | The http router of a resource, text by text: its service, entry point and resolver, the TLS domain of a wildcard, `PathPrefix` without a domain and `Host` for one that is no wildcard |
| `EmittedConfig.WildcardRouted` | internal/controlplane/traefikconfig/traefikconfig.go:244-250 | For a domain `*.` with a plain suffix the emitted rule is `HostRegexp` of a pattern that is read and matches exactly the hosts of one label under the suffix |
| `EmittedConfig.HttpBalanced` | internal/controlplane/traefikconfig/traefikconfig.go:154-162 | One server for each target in order, its URL the scheme, `http` by default, the address and the port |
| `EmittedConfig.HttpOptions` | internal/controlplane/traefikconfig/traefikconfig.go:163-189 | Cookie `rvtx_lb_` with the name and the health check exactly if sticky; the transport named after the resource exactly if https skips verification |
| `EmittedConfig.HttpTransport` | internal/controlplane/traefikconfig/traefikconfig.go:163-172 | That transport is there and skips verification |
| `EmittedConfig.TcpRouted` | internal/controlplane/traefikconfig/traefikconfig.go:192-208 | The tcp router: `HostSNI` of the domain or of `*` |
| `EmittedConfig.UdpRouted` | internal/controlplane/traefikconfig/traefikconfig.go:217-224 | The udp router: service and entry point |
| `EmittedConfig.SingleServed` | internal/controlplane/traefikconfig/traefikconfig.go:210-231 | A tcp or udp resource with one target is served at its address and port, fresh or not |
| `EmittedConfig.PairServed` | internal/controlplane/traefikconfig/traefikconfig.go:261-283 | A pair in either order is served by the primary if it is external or was seen at most 45 seconds ago, else by the backup |
| `Failover.RecentExactly` | internal/controlplane/traefikconfig/traefikconfig.go:279 | A node's last_seen is within the freshness limit if and only if some touch of it is |
| `Failover.SingleOrPair` | internal/controlplane/db/resources.go:212-249 | Every validated tcp or udp resource is a single target or exactly one primary and one backup |
| `Failover.PollSelects` | internal/controlplane/traefikconfig/traefikconfig.go:261-283 | A poll of a listed pair selects a mesh-backed primary exactly if its node was touched in the last 45 seconds, else the backup |
| `Failover.ExternalPrimary` | internal/controlplane/traefikconfig/traefikconfig.go:276-278 | An external primary is always selected |
| `Failover.SelectionStored` | internal/controlplane/traefikconfig/traefikconfig.go:266-282 | The selection is always one of the stored targets, never the zero target |
| `Failover.PollServes` | internal/controlplane/traefikconfig/traefikconfig.go:208-229 | The selected target is the one server of the resource's tcp or udp service |
| `Failover.SteadyTouches` | internal/controlplane/traefikconfig/traefikconfig.go:24 | While touches are at most 45 seconds apart, every poll from the first until 45 seconds after the last finds the node fresh |
| `Failover.MissedBeats` | internal/controlplane/traefikconfig/traefikconfig.go:16-24 | Of 15-second heartbeats, all polls between two touches find the node fresh if and only if at most one was lost between them, or two and the second touch is not late |
| `Failover.LateThirdBeat` | internal/controlplane/traefikconfig/traefikconfig.go:16-24 | Two lost heartbeats and a third that is late by any amount: some poll in between finds the node stale |
| `Failover.FailoverOverRuns` | internal/controlplane/traefikconfig/traefikconfig.go:261-283 | Over a timed run with steady touches, every poll until 45 seconds after the last selects the primary and every later one the backup |
| `ResourceStore.ValidateTargets` | internal/controlplane/db/resources.go:212-249 | Accepts exactly the lists of the protocol's shape in which each target names a node or an address and not both |
| `ResourceStore.ValidExactly` | internal/controlplane/db/resources.go:212-249 | What is accepted, in terms of the request: a known protocol, some targets, each with a node or an address and not both, and for tcp and udp at most two, of which one a backup and the other a primary or without a role |
| `ResourceStore.ResolvesExactly` | internal/controlplane/db/resources.go:152-184 | Targets can be stored exactly if every port has 32 bits, every role is primary, backup or empty, and every target without an address names a registered node |
| `ResourceStore.ReplacedExact` | internal/controlplane/db/resources.go:136-141 | Delete and reinsert gives one resource exactly the new targets and leaves all others theirs |
| `ResourceStore.CreateExact` | internal/controlplane/db/resources.go:67-100 | A create adds one resource with the columns sent, `http` as the default scheme, and with exactly the targets sent, a missing role stored as primary, an address before a node name; it keeps the tables valid |
| `ResourceStore.UpdateExact` | internal/controlplane/db/resources.go:109-147 | An update gives one resource exactly the columns and targets sent, with the same defaults, changes no other and keeps the tables valid |
| `ResourceStore.DeleteExact` | internal/controlplane/db/resources.go:201-210 | A delete takes one resource's targets with it and no other's |
| `ResourceStore.DeleteKeepsValid` | internal/controlplane/db/resources.go:201-210 | A delete keeps the tables valid |
| `NodeTable.ExecuteOn` | internal/controlplane/db/db.go:75-109 | The database's upsert and touch do exactly what the statements of the model do |
| `NodeTable.StatementKeepsNodes` | internal/controlplane/db/db.go:75-109 | Every upsert, failed or not, and every touch keeps each node's identifier, name and mesh IP, and names unique |
| `NodeTable.StatementKeepsValid` | internal/controlplane/db/db.go:75-109 | So a registration or heartbeat is a step of the resource store and keeps its tables valid |
| `NodeTable.StatementsReflect` | internal/controlplane/db/db.go:75-109 | After every run of upserts and touches from an empty table, each row's last_seen is that of the last touch made to it |
| `NodeTable.PollAfterStatements` | internal/controlplane/traefikconfig/traefikconfig.go:261-283 | After every run of registrations and heartbeats, a poll selects a mesh-backed primary exactly if one of them touched its node in the last 45 seconds |
| `ResourceStore.RunKeepsValid` | internal/controlplane/db/resources.go:67-210 | After every run of creates, updates, deletes and registrations, failed ones included, names are unique, references resolve and every resource's targets have its protocol's shape |
| `ResourceListing.PickedJoin` | internal/controlplane/db/resources.go:257-266 | The joined rows of one resource are its stored targets, resolved from the current node rows |
| `ResourceListing.ListedFromRows` | internal/controlplane/db/resources.go:257-296 | A resource of a valid store is listed with its own columns and, up to order, its stored targets: one on a node with that node's present mesh IP, last_seen and name and not external, one with an address as external with neither |
| `ResourceListing.TargetsConserved` | internal/controlplane/db/resources.go:256-304 | A listing has as many resources and as many targets as the tables have rows |
| `ResourceListing.ListedShape` | internal/controlplane/db/resources.go:212-249 | Every listed http resource has a target, every tcp or udp one a single target or one primary and one backup |
| `ResourceDB.Store.InsertTargets` | internal/controlplane/db/resources.go:152-184 | Inserts one row for each target, in order, or fails exactly if some target does not resolve or breaks a constraint |
| `ResourceDB.Store.CreateResource` | internal/controlplane/db/resources.go:67-100 | Succeeds exactly if valid, resolvable, new in name and committed; a failure changes nothing |
| `ResourceDB.Store.UpdateResource` | internal/controlplane/db/resources.go:109-147 | Succeeds exactly if valid, resolvable, known in name and committed; a failure changes nothing |
| `ResourceDB.Store.DeleteResource` | internal/controlplane/db/resources.go:201-210 | Succeeds exactly if the name is known and the statement works |
| `ResourceDB.Group` | internal/controlplane/db/resources.go:272-294 | The grouping pass keeps one entry for each resource seen, with its targets in row order, in order of first appearance |
| `ResourceDB.Store.ListResourcesWithTargets` | internal/controlplane/db/resources.go:256-304 | Returns the relational listing: each resource once in name order, with exactly its resolved targets, sorted by role |
| `EditForm.SubmitValidExactly` | dashboard/src/pages/Resources.jsx:11-17 | A submitted form passes the server's target validation exactly if its roles have the protocol's shape and each target's field of its own kind is filled in, whatever is left in the other |
| `EditForm.SubmittedFields` | dashboard/src/pages/Resources.jsx:84-98 | What a submit asks the update to write: the http columns for http only, an empty domain or resolver as absent, verification skipped only over https |
| `EditForm.SubmittedTarget` | dashboard/src/pages/Resources.jsx:11-17 | Each target submitted names the node or the address, whichever its kind says, with its port and role |
| `EditForm.DecodeTargets` | cmd/controlplane/main.go:354-364 | The loop converts every target field by field, absent keys becoming empty texts |
| `EditForm.UpdateResourceHandler` | cmd/controlplane/main.go:323-350 | Updates the resource named by the path with the decoded columns, empty domain and resolver as absent, the scheme `http` by default; a failure changes nothing |
| `EditRoundTrip.EditedExact` | dashboard/src/pages/Resources.jsx:11-31 | One target through form, payload and decoding keeps node name or address, port and role |
| `EditRoundTrip.BackendRoundTrip` | dashboard/src/pages/Resources.jsx:11-31 | Listed, and stored again after any registrations, a target resolves to the same node identifier or address, port and role |
| `EditRoundTrip.NoOpEdit` | dashboard/src/pages/Resources.jsx:88-98 | An untouched edit of any stored resource is accepted, with registrations in between; it keeps the resource's multiset of targets and every other resource |
| `EditRoundTrip.SubmitUntouched` | cmd/controlplane/main.go:323-364 | Submitting an untouched form fails only if the database does, and rewrites nothing but the http-only columns and the domain |
| `EditConfig.PoolsAlike` | internal/controlplane/traefikconfig/traefikconfig.go:158-161 | Two role-sorted orders of one pool yield servers that differ only in the order within a role |
| `EditConfig.SelectionAlike` | internal/controlplane/traefikconfig/traefikconfig.go:261-283 | The selection does not depend on the order of the targets |
| `EditConfig.NoOpConfig` | internal/controlplane/traefikconfig/traefikconfig.go:195-201 | After an untouched edit the configuration is the same up to the order of servers with the same role if and only if the resource is not a tcp resource with a domain other than the catch-all |
| `EditConfig.TcpDomainDropped` | dashboard/src/pages/Resources.jsx:88-98 | A store with one tcp resource, whatever its domain: listed, submitted untouched and listed again, its configuration is another |
| `Migrate.Database.ListFiles` | internal/controlplane/db/migrate.go:24-34 | The files of the directory that end in .sql, each once, in the order of sort.Strings |
| `Migrate.TextLeExactly` | internal/controlplane/db/migrate.go:34 | That order: the first differing character decides, and a text comes before its continuations |
| `Migrate.Database.Migrate` | internal/controlplane/db/migrate.go:14-72 | However it ends, a prefix of the pending files is committed, schema and record together; without faults it succeeds exactly if all of them apply, and else everything before the first that does not apply is committed |
| `Migrate.AtMostOnce` | internal/controlplane/db/migrate.go:36-70 | Over any failed, crashed and successful runs no file is committed twice, and the schema is the fold of the committed files in commit order |
| `Migrate.Recovery` | internal/controlplane/db/migrate.go:36-70 | If new file names sort after applied ones and none is removed, a finally successful run leaves the fold of all files, each once, in file name order |
| `Migrate.OrderKeptExactly` | internal/controlplane/db/migrate.go:34-47 | A successful run leaves the commit order sorted if and only if every new file sorts after every applied one |
| `Migrate.LateFileOutOfOrder` | internal/controlplane/db/migrate.go:34-47 | `1.sql` arriving after `2.sql` was applied is applied second |
| `Migrate.RerunIsNoOp` | internal/controlplane/db/migrate.go:36-47 | After a success, running again with the same files changes nothing |
| `Users.StepKeepsUnique` | migrations/0006_users.sql:6-8 | Every statement keeps invite and reset tokens unique |
| `Users.ConsumesOneRow` | internal/controlplane/db/users.go:58-71 | Using a token sets one user's password and clears that token, and changes nothing else |
| `Users.HoldsExactly` | internal/controlplane/db/users.go:28-71 | A row holds a token exactly while it was issued to that user and not since used, replaced or deleted with the user |
| `Users.ConsumeExactly` | internal/controlplane/db/users.go:147-174 | Over every run, a token works if and only if it was issued less than its lifetime ago and nothing ended it since; it then changes exactly the row it was issued for |
| `Users.InviteWorks` | internal/controlplane/db/users.go:28-71 | Over every run, an invite works if and only if it was issued less than seven days ago to a user not deleted since and was not used; it then sets that user's password and clears the invite |
| `Users.ResetWorks` | internal/controlplane/db/users.go:147-174 | Over every run, a reset token works if and only if it was issued less than an hour ago to a user not deleted since, was not used and is the newest; it then sets that user's password and clears the token |
| `Users.AtMostOnce` | internal/controlplane/db/users.go:58-71 | With fresh tokens, each works at most once |
| `Users.NewerInvalidates` | internal/controlplane/db/users.go:147-157 | A newer reset token of the same user invalidates the older for good |
| `Users.KindsIndependent` | internal/controlplane/db/users.go:161-174 | Using a token of one kind leaves every user's token of the other kind |
| `Users.UserDB.CreateInvite` | internal/controlplane/db/users.go:28-37 | Adds a user without a password and with a token for seven days, or fails exactly on a known email or token and changes nothing |
| `Users.UserDB.AcceptInvite` | internal/controlplane/db/users.go:58-71 | Succeeds exactly if a row holds the unexpired invite; then that row has the password and no invite, and nothing else changes |
| `Users.UserDB.CreateResetToken` | internal/controlplane/db/users.go:147-157 | Replaces the user's reset token for one hour; an unknown email is reported but no error |
| `Users.UserDB.ResetPassword` | internal/controlplane/db/users.go:161-174 | Succeeds exactly if a row holds the unexpired token; then that row has the password and no reset token, and nothing else changes |
| `Users.UserDB.DeleteUser` | internal/controlplane/db/users.go:119-128 | Removes exactly that user, or fails if there is none |

## Left out

- Processes, netlink, Postgres, websockets, HTTP and JSON: replaced by state transitions; wire formats and concurrent writes to one websocket are not modelled.
- A command that fails is taken to change nothing; a kernel that half-applies a `wg set` is not modelled.
- Protocol.RegistrySafety: reading the used addresses and allocating are one step, since only the candidate's age matters to what follows and it may be arbitrarily stale.
- WsServer.Server.HandleRegister: runs without other handlers in between, and database errors other than UNIQUE conflicts appear only as the protocol's failing steps; interleavings are the step relation's.
- Broadcasts.UpToDateExactly: the receiving connection registers one non-empty key, as the agent does; a connection that `conns` holds under several keys gets several lists in one broadcast, the last of them chosen by map order.
- Convergence.MeshConvergence: CIDRs are compared as texts, so it assumes that they are canonical.
- Mesh.AllocateIP: IPv4 only, as the agent's `/32` requires; net.ParseCIDR is a parameter that yields a masked network or an error.
- WgManager.Reconcile: CIDRs are compared as texts, so non-canonical or overlapping-but-different CIDRs do not interact.
- WsClient.Client.ApplyPeerList: EnsureInterface is a flag; key files, addresses and link state are not modelled.
- The reconnect backoff and the ticker of the heartbeat loop: heartbeats are steps at arbitrary times, and Failover takes the times as given.
- Failover.PollSelects: one clock for Postgres and Go, no skew.
- HostRule.WildcardMeaning: a fragment of Go's regular expressions, large enough for the emitted patterns.
- HostRule.WildcardExactly: suffixes with `(`, `)`, `[`, `{`, `|` or a backslash are left out, and a backquote, which would end the rule's text, is read like any other character.
- TraefikConfig.Generate: udp sections have the shape of the others with empty rules and no transports; Traefik itself is not modelled.
- ResourceDB.Store.ListResourcesWithTargets: the database's collation is a parameter, any total order on texts; scan errors are left out.
- ResourceDB.Store.CreateResource: texts that Postgres cannot store, like any other failing statement, appear as a transaction that does not commit.
- EditRoundTrip.SubmitUntouched: the resource name reaches the handler unchanged through the URL, and the browser's own required-field checks are not modelled.
- Migrate.Database.Migrate: sequential runs; file contents are functions on schemas that may fail, and contents of applied files do not change.
- Users.ConsumeExactly: tokens are given; their generation, sessions, password hashing, e-mail and the SetUserRole and bootstrap methods (present in runs as statements) are left out.

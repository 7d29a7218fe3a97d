# Aerospike client node: tend refresh, discovery and connection pool

A model of `Node`, the client-side view of one Aerospike server node. It covers four pieces of per-node bookkeeping:

- **Health state machine.** `refresh` reads one info response and checks, in order:
  - the reported node name;
  - the peers generation and then the partition generation (peers protocol), or the partition generation and then the `services` list (legacy protocol).

  A changed name deactivates the node for good. A missing, empty or malformed field fails the refresh. A failure counts one more `failures` and closes the tend connection. A success resets `failures` and counts one more successful refresh in the cycle's `Peers` scratch.
- **Peer discovery with deduplication** (the "one node per name" guarantee). The per-cycle scratch (`Peers`) holds the hosts seen, the pending nodes (name to node), `refreshCount` and `genChanged`. With the cluster's published node table and alias table, it is updated in two ways:
  - The legacy pass (`addFriends`, `prepareFriend`) takes the `;`/`:`-separated services list, with optional host remapping.
  - The peers pass (`refreshPeers`, `findPeerNode`) takes the peer parser's list.
- **Partition-refresh gate** (`refreshPartitions`), including the split-cluster rule. The rule compares `peers.refreshCount` with 1. That count goes up once per successful `refresh` (Node.java:119) and once per completed `refreshPeers` (Node.java:310) in the current cycle.
- **Bounded connection pool** (`getConnection`, `putConnection`, `closeConnection`, `close`): an idle queue, a per-node connection count and a capacity. In `getConnection`, a valid pooled connection whose timeout cannot be set is closed and ends the call with an error; the connections still queued stay queued (Node.java:389-395).

Module layout:

- `Tend` (node.dfy): the classes `Cluster`, `Peers` and `Node`, whose methods update fields in place. Most Java methods are one Dafny method. Five are split so that each loop and each branch is proved on its own:
  - `refresh` is `Refresh`, `RefreshFrom` (the `try` block) and `RunChecks` (the checks in protocol order);
  - `addFriends` is `AddFriends`, `AddFriendEntries` (the loop) and `AddFriend` (one turn);
  - `prepareFriend` is `PrepareFriend` with one method per branch: `AliasPending`, `AliasPublished` and `AddPending`, which calls `AddNode` (`cluster.createNode` and the put into `peers.nodes`);
  - `refreshPeers` is `RefreshPeers`, `VisitPeers` (the outer loop), `VisitPeer` (one turn), `ConnectPeer` (one peer, also using `AddNode`) and `TryHosts` (the inner loop);
  - `getConnection` is `GetConnection`, `TakePooled` (the polling loop) and `OpenConnection` (a new connection).
- `Discovery`: pure reference definitions of the two discovery passes, with their lemmas. `FoldFriends` is the legacy pass over the key sets of the tables; `WalkPeers` is the peers pass.
- `Info`: readers of the info map, such as the name check, generations and services-entry parsing.
- `Strings`: Java `String.split` and `Integer.parseInt`, each with its inverse.
- `Capabilities`: the feature bitset.
- `Seqs`: first index satisfying a predicate.
- `Types`, `Wrappers`: value datatypes, `Option`, `Result`.

Nothing here touches the network. Every outside answer is a parameter of the method that needs it:

- The info response is `Option<InfoMap>`, where `None` means the request threw.
- Whether reopening a closed tend connection worked is a `bool`.
- The node validator is a total function `Host -> Option<NodeIdentity>`.
- The peer parser's and the partition parser's results are `Option`s.
- A pooled connection's validity is a predicate, and whether the timeout could be set is a `bool`.
- A newly created connection is `Option<Connection>`, and whether authentication succeeded is a `bool`.

Ghost state used to state the pool invariant:

- `outstanding`: the connections handed out and not yet returned.
- `leaked`: pooled connections that `closeConnections` closed without giving back their count.

`PoolValid` says that:

- `connectionCount == |queue| + |outstanding| + leaked <= capacity`;
- the queue holds distinct connections;
- none of those is checked out.

Every pool method preserves it.

`Dedup` says that:

- both node tables are keyed by the node's own name;
- no name is both published and pending;
- every cluster alias points at a published node.

Every discovery method preserves it.

## Model

| member | source | states |
|---|---|---|
| Tend.Node.constructor | client/src/com/aerospike/client/cluster/Node.java:74-88 | A new node is what `CreatedFor` describes: the validated name, address, aliases and capabilities; active; an open tend connection; both generations -1; no peers, failures or reference yet; an empty pool. The pool invariant holds. |
| Tend.CreatedPoolValid | client/src/com/aerospike/client/cluster/Node.java:74-88 | Any node in the state the constructor builds satisfies the pool invariant, so a node discovery creates can hand out connections. |
| Tend.Node.Refresh | client/src/com/aerospike/client/cluster/Node.java:93-125 | An inactive node is untouched, and so are the tables and every node in them. A node never becomes active again, and neither stored generation changes. Otherwise the outcome is that of `ChecksOf` on the response; with no response or a failed reconnect the refresh fails. The outcome covers: deactivation exactly on a changed name; failures reset or incremented; tend connection closed exactly on failure; refreshCount + 1 exactly on success; the generation flags; peersCount; the discovery tables as `FoldFriends`. When addFriends does not run (a failed reconnect, no response, or a failed check before it), the tables and every node's aliases and reference count stay as they were. |
| Tend.Node.RefreshFrom | client/src/com/aerospike/client/cluster/Node.java:99-124 | Runs the checks on a received response, then does the success accounting (refreshCount + 1, failures 0) or the failure accounting (`RefreshFailed`), each stated against `ChecksOf`. When the checks stop before addFriends, the tables and every node's aliases and reference count stay as they were. |
| Tend.Node.RunChecks | client/src/com/aerospike/client/cluster/Node.java:103-117 | Runs the checks in protocol order, each only after the previous one passed. The result is `ChecksOf(...).ok`; every flag, peersCount and the discovery tables are as `ChecksOf` says. When the checks stop before addFriends, or in peers mode, the tables and every node's aliases and reference count stay as they were. |
| Tend.ChecksOf | client/src/com/aerospike/client/cluster/Node.java:103-117 | Which checks run and what they read. Success implies a matching name and a readable partition generation. A peers generation is read only in peers mode after the name matched. Friends are folded only in legacy mode after the partition generation read. |
| Tend.ChecksPass | client/src/com/aerospike/client/cluster/Node.java:103-117 | A refresh passes iff the name matches, the partition generation reads, and either (peers mode) the peers generation reads or (legacy mode) every services entry parses. |
| Tend.Node.VerifyNodeName | client/src/com/aerospike/client/cluster/Node.java:127-142 | Passes iff the reported name is present, non-empty and equal to the node's name. `active` is cleared exactly when a non-empty different name is reported. |
| Tend.Node.VerifyPeersGeneration | client/src/com/aerospike/client/cluster/Node.java:144-156 | Passes iff the field is present, non-empty and a 32-bit integer. `genChanged` is set iff it passes with a value different from `peersGeneration`, and is otherwise left as it was. |
| Tend.Node.VerifyPartitionGeneration | client/src/com/aerospike/client/cluster/Node.java:158-170 | Passes iff the field is present, non-empty and a 32-bit integer. `partitionChanged` is set iff it passes with a value different from `partitionGeneration`, and is otherwise left as it was. |
| Tend.Node.RefreshFailed | client/src/com/aerospike/client/cluster/Node.java:361-371 | Failures + 1, and the tend connection is closed. |
| Tend.Node.AddFriends | client/src/com/aerospike/client/cluster/Node.java:172-212 | peersCount is 0 for a missing or empty services string, and otherwise the number of `;`-separated entries. The pass succeeds iff every entry parses. The tables end as `FoldFriends` of the hosts parsed before the first bad entry. Dedup is kept. |
| Tend.Node.AddFriendEntries | client/src/com/aerospike/client/cluster/Node.java:185-212 | The loop over the entries. It stops at the first entry that does not parse, which happens iff not all parse. The tables equal the fold over the parsed prefix. |
| Tend.Node.AddFriend | client/src/com/aerospike/client/cluster/Node.java:200-211 | A host of the cluster alias table gives that node one more reference; no table changes, and no other node's aliases or reference count change. A host already seen this cycle changes nothing at all. Any other host goes to `prepareFriend`, with all of `Prepared`'s per-case effects. The key sets become one `FriendStep`. |
| Tend.Node.PrepareFriend | client/src/com/aerospike/client/cluster/Node.java:215-256 | Returns true iff the host validates; a failed validation changes nothing. Otherwise, by `Prepared`, there are three cases. A pending name's node gains the alias. A published name's node gains the alias and a reference, and the host becomes a cluster alias. Any other name gets exactly one new pending node in the constructor's state. Every other node keeps its aliases and reference count. The host is marked seen, and the key sets move as `AcceptFriend` says. |
| Tend.Node.AliasPending | client/src/com/aerospike/client/cluster/Node.java:223-231 | The branch for a name pending this cycle: the host is seen and appended to that node's aliases. |
| Tend.Node.AliasPublished | client/src/com/aerospike/client/cluster/Node.java:236-243 | The branch for a published name: the host is seen and appended to the node's aliases, the node gains a reference, and the cluster alias table maps the host to it. |
| Tend.Node.AddPending | client/src/com/aerospike/client/cluster/Node.java:245-248 | The branch for a new name: the host is seen, and the pending table gains exactly one new node for the identity, as `AddNode` creates it. |
| Tend.Node.AddNode | client/src/com/aerospike/client/cluster/Node.java:245-247 | `cluster.createNode` and the put: the pending table gains exactly one new node under the validated name, in the constructor's state and with no reference. |
| Tend.Node.FindPeerNode | client/src/com/aerospike/client/cluster/Node.java:317-334 | Found iff the name is published or pending. The published table is checked first, and the node found gains one reference. A miss changes no node. No pending node's aliases change, and a pending node in the constructor's state stays in it. |
| Tend.Node.RefreshPeers | client/src/com/aerospike/client/cluster/Node.java:258-315 | Nothing happens after a failure this cycle or on an inactive node: every node of the tables is left as it was. An unreadable peer list fails the refresh and changes no node's aliases or reference count. Otherwise the generation and peersCount are set and refreshCount goes up by one. The pending table is extended by exactly one node per identity `WalkPeers` creates, each carrying that identity and its aliases. Every node added is new and in the constructor's state. |
| Tend.Node.VisitPeers | client/src/com/aerospike/client/cluster/Node.java:272-309 | The loop over the peer list realises `WalkPeers`: the hosts tried, and one new pending node per created identity, carrying its identity and aliases and in the constructor's state. Dedup is kept. |
| Tend.Node.VisitPeer | client/src/com/aerospike/client/cluster/Node.java:272-309 | One loop turn advances the walk by one peer. The table stays an extension by the identities created so far. Nodes already in the table stay in place and stay in the constructor's state if they were; a node added is new and in that state. |
| Tend.Node.ConnectPeer | client/src/com/aerospike/client/cluster/Node.java:273-308 | One peer as `PeerStep` says. A known peer name means no connection attempt. Otherwise the hosts are tried in order up to the first that validates, and a reported name that differs is looked up again. Exactly one new node is created, under the validated name and in the constructor's state, unless that name is known. No existing pending node's aliases change. |
| Tend.Node.TryHosts | client/src/com/aerospike/client/cluster/Node.java:279-308 | The identity of the first host that validates, and the hosts tried are exactly those up to and including it. |
| Tend.Node.RefreshPartitions | client/src/com/aerospike/client/cluster/Node.java:336-359 | A skip (per `PartitionRefreshSkipped`: failures > 0, inactive, or no peers while refreshCount > 1) changes nothing. An unreadable response fails the refresh. Otherwise the generation is set, and the shared map is replaced only when the parser copied it. |
| Tend.Node.PartitionRefreshSkipped | client/src/com/aerospike/client/cluster/Node.java:341-343 | A failed refresh this cycle or an inactive node always skips the partition refresh. So does a node with no peers once more than one refresh has succeeded this cycle. There is no other reason to skip: a healthy node with peers, or one refreshed while the count is at most 1, refreshes its partitions. |
| Tend.Node.HasBatchIndex | client/src/com/aerospike/client/cluster/Node.java:490-492 | True iff BatchIndex is among the capabilities the feature bits decode to. |
| Tend.Node.HasDouble | client/src/com/aerospike/client/cluster/Node.java:497-499 | True iff Double is among the decoded capabilities. |
| Tend.Node.HasReplicasAll | client/src/com/aerospike/client/cluster/Node.java:504-506 | True iff ReplicasAll is among the decoded capabilities. |
| Tend.Node.HasPeers | client/src/com/aerospike/client/cluster/Node.java:511-513 | True iff Peers is among the decoded capabilities. |
| Tend.Node.UseNewBatch | client/src/com/aerospike/client/cluster/Node.java:483-485 | True iff the policy does not ask for direct batches and the server has the batch index capability. |
| Tend.Node.CloseConnection | client/src/com/aerospike/client/cluster/Node.java:450-453 | The count drops by exactly one, the connection is no longer checked out, and the pool invariant holds. |
| Tend.Node.PutConnection | client/src/com/aerospike/client/cluster/Node.java:439-445 | The connection is pooled, with the count unchanged, iff the node is active and the queue has room. Otherwise it is closed and the count drops by one. The pool invariant holds. |
| Tend.Node.GetConnection | client/src/com/aerospike/client/cluster/Node.java:381-432 | The invalid pooled connections before the first valid one are closed. The first valid one is handed out, or closed with a failure when its timeout cannot be set. With the pool drained: capacity full means NoMoreConnections; a failed creation or authentication fails; each of these leaves the count as it was. Otherwise a new connection is handed out and the count + 1. The count never exceeds the capacity. |
| Tend.Node.TakePooled | client/src/com/aerospike/client/cluster/Node.java:384-398 | The polling loop stops at the first valid pooled connection; every invalid one before it is closed through `closeConnection` and the scan goes on. The count falls by the number closed. |
| Tend.Node.OpenConnection | client/src/com/aerospike/client/cluster/Node.java:400-431 | The count is incremented and tested against the capacity. The increment is given back on a full pool, on a creation failure, and on an authentication failure (by `closeConnection`). Only a success keeps it. |
| Tend.Node.CloseConnections | client/src/com/aerospike/client/cluster/Node.java:550-560 | Closes the tend connection and drains the idle queue. As written, the count is not decremented, so the drained connections move into `leaked`. |
| Tend.Node.Close | client/src/com/aerospike/client/cluster/Node.java:518-521 | Deactivates the node and closes its connections, keeping the pool invariant. |
| Tend.UniqueNodePerName | client/src/com/aerospike/client/cluster/Node.java:220-247 | Under the dedup invariant, two nodes of the tables with the same name are the same node. |
| Info.CheckName | client/src/com/aerospike/client/cluster/Node.java:131-141 | Missing iff the name is absent or empty; matching iff it equals the node's name; otherwise a different, non-empty reported name. |
| Info.Generation | client/src/com/aerospike/client/cluster/Node.java:145-151 | A generation is read iff the field is present, non-empty and parses as a 32-bit integer. |
| Info.FriendEntries | client/src/com/aerospike/client/cluster/Node.java:174-182 | There are no entries for a missing or empty services string. No entry contains `;`. |
| Info.Remap | client/src/com/aerospike/client/cluster/Node.java:189-195 | The IP map's value when it has the host name, else the name itself. |
| Info.ParseFriend | client/src/com/aerospike/client/cluster/Node.java:186-198 | An entry without `:` never parses. An entry parses iff it has a second `:`-separated piece and that piece is a 32-bit integer. The host is then the remapped text before the first `:`, with a 32-bit port. `ParseFormattedHost` is its round trip. |
| Info.ParsedCount | client/src/com/aerospike/client/cluster/Node.java:185-198 | The number of leading entries that parse: all before it parse, and the one at it does not. |
| Info.ParsedFriends | client/src/com/aerospike/client/cluster/Node.java:185-198 | The hosts of the parsed prefix, entry for entry. |
| Info.ParseFormattedHost | client/src/com/aerospike/client/cluster/Node.java:186-198 | Parsing a `name:port` entry gives back the remapped host. |
| Info.ServicesRoundTrip | client/src/com/aerospike/client/cluster/Node.java:174-198 | A services string listing well-formed hosts has one entry per host, all parse, and each gives its host (remapped). |
| Strings.JavaSplit | client/src/com/aerospike/client/cluster/Node.java:182 | Java `split` on a plain one-character separator. A string without the separator is one piece; otherwise the pieces, less the empty ones at the end. No piece holds the separator. |
| Strings.Split | client/src/com/aerospike/client/cluster/Node.java:182-186 | Every separator-delimited piece, empty ones included: at least one piece, none holding the separator. `JoinSplit` and `SplitJoin` make it the inverse of `Join`. |
| Strings.TrimTrailingEmpty | client/src/com/aerospike/client/cluster/Node.java:182 | A prefix of the pieces, ending in a non-empty piece, with only empty pieces dropped. |
| Strings.JoinSplit | client/src/com/aerospike/client/cluster/Node.java:182 | Joining the pieces of a split gives back the string. |
| Strings.SplitJoin | client/src/com/aerospike/client/cluster/Node.java:182 | Splitting a join of separator-free pieces gives back the pieces. |
| Strings.JavaSplitJoin | client/src/com/aerospike/client/cluster/Node.java:182-186 | Java `split` undoes a join of separator-free pieces whose last piece is non-empty. |
| Strings.ParseInt | client/src/com/aerospike/client/cluster/Node.java:151 | `Integer.parseInt`: a result is always a 32-bit value. |
| Strings.DigitsRoundTrip | client/src/com/aerospike/client/cluster/Node.java:151 | Reading back the decimal digits of n gives n. |
| Strings.ParseIntRoundTrip | client/src/com/aerospike/client/cluster/Node.java:151 | `parseInt` undoes `toString` on every 32-bit value. |
| Capabilities.Decode | client/src/com/aerospike/client/cluster/Node.java:45-49 | A capability is decoded iff its bit is set. |
| Capabilities.BitsDistinct | client/src/com/aerospike/client/cluster/Node.java:45-49 | Each capability has a bit of its own. |
| Capabilities.DecodeEncode | client/src/com/aerospike/client/cluster/Node.java:45-49 | Decoding the bitset built from a set of capabilities gives that set. |
| Capabilities.EncodeDecode | client/src/com/aerospike/client/cluster/Node.java:45-49 | Re-encoding the decoded capabilities keeps exactly the bits that belong to capabilities. |
| Seqs.FirstIndex | client/src/com/aerospike/client/cluster/Node.java:279-302 | The first position satisfying the predicate, or the length when there is none. |
| Discovery.FoldFriendsStep | client/src/com/aerospike/client/cluster/Node.java:185-212 | The fold up to entry i+1 is one more `FriendStep` after the fold up to i. |
| Discovery.FoldFriends | client/src/com/aerospike/client/cluster/Node.java:185-212 | The legacy pass over the hosts in order, one `FriendStep` each. It never removes a seen host, a pending name or a cluster alias. |
| Discovery.FriendStep | client/src/com/aerospike/client/cluster/Node.java:200-211 | A host that is a cluster alias or already seen leaves the key sets as they were. A host that validates ends seen or an alias. Nothing is ever removed. |
| Discovery.AcceptFriend | client/src/com/aerospike/client/cluster/Node.java:215-256 | A host that fails validation changes nothing. A validated host is seen, and its name ends pending or published. The alias set grows by at most this host, and no pending name is dropped. |
| Discovery.FoldFriendsCovers | client/src/com/aerospike/client/cluster/Node.java:185-212 | Every listed host that validates ends up seen this cycle or a cluster alias. |
| Discovery.FoldFriendsAdds | client/src/com/aerospike/client/cluster/Node.java:215-256 | New pending names are validated names that no published node has. New aliases are hosts validated with a published name. New seen hosts are hosts that validated. |
| Discovery.FoldFriendsSkipsSeen | client/src/com/aerospike/client/cluster/Node.java:200-208 | Hosts already seen or already aliases change nothing. |
| Discovery.TwoNewFriends | client/src/com/aerospike/client/cluster/Node.java:215-248 | Two hosts validating as two new servers give two pending names and no alias. |
| Discovery.FirstIdentity | client/src/com/aerospike/client/cluster/Node.java:279-302 | An identity is found iff some host validates. |
| Discovery.PeerStep | client/src/com/aerospike/client/cluster/Node.java:272-309 | A known peer name gives no attempt and no node. The hosts tried are a prefix of the peer's hosts, all but the last failing. A created identity is the last host's, under a name not known before. |
| Discovery.WalkPeersStep | client/src/com/aerospike/client/cluster/Node.java:272-309 | The walk over one more peer is one `PeerStep` more, seeing the names created so far. |
| Discovery.WalkPeers | client/src/com/aerospike/client/cluster/Node.java:272-309 | The peers pass over the list, one `PeerStep` per peer, each seeing the names created before it. It creates at most one identity per peer. |
| Discovery.WalkCreatesDistinctNewNames | client/src/com/aerospike/client/cluster/Node.java:272-309 | The peers pass creates nodes under distinct names, none already known: no duplicate node per name. |
| Discovery.WalkSkipsKnownPeers | client/src/com/aerospike/client/cluster/Node.java:272-276 | A list of known peers makes no connection attempt and creates nothing. |
| Discovery.WalkCovers | client/src/com/aerospike/client/cluster/Node.java:272-309 | After the pass, every peer is accounted for in one of three ways: its name is known or created; no host of it validated; or its validated name is known or created. |

## Left out

- Sockets, TLS, `InetSocketAddress`, `Info.request`, `NodeValidator.validateNode`, `PeerParser`, `PartitionParser` and `AdminCommand.authenticate` are network or parsing calls. Their results are method parameters: an `Option` for a call that can throw, or a `bool` or function for an outcome.
- Concurrency (`AtomicInteger`, `volatile active`, `ArrayBlockingQueue`) is modelled as one sequential caller. The capacity bound is an invariant of each operation, not a race-freedom proof.
- The tend connection object is modelled as the `tendClosed` flag. Whether reopening it worked is the `reconnected` parameter of `Refresh`.
- Logging, `finalize`, `toString`, `hashCode`, `equals`, and the plain getters (`getHost`, `isActive`, `getName`, `getAddress`) are left out.
- `Connection.isValid`, `setTimeout` and `updateLastUsed` are modelled as the `valid` predicate and the `timeoutSet` flag. A connection is an abstract id.
- `Integer.parseInt` is modelled for ASCII digits only. Java also accepts other Unicode decimal digits.
- The validator is a function, so validating the same host twice in one cycle gives the same answer.
- `cluster.createNode` is modelled as the `Node` constructor. The pool capacity is at least 1 (the `Capacity` type), as `ArrayBlockingQueue` requires (Node.java:83).
- `Tend.Node.GetConnection`, `Tend.Node.PutConnection` and `Tend.Node.CloseConnection` require that a connection returned or closed be one handed out by `getConnection` and not yet returned. This is the sequential protocol under which the count bound holds.
- `Tend.Node.FindPeerNode`: on a hit it states the bump of the node found, but not that every other node's reference count is left alone.
- `Tend.Node.RefreshPeers`, `Tend.Node.VisitPeers` and `Tend.Node.ConnectPeer` state the pending table, the created nodes and the hosts tried. They do not state the reference counts that repeated lookups bump.
- `Tend.Node.VisitPeer`: the same gap as `VisitPeers`; the reference counts bumped by the lookups of one turn are not stated.
- `Tend.Node.Refresh`, `Tend.Node.AddFriends` and `Tend.Node.AddFriendEntries` state the discovery tables by their keys (`FoldFriends`). Alias lists and reference counts are stated one host at a time, by `Tend.Node.AddFriend` and `Tend.Node.PrepareFriend`, not over a whole services list.
- `Tend.Node.RefreshFrom`: like `Refresh`, it states the discovery tables of the legacy pass by their keys only, not the alias lists, reference counts or created nodes.
- `Tend.Node.RunChecks`: like `Refresh`, it states the discovery tables of the legacy pass by their keys only, not the alias lists, reference counts or created nodes.
- `failures`, `referenceCount` and `peers.refreshCount` are Java `int`s (Node.java:62-63, 119, 310, 362), which wrap past 2^31 - 1. The model counts them as unbounded integers. Wrapping would need about 2^31 increments within one node's life or one tend cycle.
- The ghost `tried` results (the hosts a peers pass hands to the validator) are bookkeeping for the contracts. They have no counterpart in the Java code.

/**
 * A server node of the client's cluster view: its health state machine
 * (refresh), its part in peer discovery (addFriends, prepareFriend,
 * refreshPeers, findPeerNode), the partition-refresh gate and its bounded
 * connection pool. The cluster's node and alias tables and the per-cycle
 * Peers scratch are the shared state these methods update in place.
 */
module Tend {

  import opened Wrappers
  import opened Seqs
  import opened Strings
  import opened Types
  import opened Info
  import opened Discovery
  import Capabilities

  /**
   * A node's pool capacity. The pool is an ArrayBlockingQueue, which rejects
   * a capacity below 1, so no node exists in a cluster configured with less.
   */
  type Capacity = n: nat | n >= 1 witness 1

  /**
   * The part of the cluster a node works with: fixed configuration, the
   * published node table (name to node), the alias table (host to node) and
   * the shared partition map.
   */
  class Cluster {
    const connectionQueueSize: Capacity
    const useServicesAlternate: bool
    const ipMap: Option<map<string, string>>
    const hasUser: bool
    var nodesMap: map<string, Node>
    var aliases: map<Host, Node>
    var partitionMap: PartitionMap

    constructor (connectionQueueSize: Capacity, useServicesAlternate: bool, ipMap: Option<map<string, string>>, hasUser: bool)
      ensures this.connectionQueueSize == connectionQueueSize && this.useServicesAlternate == useServicesAlternate
      ensures this.ipMap == ipMap && this.hasUser == hasUser
      ensures nodesMap == map[] && aliases == map[] && partitionMap == PartitionMap(map[])
    {
      this.connectionQueueSize := connectionQueueSize;
      this.useServicesAlternate := useServicesAlternate;
      this.ipMap := ipMap;
      this.hasUser := hasUser;
      nodesMap := map[];
      aliases := map[];
      partitionMap := PartitionMap(map[]);
    }
  }

  /** The scratch state of one tend cycle. */
  class Peers {
    const usePeers: bool
    var hosts: set<Host>
    var nodes: map<string, Node>
    var refreshCount: int
    var genChanged: bool

    constructor (usePeers: bool)
      ensures this.usePeers == usePeers
      ensures hosts == {} && nodes == map[] && refreshCount == 0 && !genChanged
    {
      this.usePeers := usePeers;
      hosts := {};
      nodes := map[];
      refreshCount := 0;
      genChanged := false;
    }
  }

  /**
   * One node per name: both node tables are keyed by the node's own name,
   * a name is published or pending but never both, and every cluster alias
   * points at a published node.
   */
  ghost predicate Dedup(cluster: Cluster, peers: Peers)
    reads cluster, peers
  {
    && (forall k :: k in cluster.nodesMap ==> cluster.nodesMap[k].name == k)
    && (forall k :: k in peers.nodes ==> peers.nodes[k].name == k)
    && cluster.nodesMap.Keys !! peers.nodes.Keys
    && (forall h :: h in cluster.aliases ==>
          cluster.aliases[h].name in cluster.nodesMap && cluster.nodesMap[cluster.aliases[h].name] == cluster.aliases[h])
  }

  /** The key sets of the tables the legacy discovery pass updates. */
  ghost function FriendView(cluster: Cluster, peers: Peers): FriendState
    reads cluster, peers
  {
    FriendState(peers.hosts, peers.nodes.Keys, cluster.aliases.Keys)
  }

  /**
   * Whether node is what the Node constructor builds for the validated
   * identity nv: the identity's name, address, aliases and capabilities;
   * active, with an open tend connection, no generation seen, no failure
   * and an empty pool. The reference count is left out: lookups later in
   * the same discovery pass may bump it.
   */
  ghost predicate CreatedFor(node: Node, nv: NodeIdentity, cluster: Cluster)
    reads node`aliases, node`tendClosed, node`peersGeneration, node`partitionGeneration, node`peersCount
    reads node`failures, node`partitionChanged, node`active
    reads node`queue, node`connectionCount, node`outstanding, node`leaked
  {
    MadeFor(node, nv, cluster) && node.aliases == nv.aliases && Pristine(node)
  }

  /** The constant part of CreatedFor: node carries the identity nv. */
  predicate MadeFor(node: Node, nv: NodeIdentity, cluster: Cluster)
  {
    node.cluster == cluster && node.name == nv.name && node.host == nv.primaryHost && node.features == nv.features
  }

  /** The state part of CreatedFor: active, nothing seen or failed yet, an empty pool. */
  ghost predicate Pristine(node: Node)
    reads node`tendClosed, node`peersGeneration, node`partitionGeneration, node`peersCount
    reads node`failures, node`partitionChanged, node`active
    reads node`queue, node`connectionCount, node`outstanding, node`leaked
  {
    && node.active && !node.tendClosed && node.peersGeneration == -1 && node.partitionGeneration == -1
    && node.peersCount == 0 && node.failures == 0 && !node.partitionChanged
    && node.queue == [] && node.connectionCount == 0 && node.outstanding == {} && node.leaked == 0
  }

  /** A node discovery creates can hand out connections: its pool accounting holds from the start. */
  lemma CreatedPoolValid(node: Node, nv: NodeIdentity, cluster: Cluster)
    requires CreatedFor(node, nv, cluster)
    ensures node.PoolValid()
  {
  }

  /** Every node of nodes outside touched keeps its aliases and its reference count. */
  twostate predicate OthersKept(nodes: set<Node>, touched: set<Node>)
    reads nodes
  {
    forall n :: n in nodes && n !in touched ==> n.aliases == old(n.aliases) && n.referenceCount == old(n.referenceCount)
  }

  /**
   * What prepareFriend does with host h; others are the nodes of both
   * tables before the call. A host that fails validation changes nothing.
   * A name pending this cycle gives that node the alias; a published name
   * gives that node the alias and a reference and makes h a cluster alias;
   * any other name gets one new pending node as the constructor builds it.
   * No other node changes.
   */
  twostate predicate Prepared(cluster: Cluster, peers: Peers, h: Host, validate: Validator, others: set<Node>)
    reads cluster, peers, peers.nodes.Values, cluster.nodesMap.Values, others
  {
    match validate(h)
    case None => unchanged(peers, cluster) && unchanged(others)
    case Some(nv) =>
      && cluster.nodesMap == old(cluster.nodesMap)
      && if nv.name in old(peers.nodes) then
        && nv.name in peers.nodes
        && peers.nodes == old(peers.nodes) && cluster.aliases == old(cluster.aliases)
        && peers.nodes[nv.name].aliases == old(peers.nodes[nv.name].aliases) + [h]
        && peers.nodes[nv.name].referenceCount == old(peers.nodes[nv.name].referenceCount)
        && OthersKept(others, {peers.nodes[nv.name]})
      else if nv.name in cluster.nodesMap then
        var node := cluster.nodesMap[nv.name];
        && peers.nodes == old(peers.nodes)
        && node.aliases == old(node.aliases) + [h]
        && node.referenceCount == old(node.referenceCount) + 1
        && cluster.aliases == old(cluster.aliases)[h := node]
        && OthersKept(others, {node})
      else
        && nv.name in peers.nodes && fresh(peers.nodes[nv.name])
        && CreatedFor(peers.nodes[nv.name], nv, cluster) && peers.nodes[nv.name].referenceCount == 0
        && peers.nodes == old(peers.nodes)[nv.name := peers.nodes[nv.name]]
        && cluster.aliases == old(cluster.aliases)
        && OthersKept(others, {})
  }

  /** Under Dedup, two nodes of the tables with the same name are the same node. */
  lemma UniqueNodePerName(cluster: Cluster, peers: Peers, a: Node, b: Node)
    requires Dedup(cluster, peers)
    requires a in cluster.nodesMap.Values || a in peers.nodes.Values
    requires b in cluster.nodesMap.Values || b in peers.nodes.Values
    ensures a.name == b.name ==> a == b
  {
    var ka :| (ka in cluster.nodesMap && cluster.nodesMap[ka] == a) || (ka in peers.nodes && peers.nodes[ka] == a);
    var kb :| (kb in cluster.nodesMap && cluster.nodesMap[kb] == b) || (kb in peers.nodes && peers.nodes[kb] == b);
    assert ka == a.name && kb == b.name;
  }

  /**
   * The pending table nodes grew from nodes0 by one node per identity of
   * created, each carrying that identity and its aliases, and nothing else
   * changed.
   */
  ghost predicate Extends(nodes0: map<string, Node>, nodes: map<string, Node>, created: seq<NodeIdentity>, cluster: Cluster)
    reads nodes.Values`aliases
  {
    && nodes.Keys == nodes0.Keys + Names(created)
    && (forall k :: k in nodes0 ==> k in nodes && nodes[k] == nodes0[k])
    && (forall j :: 0 <= j < |created| ==>
          && created[j].name in nodes && MadeFor(nodes[created[j].name], created[j], cluster)
          && nodes[created[j].name].aliases == created[j].aliases)
  }

  /** One more peer visited: the table gains the node made for it, if any. */
  lemma ExtendsStep(nodes0: map<string, Node>, before: map<string, Node>, after: map<string, Node>,
                    created: seq<NodeIdentity>, o: Option<NodeIdentity>, cluster: Cluster)
    requires Extends(nodes0, before, created, cluster)
    requires o.None? ==> after == before
    requires o.Some? ==>
      && o.value.name !in before && o.value.name in after
      && after == before[o.value.name := after[o.value.name]]
      && MadeFor(after[o.value.name], o.value, cluster) && after[o.value.name].aliases == o.value.aliases
    ensures Extends(nodes0, after, created + OptionSeq(o), cluster)
  {
    NamesAppend(created, o);
    var all := created + OptionSeq(o);
    if o.Some? {
      forall j | 0 <= j < |all|
        ensures all[j].name in after && MadeFor(after[all[j].name], all[j], cluster) && after[all[j].name].aliases == all[j].aliases
      {
        if j < |created| {
          assert all[j] == created[j];
          assert created[j].name in Names(created);
        } else {
          assert all[j] == o.value;
        }
      }
    } else {
      assert all == created;
    }
  }

  /**
   * What one refresh's checks read from a response, in the order they run:
   * the peers generation (peers protocol only), the partition generation,
   * whether the services list was folded in (legacy protocol only) and
   * whether every check passed. A check runs only when the ones before it
   * passed.
   */
  datatype CheckRun = CheckRun(peersGen: Option<int>, partitionGen: Option<int>, friends: bool, ok: bool)

  function ChecksOf(info: InfoMap, name: string, usePeers: bool, alternate: bool, ipMap: Option<map<string, string>>): (r: CheckRun)
    ensures r.ok ==> CheckName(info, name) == NameMatches && r.partitionGen.Some?
    ensures r.peersGen.Some? ==> usePeers && CheckName(info, name) == NameMatches
    ensures r.friends ==> !usePeers && r.partitionGen.Some?
    ensures usePeers ==> (r.ok <==> r.partitionGen.Some?)
  {
    var named := CheckName(info, name) == NameMatches;
    var peersGen := if named && usePeers then Generation(info, PEERS_GENERATION) else None;
    var partitionGen := if named && (!usePeers || peersGen.Some?) then Generation(info, PARTITION_GENERATION) else None;
    var friends := partitionGen.Some? && !usePeers;
    CheckRun(peersGen, partitionGen, friends, partitionGen.Some? && (usePeers || FriendsParse(info, alternate, ipMap)))
  }

  /**
   * A refresh passes exactly when the name matches, the partition generation
   * reads, and either (peers protocol) the peers generation reads or (legacy
   * protocol) every services entry parses.
   */
  lemma ChecksPass(info: InfoMap, name: string, usePeers: bool, alternate: bool, ipMap: Option<map<string, string>>)
    ensures ChecksOf(info, name, usePeers, alternate, ipMap).ok <==>
      && CheckName(info, name) == NameMatches
      && Generation(info, PARTITION_GENERATION).Some?
      && (if usePeers then Generation(info, PEERS_GENERATION).Some? else FriendsParse(info, alternate, ipMap))
  {
  }

  class Node {
    const cluster: Cluster
    const name: string
    const host: Host
    const features: bv32
    var aliases: seq<Host>
    /** Whether the tend connection is closed. */
    var tendClosed: bool
    var peersGeneration: int
    var partitionGeneration: int
    var peersCount: int
    var referenceCount: int
    var failures: int
    var partitionChanged: bool
    var active: bool

    /** The idle pool, oldest first. */
    var queue: seq<Connection>
    /** Connections attributed to this node: pooled and checked out. */
    var connectionCount: int
    /** The connections handed out by getConnection and not yet returned or closed. */
    ghost var outstanding: set<Connection>
    /** Idle connections that closeConnections closed without releasing their count. */
    ghost var leaked: nat

    /**
     * The pool accounting: the count is the idle connections plus the
     * checked-out ones (plus those dropped by closeConnections), it never
     * exceeds the capacity, and no connection is pooled twice or pooled while
     * checked out.
     */
    ghost predicate PoolValid()
      reads this`queue, this`connectionCount, this`outstanding, this`leaked
    {
      && connectionCount == |queue| + |outstanding| + leaked
      && connectionCount <= cluster.connectionQueueSize
      && (forall i, j :: 0 <= i < j < |queue| ==> queue[i] != queue[j])
      && (forall i :: 0 <= i < |queue| ==> queue[i] !in outstanding)
    }

    /** A node for a validated identity: active, with no generation seen yet and an empty pool. */
    constructor (cluster: Cluster, nv: NodeIdentity)
      ensures CreatedFor(this, nv, cluster) && referenceCount == 0
      ensures PoolValid()
    {
      this.cluster := cluster;
      name := nv.name;
      aliases := nv.aliases;
      host := nv.primaryHost;
      features := nv.features;
      tendClosed := false;
      queue := [];
      connectionCount := 0;
      outstanding := {};
      leaked := 0;
      peersGeneration := -1;
      partitionGeneration := -1;
      peersCount := 0;
      referenceCount := 0;
      failures := 0;
      partitionChanged := false;
      active := true;
    }

    // ------------------------------------------------------------ refresh

    /**
     * Refreshes the node's health from one info response. An inactive node
     * is left alone. Otherwise the tend connection is reopened if closed
     * (reconnected says whether that worked), the response info is read
     * (None when the request failed) and checked in order; the first check
     * that fails ends the refresh as a failure.
     */
    method Refresh(peers: Peers, reconnected: bool, info: Option<InfoMap>, validate: Validator)
      requires Dedup(cluster, peers)
      modifies this`active, this`failures, this`tendClosed, this`partitionChanged, this`peersCount
      modifies peers`genChanged, peers`refreshCount, peers`hosts, peers`nodes, cluster`aliases
      modifies peers.nodes.Values`aliases, cluster.nodesMap.Values`aliases, cluster.nodesMap.Values`referenceCount
      ensures Dedup(cluster, peers)
      ensures active ==> old(active)
      ensures peersGeneration == old(peersGeneration) && partitionGeneration == old(partitionGeneration)
      ensures !old(active) ==> unchanged(this) && unchanged(peers) && unchanged(cluster)
      ensures !old(active) ==> unchanged(old(peers.nodes.Values + cluster.nodesMap.Values))
      ensures old(active) ==>
        var answered := (!old(tendClosed) || reconnected) && info.Some?;
        var run := if answered then ChecksOf(info.value, name, peers.usePeers, cluster.useServicesAlternate, cluster.ipMap)
                   else CheckRun(None, None, false, false);
        && active == !(answered && CheckName(info.value, name).NameChanged?)
        && failures == (if run.ok then 0 else old(failures) + 1)
        && tendClosed == !run.ok
        && peers.refreshCount == old(peers.refreshCount) + (if run.ok then 1 else 0)
        && peers.genChanged == (old(peers.genChanged) || (run.peersGen.Some? && run.peersGen.value != peersGeneration))
        && partitionChanged == (old(partitionChanged) || (run.partitionGen.Some? && run.partitionGen.value != partitionGeneration))
        && peersCount == (if run.friends then |FriendEntries(info.value, cluster.useServicesAlternate)| else old(peersCount))
        && FriendView(cluster, peers) ==
             (if run.friends
              then FoldFriends(old(FriendView(cluster, peers)),
                               ParsedFriends(FriendEntries(info.value, cluster.useServicesAlternate), cluster.ipMap),
                               cluster.nodesMap.Keys, validate)
              else old(FriendView(cluster, peers)))
      ensures
        var answered := (!old(tendClosed) || reconnected) && info.Some?;
        !(answered && ChecksOf(info.value, name, peers.usePeers, cluster.useServicesAlternate, cluster.ipMap).friends) ==>
          && peers.hosts == old(peers.hosts) && peers.nodes == old(peers.nodes) && cluster.aliases == old(cluster.aliases)
          && OthersKept(old(peers.nodes.Values + cluster.nodesMap.Values), {})
    {
      if !active {
        return;
      }
      if tendClosed && !reconnected {
        RefreshFailed();
        return;
      }
      tendClosed := false;
      if info.None? {
        RefreshFailed();
        return;
      }
      RefreshFrom(info.value, peers, validate);
    }

    /** The rest of refresh once a response has arrived: the checks, then the success or failure accounting. */
    method RefreshFrom(info: InfoMap, peers: Peers, validate: Validator)
      requires Dedup(cluster, peers) && !tendClosed
      modifies this`active, this`failures, this`tendClosed, this`partitionChanged, this`peersCount
      modifies peers`genChanged, peers`refreshCount, peers`hosts, peers`nodes, cluster`aliases
      modifies peers.nodes.Values`aliases, cluster.nodesMap.Values`aliases, cluster.nodesMap.Values`referenceCount
      ensures Dedup(cluster, peers)
      ensures
        var run := ChecksOf(info, name, peers.usePeers, cluster.useServicesAlternate, cluster.ipMap);
        && active == (old(active) && !CheckName(info, name).NameChanged?)
        && failures == (if run.ok then 0 else old(failures) + 1)
        && tendClosed == !run.ok
        && peers.refreshCount == old(peers.refreshCount) + (if run.ok then 1 else 0)
        && peers.genChanged == (old(peers.genChanged) || (run.peersGen.Some? && run.peersGen.value != peersGeneration))
        && partitionChanged == (old(partitionChanged) || (run.partitionGen.Some? && run.partitionGen.value != partitionGeneration))
        && peersCount == (if run.friends then |FriendEntries(info, cluster.useServicesAlternate)| else old(peersCount))
        && FriendView(cluster, peers) ==
             (if run.friends
              then FoldFriends(old(FriendView(cluster, peers)),
                               ParsedFriends(FriendEntries(info, cluster.useServicesAlternate), cluster.ipMap),
                               cluster.nodesMap.Keys, validate)
              else old(FriendView(cluster, peers)))
        && (!run.friends ==>
              && peers.hosts == old(peers.hosts) && peers.nodes == old(peers.nodes) && cluster.aliases == old(cluster.aliases)
              && OthersKept(old(peers.nodes.Values + cluster.nodesMap.Values), {}))
    {
      var ok := RunChecks(info, peers, validate);
      if ok {
        peers.refreshCount := peers.refreshCount + 1;
        failures := 0;
      } else {
        RefreshFailed();
      }
    }

    /**
     * The checks of one refresh on a received response, in order: the node
     * name, then (peers protocol) the peers and partition generations, or
     * (legacy protocol) the partition generation and the services list.
     */
    method RunChecks(info: InfoMap, peers: Peers, validate: Validator) returns (ok: bool)
      requires Dedup(cluster, peers)
      modifies this`active, this`partitionChanged, this`peersCount
      modifies peers`genChanged, peers`hosts, peers`nodes, cluster`aliases
      modifies peers.nodes.Values`aliases, cluster.nodesMap.Values`aliases, cluster.nodesMap.Values`referenceCount
      ensures Dedup(cluster, peers)
      ensures
        var run := ChecksOf(info, name, peers.usePeers, cluster.useServicesAlternate, cluster.ipMap);
        && ok == run.ok
        && active == (old(active) && !CheckName(info, name).NameChanged?)
        && peers.genChanged == (old(peers.genChanged) || (run.peersGen.Some? && run.peersGen.value != peersGeneration))
        && partitionChanged == (old(partitionChanged) || (run.partitionGen.Some? && run.partitionGen.value != partitionGeneration))
        && peersCount == (if run.friends then |FriendEntries(info, cluster.useServicesAlternate)| else old(peersCount))
        && FriendView(cluster, peers) ==
             (if run.friends
              then FoldFriends(old(FriendView(cluster, peers)),
                               ParsedFriends(FriendEntries(info, cluster.useServicesAlternate), cluster.ipMap),
                               cluster.nodesMap.Keys, validate)
              else old(FriendView(cluster, peers)))
        && (!run.friends ==>
              && peers.hosts == old(peers.hosts) && peers.nodes == old(peers.nodes) && cluster.aliases == old(cluster.aliases)
              && OthersKept(old(peers.nodes.Values + cluster.nodesMap.Values), {}))
    {
      ok := VerifyNodeName(info);
      if ok {
        if peers.usePeers {
          ok := VerifyPeersGeneration(info, peers);
          if ok {
            ok := VerifyPartitionGeneration(info);
          }
        } else {
          ok := VerifyPartitionGeneration(info);
          if ok {
            ok := AddFriends(info, peers, validate);
          }
        }
      }
    }

    /**
     * verifyNodeName: a missing or empty name fails the refresh; a different
     * name also deactivates the node at once (its host now reaches another
     * server); only the node's own name passes.
     */
    method VerifyNodeName(info: InfoMap) returns (ok: bool)
      modifies this`active
      ensures ok <==> CheckName(info, name) == NameMatches
      ensures active == (old(active) && !CheckName(info, name).NameChanged?)
    {
      if NODE !in info || info[NODE] == "" {
        return false;
      }
      if name != info[NODE] {
        active := false;
        return false;
      }
      return true;
    }

    /** verifyPeersGeneration: fails on a missing, empty or malformed field; flags the cycle when the generation moved. */
    method VerifyPeersGeneration(info: InfoMap, peers: Peers) returns (ok: bool)
      modifies peers`genChanged
      ensures ok <==> Generation(info, PEERS_GENERATION).Some?
      ensures peers.genChanged == (old(peers.genChanged) || (ok && Generation(info, PEERS_GENERATION).value != peersGeneration))
    {
      var gen := Generation(info, PEERS_GENERATION);
      if gen.None? {
        return false;
      }
      if peersGeneration != gen.value {
        peers.genChanged := true;
      }
      return true;
    }

    /** verifyPartitionGeneration: fails on a missing, empty or malformed field; flags the node when the generation moved. */
    method VerifyPartitionGeneration(info: InfoMap) returns (ok: bool)
      modifies this`partitionChanged
      ensures ok <==> Generation(info, PARTITION_GENERATION).Some?
      ensures partitionChanged == (old(partitionChanged) || (ok && Generation(info, PARTITION_GENERATION).value != partitionGeneration))
    {
      var gen := Generation(info, PARTITION_GENERATION);
      if gen.None? {
        return false;
      }
      if partitionGeneration != gen.value {
        partitionChanged := true;
      }
      return true;
    }

    /** refreshFailed: one more failure, and the tend connection is closed. */
    method RefreshFailed()
      modifies this`failures, this`tendClosed
      ensures failures == old(failures) + 1 && tendClosed
    {
      failures := failures + 1;
      tendClosed := true;
    }

    // ------------------------------------------------- legacy discovery

    /**
     * addFriends: records how many services entries the response lists and
     * folds their hosts into the tables in order. An entry that does not
     * parse ends the pass as a failure, with the entries before it already
     * folded in.
     */
    method AddFriends(info: InfoMap, peers: Peers, validate: Validator) returns (ok: bool)
      requires Dedup(cluster, peers)
      modifies this`peersCount, peers`hosts, peers`nodes, cluster`aliases
      modifies peers.nodes.Values`aliases, cluster.nodesMap.Values`aliases, cluster.nodesMap.Values`referenceCount
      ensures Dedup(cluster, peers)
      ensures peersCount == |FriendEntries(info, cluster.useServicesAlternate)|
      ensures ok <==> FriendsParse(info, cluster.useServicesAlternate, cluster.ipMap)
      ensures FriendView(cluster, peers) ==
        FoldFriends(old(FriendView(cluster, peers)),
                    ParsedFriends(FriendEntries(info, cluster.useServicesAlternate), cluster.ipMap),
                    cluster.nodesMap.Keys, validate)
    {
      var key := ServicesKey(cluster.useServicesAlternate);
      if key !in info || info[key] == "" {
        peersCount := 0;
        return true;
      }
      var friendNames := JavaSplit(info[key], ';');
      assert friendNames == FriendEntries(info, cluster.useServicesAlternate);
      peersCount := |friendNames|;
      ok := AddFriendEntries(friendNames, peers, validate);
    }

    /**
     * The loop of addFriends: parses each entry in order and folds its host
     * in; returns false at the first entry that does not parse.
     */
    method AddFriendEntries(friendNames: seq<string>, peers: Peers, validate: Validator) returns (ok: bool)
      requires Dedup(cluster, peers)
      modifies peers`hosts, peers`nodes, cluster`aliases
      modifies peers.nodes.Values`aliases, cluster.nodesMap.Values`aliases, cluster.nodesMap.Values`referenceCount
      ensures Dedup(cluster, peers)
      ensures ok <==> ParsedCount(friendNames, cluster.ipMap) == |friendNames|
      ensures FriendView(cluster, peers) ==
        FoldFriends(old(FriendView(cluster, peers)), ParsedFriends(friendNames, cluster.ipMap), cluster.nodesMap.Keys, validate)
    {
      ghost var st0 := FriendView(cluster, peers);
      ghost var hosts := ParsedFriends(friendNames, cluster.ipMap);
      for i := 0 to |friendNames|
        invariant i <= |hosts|
        invariant Dedup(cluster, peers)
        invariant forall k :: k in peers.nodes ==> peers.nodes[k] in old(peers.nodes.Values) || fresh(peers.nodes[k])
        invariant FriendView(cluster, peers) == FoldFriends(st0, hosts[..i], cluster.nodesMap.Keys, validate)
      {
        var parsed := ParseFriend(friendNames[i], cluster.ipMap);
        if parsed.None? {
          FirstIndexUnique(friendNames, Unparsable(cluster.ipMap), i);
          assert hosts[..i] == hosts;
          return false;
        }
        assert i < |hosts|;
        FoldFriendsStep(st0, hosts, i, cluster.nodesMap.Keys, validate);
        AddFriend(parsed.value, peers, validate);
      }
      assert hosts[..|friendNames|] == hosts;
      return true;
    }

    /**
     * One turn of addFriends' loop: a host of the cluster alias table only
     * gains its node a reference; a host already seen this cycle is skipped;
     * any other host goes to prepareFriend.
     */
    method AddFriend(h: Host, peers: Peers, validate: Validator)
      requires Dedup(cluster, peers)
      modifies peers`hosts, peers`nodes, cluster`aliases
      modifies peers.nodes.Values`aliases, cluster.nodesMap.Values`aliases, cluster.nodesMap.Values`referenceCount
      ensures Dedup(cluster, peers)
      ensures FriendView(cluster, peers) == FriendStep(old(FriendView(cluster, peers)), h, cluster.nodesMap.Keys, validate)
      ensures forall k :: k in peers.nodes ==> peers.nodes[k] in old(peers.nodes.Values) || fresh(peers.nodes[k])
      ensures
        var others := old(peers.nodes.Values + cluster.nodesMap.Values);
        if old(h in cluster.aliases) then
          && unchanged(peers, cluster)
          && cluster.aliases[h].referenceCount == old(cluster.aliases[h].referenceCount) + 1
          && cluster.aliases[h].aliases == old(cluster.aliases[h].aliases)
          && OthersKept(others, {cluster.aliases[h]})
        else if old(h in peers.hosts) then
          unchanged(peers, cluster) && unchanged(others)
        else
          Prepared(cluster, peers, h, validate, others)
    {
      if h in cluster.aliases {
        var node := cluster.aliases[h];
        assert node == cluster.nodesMap[node.name];
        node.referenceCount := node.referenceCount + 1;
      } else if h !in peers.hosts {
        var accepted := PrepareFriend(h, peers, validate);
      }
    }

    /**
     * prepareFriend: validates a host. A name already pending this cycle
     * gets the host as one more alias; a published name gets the alias, a
     * reference and a cluster alias entry; any other name becomes one new
     * pending node. The host is then seen. A host that fails validation
     * changes nothing.
     */
    method PrepareFriend(h: Host, peers: Peers, validate: Validator) returns (ok: bool)
      requires Dedup(cluster, peers)
      modifies peers`hosts, peers`nodes, cluster`aliases
      modifies peers.nodes.Values`aliases, cluster.nodesMap.Values`aliases, cluster.nodesMap.Values`referenceCount
      ensures Dedup(cluster, peers)
      ensures ok <==> validate(h).Some?
      ensures FriendView(cluster, peers) == AcceptFriend(old(FriendView(cluster, peers)), h, old(cluster.nodesMap.Keys), validate)
      ensures Prepared(cluster, peers, h, validate, old(peers.nodes.Values + cluster.nodesMap.Values))
    {
      var validated := validate(h);
      if validated.None? {
        return false;
      }
      var nv := validated.value;
      if nv.name in peers.nodes {
        // The services list named the same server twice (internal and external addresses).
        AliasPending(h, peers.nodes[nv.name], peers);
      } else if nv.name in cluster.nodesMap {
        AliasPublished(h, cluster.nodesMap[nv.name], peers);
      } else {
        AddPending(h, nv, peers);
      }
      return true;
    }

    /** prepareFriend for a name neither table knows: the host is seen and a new node for nv is pending. */
    method AddPending(h: Host, nv: NodeIdentity, peers: Peers)
      modifies peers`hosts, peers`nodes
      ensures peers.hosts == old(peers.hosts) + {h}
      ensures nv.name in peers.nodes && fresh(peers.nodes[nv.name])
      ensures CreatedFor(peers.nodes[nv.name], nv, cluster) && peers.nodes[nv.name].referenceCount == 0
      ensures peers.nodes == old(peers.nodes)[nv.name := peers.nodes[nv.name]]
    {
      peers.hosts := peers.hosts + {h};
      AddNode(nv, peers);
    }

    /** prepareFriend for a name pending this cycle: the host is seen and becomes the node's alias. */
    static method AliasPending(h: Host, node: Node, peers: Peers)
      modifies peers`hosts, node`aliases
      ensures peers.hosts == old(peers.hosts) + {h} && node.aliases == old(node.aliases) + [h]
    {
      peers.hosts := peers.hosts + {h};
      node.aliases := node.aliases + [h];
    }

    /**
     * prepareFriend for a published name: the host is seen and becomes the
     * node's alias and a cluster alias; the node gains a reference.
     */
    method AliasPublished(h: Host, node: Node, peers: Peers)
      modifies peers`hosts, node`aliases, node`referenceCount, cluster`aliases
      ensures peers.hosts == old(peers.hosts) + {h} && node.aliases == old(node.aliases) + [h]
      ensures node.referenceCount == old(node.referenceCount) + 1 && cluster.aliases == old(cluster.aliases)[h := node]
    {
      peers.hosts := peers.hosts + {h};
      node.aliases := node.aliases + [h];
      node.referenceCount := node.referenceCount + 1;
      cluster.aliases := cluster.aliases[h := node];
    }

    // ---------------------------------------------------- peers discovery

    /**
     * findPeerNode: looks a name up in the published table, then in the
     * pending one; a hit gains that node a reference.
     */
    static method FindPeerNode(cluster: Cluster, peers: Peers, nodeName: string) returns (found: bool)
      modifies cluster.nodesMap.Values`referenceCount, peers.nodes.Values`referenceCount
      ensures found <==> nodeName in cluster.nodesMap || nodeName in peers.nodes
      ensures nodeName in cluster.nodesMap ==>
        cluster.nodesMap[nodeName].referenceCount == old(cluster.nodesMap[nodeName].referenceCount) + 1
      ensures nodeName !in cluster.nodesMap && nodeName in peers.nodes ==>
        peers.nodes[nodeName].referenceCount == old(peers.nodes[nodeName].referenceCount) + 1
      ensures !found ==> unchanged(cluster.nodesMap.Values, peers.nodes.Values)
      ensures forall n :: n in peers.nodes.Values ==> n.aliases == old(n.aliases)
      ensures forall n :: n in peers.nodes.Values && old(Pristine(n)) ==> Pristine(n)
    {
      if nodeName in cluster.nodesMap {
        var node := cluster.nodesMap[nodeName];
        node.referenceCount := node.referenceCount + 1;
        return true;
      }
      if nodeName in peers.nodes {
        var node := peers.nodes[nodeName];
        node.referenceCount := node.referenceCount + 1;
        return true;
      }
      return false;
    }

    /**
     * refreshPeers: skipped when this cycle's refresh already failed or the
     * node is inactive. Otherwise the peers response (None when it could not
     * be read, which fails the refresh) gives the peers generation and count,
     * and each peer is visited in order; the pass counts as one more
     * successful refresh. Each node it creates is new and as the constructor
     * builds it. tried lists the hosts handed to the validator.
     */
    method RefreshPeers(peers: Peers, response: Option<PeerList>, validate: Validator) returns (ghost tried: seq<Host>)
      requires Dedup(cluster, peers)
      modifies this`peersGeneration, this`peersCount, this`failures, this`tendClosed, peers`nodes, peers`refreshCount
      modifies cluster.nodesMap.Values`referenceCount, peers.nodes.Values`referenceCount
      ensures Dedup(cluster, peers)
      ensures old(failures > 0 || !active) ==>
        && failures == old(failures) && tendClosed == old(tendClosed) && peersGeneration == old(peersGeneration)
        && peersCount == old(peersCount) && unchanged(peers) && tried == []
        && unchanged(old(cluster.nodesMap.Values + peers.nodes.Values))
      ensures old(failures <= 0 && active) && response.None? ==>
        && failures == old(failures) + 1 && tendClosed && peersGeneration == old(peersGeneration)
        && peersCount == old(peersCount) && unchanged(peers) && tried == []
        && OthersKept(old(cluster.nodesMap.Values + peers.nodes.Values), {})
      ensures old(failures <= 0 && active) && response.Some? ==>
        var w := WalkPeers(response.value.peers, old(cluster.nodesMap.Keys + peers.nodes.Keys), validate);
        && failures == old(failures) && tendClosed == old(tendClosed)
        && peersGeneration == response.value.generation && peersCount == |response.value.peers|
        && peers.refreshCount == old(peers.refreshCount) + 1
        && tried == w.tried
        && Extends(old(peers.nodes), peers.nodes, w.created, cluster)
        && (forall k :: k in peers.nodes && k !in old(peers.nodes) ==> fresh(peers.nodes[k]) && Pristine(peers.nodes[k]))
    {
      if failures > 0 || !active {
        return [];
      }
      if response.None? {
        RefreshFailed();
        return [];
      }
      peersGeneration := response.value.generation;
      peersCount := |response.value.peers|;
      tried := VisitPeers(response.value.peers, peers, validate);
      peers.refreshCount := peers.refreshCount + 1;
    }

    /** The loop of refreshPeers: each peer in turn, seeing the nodes created for the ones before it. */
    method VisitPeers(list: seq<Peer>, peers: Peers, validate: Validator) returns (ghost tried: seq<Host>)
      requires Dedup(cluster, peers)
      modifies peers`nodes, cluster.nodesMap.Values`referenceCount, peers.nodes.Values`referenceCount
      ensures Dedup(cluster, peers)
      ensures
        var w := WalkPeers(list, old(cluster.nodesMap.Keys + peers.nodes.Keys), validate);
        && tried == w.tried
        && Extends(old(peers.nodes), peers.nodes, w.created, cluster)
        && (forall k :: k in peers.nodes && k !in old(peers.nodes) ==> fresh(peers.nodes[k]) && Pristine(peers.nodes[k]))
    {
      ghost var known := cluster.nodesMap.Keys + peers.nodes.Keys;
      ghost var nodes0 := peers.nodes;
      ghost var w := Walk([], []);
      for i := 0 to |list|
        invariant Dedup(cluster, peers)
        invariant forall k :: k in peers.nodes ==>
          (k in nodes0 && peers.nodes[k] == nodes0[k]) || (fresh(peers.nodes[k]) && Pristine(peers.nodes[k]))
        invariant w == WalkPeers(list[..i], known, validate)
        invariant Extends(nodes0, peers.nodes, w.created, cluster)
      {
        w := VisitPeer(list, i, peers, validate, known, nodes0, w);
      }
      assert list[..|list|] == list;
      tried := w.tried;
    }

    /** One turn of the loop of refreshPeers, with the walk so far. */
    method VisitPeer(list: seq<Peer>, i: nat, peers: Peers, validate: Validator,
                     ghost known: set<string>, ghost nodes0: map<string, Node>, ghost w: Walk)
      returns (ghost w': Walk)
      requires i < |list| && w == WalkPeers(list[..i], known, validate)
      requires known == cluster.nodesMap.Keys + nodes0.Keys
      requires Dedup(cluster, peers)
      requires Extends(nodes0, peers.nodes, w.created, cluster)
      modifies peers`nodes, cluster.nodesMap.Values`referenceCount, peers.nodes.Values`referenceCount
      ensures Dedup(cluster, peers)
      ensures w' == WalkPeers(list[..i + 1], known, validate)
      ensures Extends(nodes0, peers.nodes, w'.created, cluster)
      ensures forall k :: k in peers.nodes ==>
        || (k in old(peers.nodes) && peers.nodes[k] == old(peers.nodes[k]) && (old(Pristine(peers.nodes[k])) ==> Pristine(peers.nodes[k])))
        || (fresh(peers.nodes[k]) && Pristine(peers.nodes[k]))
    {
      WalkPeersStep(list, i, known, validate);
      ghost var step := PeerStep(list[i], known + Names(w.created), validate);
      assert cluster.nodesMap.Keys + peers.nodes.Keys == known + Names(w.created);
      ghost var before := peers.nodes;
      ghost var t := ConnectPeer(list[i], peers, validate);
      ExtendsStep(nodes0, before, peers.nodes, w.created, step.created, cluster);
      w' := Walk(w.created + OptionSeq(step.created), w.tried + t);
    }

    /**
     * One peer of refreshPeers: a peer the tables know is not connected to;
     * otherwise its hosts are tried in order until one validates, and a node
     * is created for that identity unless (the server reporting a name other
     * than the peer's) the tables know the reported name. tried lists the
     * hosts handed to the validator.
     */
    method ConnectPeer(p: Peer, peers: Peers, validate: Validator) returns (ghost tried: seq<Host>)
      requires Dedup(cluster, peers)
      modifies peers`nodes, cluster.nodesMap.Values`referenceCount, peers.nodes.Values`referenceCount
      ensures Dedup(cluster, peers)
      ensures
        var step := PeerStep(p, old(cluster.nodesMap.Keys + peers.nodes.Keys), validate);
        && tried == step.tried
        && (step.created.None? ==> peers.nodes == old(peers.nodes))
        && (step.created.Some? ==>
              var nv := step.created.value;
              && nv.name in peers.nodes && fresh(peers.nodes[nv.name])
              && CreatedFor(peers.nodes[nv.name], nv, cluster) && peers.nodes[nv.name].referenceCount == 0
              && peers.nodes == old(peers.nodes)[nv.name := peers.nodes[nv.name]])
      ensures forall n :: n in old(peers.nodes.Values) ==> n.aliases == old(n.aliases)
      ensures forall n :: n in old(peers.nodes.Values) && old(Pristine(n)) ==> Pristine(n)
    {
      ghost var known := cluster.nodesMap.Keys + peers.nodes.Keys;
      var hit := FindPeerNode(cluster, peers, p.nodeName);
      if hit {
        return [];
      }
      var validated;
      validated, tried := TryHosts(p.hosts, validate);
      if validated.None? {
        return;
      }
      var nv := validated.value;
      if p.nodeName != nv.name {
        // The peer list and the server disagree on the name: look the reported one up too.
        var dup := FindPeerNode(cluster, peers, nv.name);
        if dup {
          return;
        }
      }
      AddNode(nv, peers);
    }

    /** cluster.createNode followed by the put into the pending table. */
    method AddNode(nv: NodeIdentity, peers: Peers)
      modifies peers`nodes
      ensures nv.name in peers.nodes && fresh(peers.nodes[nv.name])
      ensures CreatedFor(peers.nodes[nv.name], nv, cluster) && peers.nodes[nv.name].referenceCount == 0
      ensures peers.nodes == old(peers.nodes)[nv.name := peers.nodes[nv.name]]
    {
      var node := new Node(cluster, nv);
      peers.nodes := peers.nodes[nv.name := node];
    }

    /**
     * The inner loop of refreshPeers: validates the hosts in order and stops
     * at the first that validates. tried lists the hosts handed to the
     * validator.
     */
    static method TryHosts(hosts: seq<Host>, validate: Validator) returns (validated: Option<NodeIdentity>, ghost tried: seq<Host>)
      ensures validated == FirstIdentity(hosts, validate)
      ensures var k := FirstIndex(hosts, Validates(validate));
        tried == if k < |hosts| then hosts[..k + 1] else hosts
    {
      tried := [];
      for j := 0 to |hosts|
        invariant tried == hosts[..j]
        invariant forall k :: 0 <= k < j ==> validate(hosts[k]).None?
      {
        tried := tried + [hosts[j]];
        validated := validate(hosts[j]);
        if validated.Some? {
          FirstIndexUnique(hosts, Validates(validate), j);
          return;
        }
      }
      FirstIndexUnique(hosts, Validates(validate), |hosts|);
      assert tried == hosts;
      return None, tried;
    }

    // ------------------------------------------------------- partitions

    /**
     * The split-cluster rule: no partition refresh after a failed refresh,
     * for an inactive node, or for a node that reports no peers once the
     * cluster has seen more than one node refresh this cycle (a node that
     * believes it is alone must not take over the partition map).
     */
    function PartitionRefreshSkipped(refreshCount: int): (skip: bool)
      reads this`failures, this`active, this`peersCount
      ensures failures > 0 || !active ==> skip
      ensures peersCount == 0 && refreshCount > 1 ==> skip
      ensures skip && failures <= 0 && active ==> peersCount == 0 && refreshCount > 1
    {
      failures > 0 || !active || (peersCount == 0 && refreshCount > 1)
    }

    /**
     * refreshPartitions: unless skipped, reads the partition response (None
     * when it could not be read, which fails the refresh), installs the
     * parser's map when the parser had to copy it and records the
     * generation.
     */
    method RefreshPartitions(peers: Peers, update: Option<PartitionUpdate>)
      modifies this`partitionGeneration, this`failures, this`tendClosed, cluster`partitionMap
      ensures old(PartitionRefreshSkipped(peers.refreshCount)) ==>
        && partitionGeneration == old(partitionGeneration) && failures == old(failures)
        && tendClosed == old(tendClosed) && cluster.partitionMap == old(cluster.partitionMap)
      ensures !old(PartitionRefreshSkipped(peers.refreshCount)) && update.None? ==>
        && partitionGeneration == old(partitionGeneration) && failures == old(failures) + 1
        && tendClosed && cluster.partitionMap == old(cluster.partitionMap)
      ensures !old(PartitionRefreshSkipped(peers.refreshCount)) && update.Some? ==>
        && partitionGeneration == update.value.generation && failures == old(failures)
        && tendClosed == old(tendClosed)
        && cluster.partitionMap == (if update.value.copied then update.value.partitions else old(cluster.partitionMap))
    {
      if PartitionRefreshSkipped(peers.refreshCount) {
        return;
      }
      if update.None? {
        RefreshFailed();
        return;
      }
      if update.value.copied {
        cluster.partitionMap := update.value.partitions;
      }
      partitionGeneration := update.value.generation;
    }

    // ------------------------------------------------------ capabilities

    /** hasBatchIndex: the server supports the batch index protocol. */
    function HasBatchIndex(): (b: bool)
      ensures b <==> Capabilities.BatchIndex in Capabilities.Decode(features)
    {
      features & Capabilities.HAS_BATCH_INDEX != 0
    }

    /** hasDouble: the server supports double particle types. */
    function HasDouble(): (b: bool)
      ensures b <==> Capabilities.Double in Capabilities.Decode(features)
    {
      features & Capabilities.HAS_DOUBLE != 0
    }

    /** hasReplicasAll: the server supports the replicas-all info command. */
    function HasReplicasAll(): (b: bool)
      ensures b <==> Capabilities.ReplicasAll in Capabilities.Decode(features)
    {
      features & Capabilities.HAS_REPLICAS_ALL != 0
    }

    /** hasPeers: the server supports the peers info command. */
    function HasPeers(): (b: bool)
      ensures b <==> Capabilities.Peers in Capabilities.Decode(features)
    {
      features & Capabilities.HAS_PEERS != 0
    }

    /** useNewBatch: the batch index protocol, unless the policy asks for direct batches. */
    function UseNewBatch(useBatchDirect: bool): (b: bool)
      ensures b <==> !useBatchDirect && Capabilities.BatchIndex in Capabilities.Decode(features)
    {
      !useBatchDirect && HasBatchIndex()
    }

    // ---------------------------------------------------- connection pool

    /**
     * closeConnection: retires a connection the caller holds; the node's
     * count drops by one.
     */
    method CloseConnection(conn: Connection)
      requires PoolValid() && conn in outstanding
      modifies this`connectionCount, this`outstanding
      ensures PoolValid()
      ensures connectionCount == old(connectionCount) - 1
      ensures outstanding == old(outstanding) - {conn}
    {
      connectionCount := connectionCount - 1;
      outstanding := outstanding - {conn};
    }

    /**
     * putConnection: returns a held connection to the idle pool, or closes it
     * when the node is inactive or the pool is full.
     */
    method PutConnection(conn: Connection)
      requires PoolValid() && conn in outstanding
      modifies this`queue, this`connectionCount, this`outstanding
      ensures PoolValid()
      ensures outstanding == old(outstanding) - {conn}
      ensures if old(active) && |old(queue)| < cluster.connectionQueueSize
        then queue == old(queue) + [conn] && connectionCount == old(connectionCount)
        else queue == old(queue) && connectionCount == old(connectionCount) - 1
    {
      if !active || |queue| >= cluster.connectionQueueSize {
        CloseConnection(conn);
        return;
      }
      queue := queue + [conn];
      outstanding := outstanding - {conn};
    }

    /**
     * getConnection: hands out the oldest pooled connection that is still
     * valid, closing the invalid ones it meets on the way; a valid one whose
     * timeout cannot be set is closed and the call fails. With no pooled
     * connection left, a new one is opened if the node's count is below the
     * capacity: created is the new connection (None when opening fails) and
     * authenticated says whether the cluster's credentials were accepted
     * (asked only when the cluster has a user). A failed open or
     * authentication leaves the count as it was.
     */
    method GetConnection(valid: Connection -> bool, timeoutSet: bool, created: Option<Connection>, authenticated: bool)
      returns (r: Result<Connection, PoolError>)
      requires PoolValid()
      requires created.Some? ==> created.value !in queue && created.value !in outstanding
      modifies this`queue, this`connectionCount, this`outstanding
      ensures PoolValid()
      ensures r.Success? ==> r.value in outstanding && r.value !in old(outstanding)
      ensures r.Success? ==> outstanding == old(outstanding) + {r.value}
      ensures r.Failure? ==> outstanding == old(outstanding)
      ensures
        var k := FirstIndex(old(queue), valid);
        if k < |old(queue)| then
          && queue == old(queue)[k + 1..]
          && (if timeoutSet
              then r == Success(old(queue)[k]) && connectionCount == old(connectionCount) - k
              else r == Failure(TimeoutRejected) && connectionCount == old(connectionCount) - k - 1)
        else
          var idle := old(connectionCount) - |old(queue)|;
          && queue == []
          && (if idle >= cluster.connectionQueueSize then r == Failure(NoMoreConnections(cluster.connectionQueueSize)) && connectionCount == idle
              else if created.None? then r == Failure(CreateFailed) && connectionCount == idle
              else if cluster.hasUser && !authenticated then r == Failure(AuthenticationFailed) && connectionCount == idle
              else r == Success(created.value) && connectionCount == idle + 1)
    {
      var pooled := TakePooled(valid, timeoutSet);
      if pooled.Some? {
        return pooled.value;
      }
      r := OpenConnection(created, authenticated);
    }

    /**
     * The polling loop of getConnection: the first valid pooled connection,
     * or None once the pool is drained; the invalid ones met on the way are
     * closed.
     */
    method TakePooled(valid: Connection -> bool, timeoutSet: bool) returns (r: Option<Result<Connection, PoolError>>)
      requires PoolValid()
      modifies this`queue, this`connectionCount, this`outstanding
      ensures PoolValid()
      ensures r.Some? && r.value.Success? ==> r.value.value in outstanding && outstanding == old(outstanding) + {r.value.value}
      ensures r.None? || r.value.Failure? ==> outstanding == old(outstanding)
      ensures
        var k := FirstIndex(old(queue), valid);
        if k < |old(queue)| then
          && queue == old(queue)[k + 1..]
          && (if timeoutSet
              then r == Some(Success(old(queue)[k])) && connectionCount == old(connectionCount) - k
              else r == Some(Failure(TimeoutRejected)) && connectionCount == old(connectionCount) - k - 1)
        else
          r == None && queue == [] && connectionCount == old(connectionCount) - |old(queue)|
    {
      ghost var queue0 := queue;
      ghost var count0 := connectionCount;
      var polled := 0;
      while queue != []
        invariant PoolValid()
        invariant polled <= |queue0| && queue == queue0[polled..]
        invariant forall j :: 0 <= j < polled ==> !valid(queue0[j])
        invariant connectionCount == count0 - polled
        invariant outstanding == old(outstanding)
        decreases |queue|
      {
        var conn := queue[0];
        queue := queue[1..];
        outstanding := outstanding + {conn};
        polled := polled + 1;
        if valid(conn) {
          FirstIndexUnique(queue0, valid, polled - 1);
          if timeoutSet {
            return Some(Success(conn));
          }
          // The failure lies with the requested timeout, not with the pool: stop here.
          CloseConnection(conn);
          return Some(Failure(TimeoutRejected));
        }
        CloseConnection(conn);
      }
      FirstIndexUnique(queue0, valid, |queue0|);
      return None;
    }

    /**
     * The second half of getConnection, with the pool empty: takes a slot
     * of the count if one is free, then opens and (when the cluster has a
     * user) authenticates a new connection; every failure gives the slot
     * back.
     */
    method OpenConnection(created: Option<Connection>, authenticated: bool) returns (r: Result<Connection, PoolError>)
      requires PoolValid() && queue == []
      requires created.Some? ==> created.value !in outstanding
      modifies this`connectionCount, this`outstanding
      ensures PoolValid()
      ensures r.Success? ==> r.value in outstanding && outstanding == old(outstanding) + {r.value}
      ensures r.Failure? ==> outstanding == old(outstanding)
      ensures
        if old(connectionCount) >= cluster.connectionQueueSize then
          r == Failure(NoMoreConnections(cluster.connectionQueueSize)) && connectionCount == old(connectionCount)
        else if created.None? then r == Failure(CreateFailed) && connectionCount == old(connectionCount)
        else if cluster.hasUser && !authenticated then
          r == Failure(AuthenticationFailed) && connectionCount == old(connectionCount)
        else r == Success(created.value) && connectionCount == old(connectionCount) + 1
    {
      var prior := connectionCount;
      connectionCount := connectionCount + 1;
      if prior >= cluster.connectionQueueSize {
        connectionCount := connectionCount - 1;
        return Failure(NoMoreConnections(cluster.connectionQueueSize));
      }
      if created.None? {
        connectionCount := connectionCount - 1;
        return Failure(CreateFailed);
      }
      var conn := created.value;
      outstanding := outstanding + {conn};
      if cluster.hasUser && !authenticated {
        // A connection that did not authenticate is not pooled.
        CloseConnection(conn);
        return Failure(AuthenticationFailed);
      }
      return Success(conn);
    }

    /**
     * closeConnections: closes the tend connection and drains the idle pool,
     * closing each pooled connection. The count is not given back for them:
     * they stay attributed to the node (leaked grows by the number drained).
     */
    method CloseConnections()
      requires PoolValid()
      modifies this`tendClosed, this`queue, this`leaked
      ensures PoolValid()
      ensures tendClosed && queue == []
      ensures leaked == old(leaked) + |old(queue)| && connectionCount == old(connectionCount)
    {
      tendClosed := true;
      while queue != []
        invariant PoolValid() && tendClosed
        invariant leaked + |queue| == old(leaked) + |old(queue)|
        invariant queue == old(queue)[|old(queue)| - |queue|..]
        decreases |queue|
      {
        queue := queue[1..];
        leaked := leaked + 1;
      }
    }

    /** close: deactivates the node for good and closes its connections. */
    method Close()
      requires PoolValid()
      modifies this`active, this`tendClosed, this`queue, this`leaked
      ensures PoolValid()
      ensures !active && tendClosed && queue == []
      ensures leaked == old(leaked) + |old(queue)| && connectionCount == old(connectionCount)
    {
      active := false;
      CloseConnections();
    }
  }
}

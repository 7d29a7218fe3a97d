/**
 * Value types shared by the node, the tables of its cluster and the
 * collaborators whose answers the model takes as inputs.
 */
module Types {

  import opened Wrappers

  /** A network address of a server: host name (or IP literal) and port. */
  datatype Host = Host(name: string, port: int)

  /**
   * What the node validator learns from a host it could connect to and
   * authenticate with: the server's name, the address to use, its other
   * addresses and its capability bits. Its open connection becomes the new
   * node's tend connection.
   */
  datatype NodeIdentity = NodeIdentity(name: string, primaryHost: Host, aliases: seq<Host>, features: bv32)

  /** The node validator, as a total function: None when the host fails to validate. */
  type Validator = Host -> Option<NodeIdentity>

  /** One entry of a peers response: the peer's name and the hosts to try for it, in order. */
  datatype Peer = Peer(nodeName: string, hosts: seq<Host>)

  /** What the peer parser decodes: the peers generation and the peer list. */
  datatype PeerList = PeerList(generation: int, peers: seq<Peer>)

  /** The cluster-wide partition map: per namespace, the owner node name of each partition. */
  datatype PartitionMap = PartitionMap(owners: map<string, seq<string>>)

  /**
   * What the partition parser yields: the partition generation, whether it
   * had to copy the shared map to change it, and the map it ends with.
   */
  datatype PartitionUpdate = PartitionUpdate(generation: int, copied: bool, partitions: PartitionMap)

  /** An abstract pooled transport connection. */
  datatype Connection = Connection(id: nat)

  /** Why getConnection could not hand out a connection. */
  datatype PoolError =
    | NoMoreConnections(max: nat)   // the attributed count is at capacity (ResultCode.NO_MORE_CONNECTIONS)
    | TimeoutRejected               // setting the timeout on a pooled connection failed
    | CreateFailed                  // opening a new connection failed
    | AuthenticationFailed          // the new connection was refused by the server's authentication
}

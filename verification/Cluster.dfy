/** The objects of the cluster that the controller reads and updates. */
module Cluster {
  import opened Addresses
  import opened Text
  import opened Collections
  import A = Allocation

  type Node = string

  /** The addresses of each node; a node without an entry has none. */
  type Assigned = map<Node, seq<Address>>

  ghost function Load(m: Assigned, n: Node): nat {
    |Get(m, n)|
  }

  /** A namespace with its two annotations: the resource it refers to and the addresses it was given. */
  datatype Namespace = Namespace(name: string, egressipam: Option<string>, egressips: Option<string>)

  /** The address of a node itself, if it can be read, and the egress addresses the node is to serve. */
  datatype HostSubnet = HostSubnet(hostIP: Option<Address>, egressIPs: seq<Address>)

  function HostIPsOf(hosts: map<Node, HostSubnet>): map<Node, Option<Address>> {
    map n | n in hosts :: hosts[n].hostIP
  }

  datatype Error =
    | IndexOutOfRange | CannotParse | OutsideBlock
    | NoHostSubnet(node: Node)
    | Allocation(cause: A.AllocationError)
    | UpdateRejected(name: string)
    | NoAnnotation(name: string)
    | NoReadyNode(c: Cidr)
    | CloudCallFailed
    | HostSubnetUpdateFailed
    | NetNamespaceUpdateFailed

  /** What is outside the controller: the objects of the API server and the secondary addresses of the cloud
      instances. Which updates are accepted is up to the environment. */
  class World {
    var namespaces: map<string, Namespace>
    var hostSubnets: map<Node, HostSubnet>
    var secondary: map<Node, set<Address>>

    constructor (namespaces: map<string, Namespace>, hostSubnets: map<Node, HostSubnet>, secondary: map<Node, set<Address>>)
      ensures this.namespaces == namespaces && this.hostSubnets == hostSubnets && this.secondary == secondary
    {
      this.namespaces, this.hostSubnets, this.secondary := namespaces, hostSubnets, secondary;
    }

    method UpdateNamespace(ns: Namespace, accept: bool) returns (ok: bool)
      modifies this`namespaces
      ensures ok == accept
      ensures namespaces == if ok then old(namespaces)[ns.name := ns] else old(namespaces)
    {
      if accept {
        namespaces := namespaces[ns.name := ns];
      }
      ok := accept;
    }

    method UpdateHostSubnet(n: Node, ips: seq<Address>, accept: bool) returns (ok: bool)
      requires n in hostSubnets
      modifies this`hostSubnets
      ensures ok == accept
      ensures hostSubnets == if ok then old(hostSubnets)[n := old(hostSubnets[n]).(egressIPs := ips)] else old(hostSubnets)
    {
      if accept {
        hostSubnets := hostSubnets[n := hostSubnets[n].(egressIPs := ips)];
      }
      ok := accept;
    }
  }
}

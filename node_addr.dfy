/** A node address: one IP address and the set of ports it is reachable on,
    kept as a sorted list without repeats. */
module NodeAddrs {
  import opened Net
  import opened PortList

  /** The two fields of the record. A record built by the derived deserialiser is one of these
      and need not be normalised. */
  datatype RawNodeAddr = RawNodeAddr(ipAddr: IpAddr, ports: seq<Port>)

  /** A node address made by new, from or clone: these normalise the port list, so it is
      strictly increasing. The accessors ip_addr() and ports() are the projections .ipAddr
      and .ports (values are copied). */
  type NodeAddr = n: RawNodeAddr | StrictlyIncreasing(n.ports)
    witness RawNodeAddr(V4(0, 0, 0, 0), [])

  /** The node address that construction from ip and ports yields. */
  function NodeAddrOf(ip: IpAddr, ports: seq<Port>): (n: NodeAddr)
    ensures n.ipAddr == ip
    ensures Elements(n.ports) == Elements(ports)
  {
    RawNodeAddr(ip, Normalize(ports))
  }

  /** Construction: copy the port list, sort the copy, drop repeats. */
  method New(ip: IpAddr, ports: seq<Port>) returns (n: NodeAddr)
    ensures n.ipAddr == ip
    ensures StrictlyIncreasing(n.ports)
    ensures forall x :: x in n.ports <==> x in ports
    ensures n == NodeAddrOf(ip, ports)
  {
    var buffer := new Port[|ports|](i requires 0 <= i < |ports| => ports[i]);
    assert buffer[..] == ports;
    SortInPlace(buffer);
    ghost var sorted := buffer[..];
    var len := DedupInPlace(buffer);
    var normal := buffer[..len];
    assert normal == DedupAdjacent(sorted);
    SortThenDedupIsNormal(ports, sorted);
    assert normal == Normalize(ports);
    n := RawNodeAddr(ip, normal);
    SameElementsSameMembers(n.ports, ports);
  }

  /** Conversion from a single socket endpoint. */
  function FromSocketAddr(s: SocketAddr): (n: NodeAddr)
    ensures n.ipAddr == s.ip
    ensures n.ports == [s.port]
  {
    NormalizeOfNormal([s.port]);
    NodeAddrOf(s.ip, [s.port])
  }

  /** Expansion into one socket endpoint per port, in the order of the port list. */
  function IntoSocketAddrs(n: NodeAddr): (r: seq<SocketAddr>)
    ensures |r| == |n.ports|
    ensures forall i :: 0 <= i < |r| ==> r[i].ip == n.ipAddr && r[i].port == n.ports[i]
    ensures forall i, j :: 0 <= i < j < |r| ==> r[i].port < r[j].port
  {
    seq(|n.ports|, i requires 0 <= i < |n.ports| => SocketAddr(n.ipAddr, n.ports[i]))
  }

  /** The ports of a list of endpoints, in order. */
  function PortsOf(r: seq<SocketAddr>): (p: seq<Port>)
    ensures |p| == |r|
    ensures forall i :: 0 <= i < |r| ==> p[i] == r[i].port
  {
    seq(|r|, i requires 0 <= i < |r| => r[i].port)
  }

  /** Cloning builds a new value from this one's address and ports, normalising them again. */
  method Clone(n: RawNodeAddr) returns (c: NodeAddr)
    ensures c == NodeAddrOf(n.ipAddr, n.ports)
    ensures c.ipAddr == n.ipAddr && Elements(c.ports) == Elements(n.ports)
    ensures StrictlyIncreasing(n.ports) ==> c == n && Eq(c, n)
  {
    c := New(n.ipAddr, n.ports);
    if StrictlyIncreasing(n.ports) {
      NormalizeOfNormal(n.ports);
    }
  }

  /** Equality compares the addresses and the port lists as stored. On normalised values this
      is equality of the addresses and of the port sets. */
  function Eq(a: RawNodeAddr, b: RawNodeAddr): (r: bool)
    ensures r <==> a == b
    ensures StrictlyIncreasing(a.ports) && StrictlyIncreasing(b.ports) ==>
      (r <==> a.ipAddr == b.ipAddr && Elements(a.ports) == Elements(b.ports))
  {
    SameSetIffEqual(a.ports, b.ports);
    a.ipAddr == b.ipAddr && a.ports == b.ports
  }

  // ---------------------------------------------------------------------------
  // Properties
  // ---------------------------------------------------------------------------

  /** Rebuilding a node address from its own address and ports gives it back. */
  lemma RebuildIsIdentity(n: NodeAddr)
    ensures NodeAddrOf(n.ipAddr, n.ports) == n
  {
    NormalizeOfNormal(n.ports);
  }

  /** Two constructions are equal exactly when their addresses are equal and their port
      lists hold the same values; order and repeats do not matter. */
  lemma EqualIffSamePortSet(ip1: IpAddr, p1: seq<Port>, ip2: IpAddr, p2: seq<Port>)
    ensures Eq(NodeAddrOf(ip1, p1), NodeAddrOf(ip2, p2))
        <==> ip1 == ip2 && Elements(p1) == Elements(p2)
  {
    NormalizeEqualIff(p1, p2);
  }

  lemma EqReflexive(a: RawNodeAddr)
    ensures Eq(a, a)
  {
  }

  /** Converting from one endpoint and expanding gives that endpoint back. */
  lemma FromThenInto(s: SocketAddr)
    ensures IntoSocketAddrs(FromSocketAddr(s)) == [s]
  {
  }

  /** Expanding into endpoints and collecting their ports again rebuilds the node address. */
  lemma IntoThenCollect(n: NodeAddr)
    ensures forall e :: e in IntoSocketAddrs(n) ==> e.ip == n.ipAddr
    ensures NodeAddrOf(n.ipAddr, PortsOf(IntoSocketAddrs(n))) == n
  {
    assert PortsOf(IntoSocketAddrs(n)) == n.ports;
    RebuildIsIdentity(n);
  }

  // ---------------------------------------------------------------------------
  // The concrete cases that accompany the source
  // ---------------------------------------------------------------------------

  lemma CreateFromSocketAddrExample()
    ensures FromSocketAddr(SocketAddr(V4(9, 8, 7, 6), 543)).ipAddr == V4(9, 8, 7, 6)
    ensures FromSocketAddr(SocketAddr(V4(9, 8, 7, 6), 543)).ports == [543]
  {
  }

  lemma ConvertToSocketAddrsExample()
    ensures IntoSocketAddrs(NodeAddrOf(V4(2, 5, 8, 1), [9, 6]))
         == [SocketAddr(V4(2, 5, 8, 1), 6), SocketAddr(V4(2, 5, 8, 1), 9)]
  {
    NormalizeNineSix();
  }

  lemma NormalizeNineSix()
    ensures Normalize([9, 6]) == [6, 9]
  {
    assert Elements([9, 6]) == Elements([6, 9]);
    StrictlyIncreasingUnique(Normalize([9, 6]), [6, 9]);
  }

  lemma CompareExample()
    ensures var ip := V4(1, 2, 3, 4);
      var a := NodeAddrOf(ip, [5, 6]);
      Eq(a, a) && Eq(a, NodeAddrOf(ip, [6, 5])) && Eq(a, NodeAddrOf(ip, [5, 6, 5]))
      && !Eq(a, NodeAddrOf(V4(1, 2, 3, 5), [5, 6])) && !Eq(a, NodeAddrOf(ip, [9]))
  {
    assert Elements([5, 6]) == Elements([6, 5]) == Elements([5, 6, 5]);
    assert 5 in Elements([5, 6]) && 5 !in Elements([9]);
  }

  method CloneExample() returns (c: NodeAddr)
    ensures c.ipAddr == V4(2, 5, 8, 1) && c.ports == [6, 9]
  {
    var subject := New(V4(2, 5, 8, 1), [9, 6]);
    NormalizeNineSix();
    c := Clone(subject);
  }

  // ---------------------------------------------------------------------------
  // Records that did not come from new
  // ---------------------------------------------------------------------------

  /** The derived deserialiser fills the fields as decoded. Given [9, 6], it yields a record
      whose clone, normalised to [6, 9], is not equal to it. */
  method DeserializedCloneDiffers() returns (d: RawNodeAddr, c: NodeAddr)
    ensures d.ports == [9, 6] && c.ports == [6, 9]
    ensures !Eq(c, d)
  {
    d := RawNodeAddr(V4(2, 5, 8, 1), [9, 6]);
    NormalizeNineSix();
    c := Clone(d);
  }

  /** A deserialiser that goes through construction, so the invariant holds for its results. */
  function Deserialize(ip: IpAddr, ports: seq<Port>): (n: NodeAddr)
    ensures n.ipAddr == ip && Elements(n.ports) == Elements(ports)
  {
    NodeAddrOf(ip, ports)
  }

  /** With that deserialiser, decoding the fields of a node address gives it back, and a clone
      of anything it decodes is equal to it. */
  lemma DeserializeKeepsCloneEqual(n: NodeAddr, ip: IpAddr, ports: seq<Port>)
    ensures Deserialize(n.ipAddr, n.ports) == n
    ensures var d := Deserialize(ip, ports); Eq(NodeAddrOf(d.ipAddr, d.ports), d)
  {
    RebuildIsIdentity(n);
    RebuildIsIdentity(Deserialize(ip, ports));
  }
}

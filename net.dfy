/** Stand-ins for the standard-library network types that a node address is built from. */
module Net {

  /** A TCP/UDP port number: an unsigned 16-bit integer. */
  type Port = p: int | 0 <= p < 0x1_0000

  type Octet = b: int | 0 <= b < 0x100

  type Segment = w: int | 0 <= w < 0x1_0000

  /** The eight 16-bit groups of a version 6 address. */
  type Segments = s: seq<Segment> | |s| == 8
    witness [0, 0, 0, 0, 0, 0, 0, 0]

  /** An IP address, version 4 or version 6. The model never looks inside an address:
      addresses are only copied and compared for equality. */
  datatype IpAddr = V4(a: Octet, b: Octet, c: Octet, d: Octet) | V6(segments: Segments)

  /** A single socket endpoint: an IP address together with one port. */
  datatype SocketAddr = SocketAddr(ip: IpAddr, port: Port)
}

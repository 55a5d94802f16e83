/** Multiaddresses as the sequences of protocols that the code inspects. */
module Addresses {
  import opened Basics

  datatype IpAddr = V4(bits: u32) | V6(high: u64, low: u64)

  datatype Protocol =
    | Ip4(address: u32)
    | Ip6(high: u64, low: u64)
    | Tcp(port: u16)
    | Udp(port: u16)
    | Quic
    | QuicV1
    | P2pCircuit
    | P2p(peer: PeerId)
    /** DNS names, memory, Unix and onion addresses */
    | Unroutable(text: Bytes)
    /** any other component, told apart by its code and contents */
    | Other(code: u32, contents: Bytes)

  type Multiaddr = seq<Protocol>

  function IpOf(p: Protocol): Option<IpAddr> {
    match p
    case Ip4(address) => Some(V4(address))
    case Ip6(high, low) => Some(V6(high, low))
    case _ => None
  }
}

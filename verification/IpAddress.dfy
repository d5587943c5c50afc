/** IP addresses. */
module IpAddress {

  /** The family is AF_INET or else AF_INET6; the bytes are in network order. */
  datatype IpAddr = IpAddr(inet: bool, addr: seq<bv8>)

  predicate Sized(ip: IpAddr) {
    |ip.addr| == if ip.inet then 4 else 16
  }
}

/** Network addresses, as the servers and the backend use them. */
module Net {
  import opened Bytes

  /** An IP address, as the number it is, and a port. */
  datatype SocketAddr = SocketAddr(v6: bool, ip: nat, port: u16)
}

/** Values shared by every part of the resolver: addresses, octets and the
    error-carrying result type that stands for Rust's `Option` and `anyhow::Result`. */
module Common {

  /** An unsigned 8-bit value (`u8`): an IPv4 octet or one byte of a datagram. */
  type Octet = x: int | 0 <= x < 256

  /** Raw datagram contents. */
  type Bytes = seq<Octet>

  /** An unsigned 16-bit value (`u16`): a port or a DNS transaction id. */
  type U16 = x: int | 0 <= x < 0x1_0000

  /** `std::net::Ipv4Addr`, as its four octets in network order. */
  datatype Ipv4 = Ipv4(a: Octet, b: Octet, c: Octet, d: Octet)

  /** `std::net::SocketAddr`. The host part is never inspected by the core,
      so it is kept as the text it would be parsed from. */
  datatype SocketAddr = SocketAddr(host: string, port: U16)

  datatype Option<T> = None | Some(value: T)

  /** The steps of forwarding a query upstream; any of them can fail. */
  datatype ForwardStage =
    | Bind      // binding the ephemeral socket
    | Send      // sending the request upstream
    | Timeout   // no reply within the deadline
    | Receive   // receiving the reply
    | Relay     // sending the reply on to the client

  /** The errors the core propagates with `?`. */
  datatype Error =
    | StorageError                     // any failure of the database layer
    | ForwardFailed(stage: ForwardStage)

  datatype Result<T> = Ok(value: T) | Err(error: Error)
}

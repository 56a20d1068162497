/** Values shared by the DHT modules: socket addresses, instants and optional values. */
module Net {

  datatype Option<+T> = None | Some(value: T)

  datatype SocketAddr = V4(ip: nat, port: nat) | V6(ip: nat, port: nat)

  /** Time in nanoseconds since some fixed start. */
  type Instant = nat

  const SECOND: nat := 1_000_000_000

  /** Difference of two instants; it saturates at zero, as the standard library's does. */
  function Since(now: Instant, t: Instant): nat {
    if t <= now then now - t else 0
  }
}

/** Optional values and the error values the TCP client hands back. */
module Wrappers {

  /** Go's nil-or-value: `None` stands for nil. */
  datatype Option<+T> = None | Some(value: T)

  /** A Go `error` value as this client produces or relays it: a failure reported by
      the connection (identified by an opaque code), or a formatted message. */
  datatype Error = Transport(code: int) | Message(text: string)
}

/** Option and Result values, and the exceptions the client code raises, as data. */
module Wrappers {

  datatype Option<+T> = None | Some(value: T) {
    function GetOr(default: T): T {
      match this
      case Some(v) => v
      case None => default
    }
  }

  /** The exceptions raised by the HTTP client, one constructor per cause. */
  datatype Error =
    | ReadLineFail       // TxtResponse.read_line: no CRLF after the cursor
    | ReadHeadersFail    // TxtResponse.read_headers: no CRLF CRLF after the cursor
    | BadStatusLine      // fewer than two words on the status line
    | BadInteger         // int() of something that is not an integer literal
    | Timeout            // socket.timeout: the peer stopped sending too early
    | NoHeaderBlock      // Response.read_headers swallowed its exception and returned None
    | NegativeLength     // a negative read length (see README, Left out)
    | UnknownScheme      // no port in the URL and a scheme other than http/https
    | ConnectFailed      // the SOCKS proxy connect or the TLS wrap raised

  datatype Result<+T> = Ok(value: T) | Err(error: Error)

  function Min(a: int, b: int): int {
    if a <= b then a else b
  }
}

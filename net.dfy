/**
  The socket the client reads from and writes to, as an abstract byte
  source and sink: `incoming` holds the bytes the peer has sent that have
  not been received, and one `recv` delivers at most `burst` of them, however
  many the caller asks for; each `send` accepts at least one of the bytes
  offered and at most a window of them, an amount callers cannot predict. A
  receive from an exhausted source stands for the time-out the client's
  clock would eventually raise.
 */
module Net {
  import opened Wrappers
  import opened Bytes

  class Socket {
    /** The bytes the peer has sent that nobody has received yet, in order. */
    var incoming: bytes
    /** The most bytes one `recv` delivers, however many are waiting. */
    var burst: nat
    /** Every byte `send` has accepted so far, in order. */
    var sent: bytes
    /** The most bytes one `send` call accepts. */
    var window: nat

    predicate Valid()
      reads this
    {
      window >= 1 && burst >= 1
    }

    /** The bytes still to be received. */
    function Unreceived(): bytes
      reads this
    {
      incoming
    }

    constructor (incoming: bytes, burst: nat, window: nat)
      requires burst >= 1 && window >= 1
      ensures Valid() && this.incoming == incoming && this.burst == burst && this.window == window && sent == []
    {
      this.incoming := incoming;
      this.burst := burst;
      this.window := window;
      this.sent := [];
    }

    /**
      `recv(max)`: at most `max` bytes, and at least one, from the front of
      what the peer sent; an exhausted source is a time-out.
     */
    method Recv(max: nat) returns (r: Result<bytes>)
      requires Valid() && max >= 1
      modifies this
      ensures Valid() && sent == old(sent) && window == old(window) && burst == old(burst)
      ensures old(incoming) == [] ==> r == Err(Timeout) && incoming == []
      ensures old(incoming) != [] ==>
        && r.Ok? && 1 <= |r.value| <= max
        && old(Unreceived()) == r.value + Unreceived()
    {
      if incoming == [] {
        return Err(Timeout);
      }
      var k := Min(Min(max, burst), |incoming|);
      r := Ok(incoming[..k]);
      assert incoming == incoming[..k] + incoming[k..];
      incoming := incoming[k..];
    }

    /**
      `send(data)`: the socket takes some bytes from the front of `data`,
      at least one when any are offered and at most `window`, and says how
      many. Callers may rely on nothing more about the count.
     */
    method Send(data: bytes) returns (n: nat)
      requires Valid()
      modifies this
      ensures Valid() && incoming == old(incoming) && window == old(window)
      ensures n <= Min(|data|, window) && (|data| >= 1 ==> n >= 1)
      ensures sent == old(sent) + data[..n]
    {
      n := Min(|data|, window);
      sent := sent + data[..n];
    }
  }
}

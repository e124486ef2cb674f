/** A connected socket, as far as the library can tell: the octets the peer
    will have sent before it closes, and the octets sent to it. How much one
    call moves is up to the kernel. */
module Sockets {
  import opened Results
  import opened Bytes

  class Socket {
    var incoming: seq<Byte>
    var outgoing: seq<Byte>
    /** Whether calls on this socket may fail. */
    const faulty: bool

    constructor (incoming: seq<Byte>, faulty: bool)
      ensures this.incoming == incoming && outgoing == [] && this.faulty == faulty
    {
      this.incoming, outgoing, this.faulty := incoming, [], faulty;
    }

    /** A read on a readable socket: some octets, or none at the end of the
        stream, or a failure. */
    method Receive(max: nat) returns (r: Option<seq<Byte>>)
      requires max > 0
      modifies this`incoming
      ensures r.None? ==> faulty && incoming == old(incoming)
      ensures r.Some? ==> |r.value| <= max && r.value + incoming == old(incoming)
      ensures r.Some? ==> (r.value == [] <==> old(incoming) == [])
    {
      var fail: bool := *;
      if faulty && fail {
        return None;
      }
      if incoming == [] {
        return Some([]);
      }
      var n :| 1 <= n <= |incoming| && n <= max;
      r := Some(incoming[..n]);
      incoming := incoming[n..];
    }

    /** A write on a writable socket: how many octets went out, or a failure. */
    method Send(data: seq<Byte>) returns (r: Option<nat>)
      modifies this`outgoing
      ensures r.None? ==> faulty && outgoing == old(outgoing)
      ensures r.Some? ==> r.value <= |data| && outgoing == old(outgoing) + data[..r.value]
      ensures r.Some? ==> (r.value == 0 <==> data == [])
    {
      var fail: bool := *;
      if faulty && fail {
        return None;
      }
      if data == [] {
        return Some(0);
      }
      var n :| 1 <= n <= |data|;
      outgoing := outgoing + data[..n];
      r := Some(n);
    }
  }
}

/** A query against a server that answers in the layout of `ResultSetCodec`. */
module Queries {
  import opened Results
  import opened Bytes
  import opened ResultSets
  import opened ResultSetCodec
  import opened Clients

  /** Unless the socket fails, the caller of `query_multi` gets the result sets
      the server encoded, in order, under any chunking of the stream; except
      that an OK packet with a trailer in front of another result is fatal. */
  method Ask(c: Client, sql: seq<Byte>, ghost sets: seq<ResultSet>, ghost trailers: seq<seq<Byte>>, ghost rest: seq<Byte>)
      returns (r: Result<seq<ResultSet>>)
    requires c.Valid() && c.isOpen && ResponseFits(sets, trailers)
    requires c.sock.incoming == EncodeSets(sets, trailers, 1, rest)
    modifies c`nextSeq, c`numbers, c.sock
    ensures c.Valid()
    ensures c.IoFault(r) ||
      if Trimmed(sets, trailers) then r == Ok(sets) && c.sock.incoming == rest else r == Err(BufferNotEmpty)
  {
    hide EncodeSets, ReadResultSets, ResponseFits, Trimmed;
    ResponseRoundTripIff([], sets, trailers, 1, rest);
    assert [] + sets == sets;
    r := c.QueryMulti(sql);
  }
}

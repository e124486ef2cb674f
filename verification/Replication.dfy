/** From the server's log to what a program sees: the loop of
    src/Examples/MySQLBinlogReader.cc over the client and the processor. */
module Replication {
  import opened Results
  import opened Bytes
  import opened Varints
  import opened ResultSets
  import opened ResultSetCodec
  import opened Clients
  import opened Binlogs
  import opened BinlogProcessors
  import opened BinlogLogs

  /** What the server sends for its log: one packet per event, with a checksum
      behind each event but the first. */
  ghost predicate StreamFits(m: Memory, log: seq<LogEvent>, checksums: seq<seq<Byte>>, state: BinlogState)
    decreases |log|
  {
    && |checksums| == |log|
    && (log != [] ==>
          && BinlogLogs.EventFits(m.tables, log[0])
          && Clients.EventFits(LoggedEvent(EncodeEvent(m.tables, log[0]), checksums[0]), state)
          && StreamFits(Recorded(m, log[0]), log[1..], checksums[1..], LaterEvent))
  }

  ghost function Stream(
      m: Memory, log: seq<LogEvent>, checksums: seq<seq<Byte>>, state: BinlogState, seqno: Byte, rest: seq<Byte>): seq<Byte>
    requires StreamFits(m, log, checksums, state)
    decreases |log|
  {
    if log == [] then rest
    else
      EncodePacket([0x00] + (EncodeEvent(m.tables, log[0]) + checksums[0]), seqno)
      + Stream(Recorded(m, log[0]), log[1..], checksums[1..], LaterEvent, Succ(seqno), rest)
  }

  /** What is to be remembered after a whole log. */
  function RecordedAll(m: Memory, log: seq<LogEvent>): Memory
    decreases |log|
  {
    if log == [] then m else RecordedAll(Recorded(m, log[0]), log[1..])
  }

  /** One turn of the loop: the next event, given to the parser for its type. A
      failure of the client or the parser ends the loop. */
  method Next(c: Client, p: BinlogProcessor) returns (r: Result<Reply>)
    requires c.Valid() && p.Valid() && c.isOpen && c.binlogState != NotReading
    modifies c`nextSeq, c`numbers, c`binlogState, c.sock`incoming, p
    ensures c.Valid() && p.Valid()
    ensures c.IoFault(r) ||
      match NextEvent(Conn(old(c.sock.incoming), old(c.nextSeq), []), old(c.binlogState)) {
        case Err(e) => r == Err(e) && p.Remembered() == old(p.Remembered())
        case Ok((data, conn)) =>
          && c.sock.incoming == conn.octets && c.nextSeq == conn.seqno && c.binlogState == LaterEvent
          && if |data| < 19 then r == Err(NotEnoughData) && p.Remembered() == old(p.Remembered())
             else p.Answered(old(p.Remembered()), Call(ParserFor(data[4]), data), r)
      }
  {
    hide NextEvent, ReplyTo, MemoryAfter, ParserFor, TablesOk;
    var data :- c.GetBinlogEvent();
    if |data| < 19 {
      return Err(NotEnoughData);
    }
    r := p.Perform(Call(ParserFor(data[4]), data));
  }

  /** The turn for an event of the log. */
  lemma Turned(m: Memory, log: seq<LogEvent>, checksums: seq<seq<Byte>>, state: BinlogState, seqno: Byte, rest: seq<Byte>)
    requires StreamFits(m, log, checksums, state) && log != []
    ensures var data := EncodeEvent(m.tables, log[0]);
            var m' := Recorded(m, log[0]);
            && NextEvent(Conn(Stream(m, log, checksums, state, seqno, rest), seqno, []), state) ==
               Ok((data, Conn(Stream(m', log[1..], checksums[1..], LaterEvent, Succ(seqno), rest), Succ(seqno), [])))
            && |data| >= 19 && ReplyTo(m, Call(ParserFor(data[4]), data)) == Ok(Expected(log[0]))
            && MemoryAfter(m, Call(ParserFor(data[4]), data)) == m'
  {
    hide EncodePacket, NextEvent, EncodeEvent, Answer, Recorded, Expected, ParserFor, BinlogLogs.EventFits, Clients.EventFits;
    var m' := Recorded(m, log[0]);
    EventRoundTrip(m, log[0]);
    NextEventOfEncoded(LoggedEvent(EncodeEvent(m.tables, log[0]), checksums[0]), state, seqno,
                       Stream(m', log[1..], checksums[1..], LaterEvent, Succ(seqno), rest));
  }

  /** Unless the socket fails, a program that follows the binlog gets every
      event of the log in order and unchanged, past any number of sequence
      number wraps and under any chunking of the stream. */
  method Follow(c: Client, p: BinlogProcessor, n: nat, ghost log: seq<LogEvent>, ghost checksums: seq<seq<Byte>>, ghost rest: seq<Byte>)
      returns (r: Result<seq<Reply>>)
    requires c.Valid() && p.Valid() && c.isOpen && c.binlogState != NotReading
    requires StreamFits(p.Remembered(), log, checksums, c.binlogState) && n == |log|
    requires c.sock.incoming == Stream(p.Remembered(), log, checksums, c.binlogState, c.nextSeq, rest)
    modifies c`nextSeq, c`numbers, c`binlogState, c.sock`incoming, p
    ensures c.Valid() && p.Valid()
    ensures c.IoFault(r) || (r.Ok? && r.value == seq(n, i requires 0 <= i < n => Expected(log[i])))
    ensures r.Ok? ==> c.sock.incoming == rest && p.Remembered() == RecordedAll(old(p.Remembered()), log)
  {
    hide NextEvent, EncodeEvent, ReplyTo, MemoryAfter, Recorded, Expected, ParserFor, StreamFits, Stream, TablesOk;
    var replies: seq<Reply> := [];
    assert log[0..] == log && checksums[0..] == checksums;
    StreamLength(p.Remembered(), log, checksums, c.binlogState);
    for k := 0 to n
      invariant c.Valid() && p.Valid() && c.isOpen && c.binlogState != NotReading && |checksums| == n
      invariant StreamFits(p.Remembered(), log[k..], checksums[k..], c.binlogState)
      invariant c.sock.incoming == Stream(p.Remembered(), log[k..], checksums[k..], c.binlogState, c.nextSeq, rest)
      invariant RecordedAll(p.Remembered(), log[k..]) == RecordedAll(old(p.Remembered()), log)
      invariant replies == seq(k, i requires 0 <= i < k => Expected(log[i]))
    {
      assert log[k..][0] == log[k] && log[k..][1..] == log[k + 1..] && checksums[k..][1..] == checksums[k + 1..];
      Turned(p.Remembered(), log[k..], checksums[k..], c.binlogState, c.nextSeq, rest);
      StreamTail(p.Remembered(), log[k..], checksums[k..], c.binlogState);
      var reply :- Next(c, p);
      replies := replies + [reply];
    }
    assert log[n..] == [];
    StreamEnd(p.Remembered(), log[n..], checksums[n..], c.binlogState, c.nextSeq, rest);
    return Ok(replies);
  }

  lemma StreamLength(m: Memory, log: seq<LogEvent>, checksums: seq<seq<Byte>>, state: BinlogState)
    requires StreamFits(m, log, checksums, state)
    ensures |checksums| == |log|
  {
  }

  lemma StreamTail(m: Memory, log: seq<LogEvent>, checksums: seq<seq<Byte>>, state: BinlogState)
    requires StreamFits(m, log, checksums, state) && log != []
    ensures |checksums| == |log| && StreamFits(Recorded(m, log[0]), log[1..], checksums[1..], LaterEvent)
  {
  }

  lemma StreamEnd(m: Memory, log: seq<LogEvent>, checksums: seq<seq<Byte>>, state: BinlogState, seqno: Byte, rest: seq<Byte>)
    requires StreamFits(m, log, checksums, state) && log == []
    ensures Stream(m, log, checksums, state, seqno, rest) == rest
  {
  }

  /** The whole reader, from asking for the binlog to the last event: the
      server answers the checksum query with one result and then sends its log,
      whose first event has no checksum. */
  method Replicate(
      c: Client, p: BinlogProcessor, filename: seq<Byte>, position: nat, serverId: nat, random: nat, n: nat,
      ghost answer: ResultSet, ghost trailer: seq<Byte>, ghost log: seq<LogEvent>, ghost checksums: seq<seq<Byte>>, ghost rest: seq<Byte>)
      returns (r: Result<seq<Reply>>)
    requires c.Valid() && p.Valid() && c.isOpen && n == |log|
    requires ResponseFits([answer], [trailer]) && StreamFits(p.Remembered(), log, checksums, FirstEvent)
    requires c.sock.incoming == EncodeSets([answer], [trailer], 1, Stream(p.Remembered(), log, checksums, FirstEvent, 1, rest))
    modifies c, c.sock, p
    ensures c.Valid() && p.Valid()
    ensures c.IoFault(r) || (r.Ok? && r.value == seq(n, i requires 0 <= i < n => Expected(log[i])))
    ensures r.Ok? ==> c.sock.incoming == rest && p.Remembered() == RecordedAll(old(p.Remembered()), log)
  {
    hide EncodeSets, ReadResultSets, ResponseFits, Stream, StreamFits, Expected, RecordedAll, TablesOk, EncodePacket, DumpPayload;
    ghost var stream := Stream(p.Remembered(), log, checksums, FirstEvent, 1, rest);
    ResponseRoundTripIff([], [answer], [trailer], 1, stream);
    var _ :- c.ReadBinlogs(filename, position, serverId, true, random);
    r := Follow(c, p, n, log, checksums, rest);
  }
}

/** The MySQL client of src/Protocols/MySQL/Client.cc: sequence numbers, queries
    and binlog streams. */
module Clients {
  import opened Results
  import opened Bytes
  import opened Sockets
  import opened Buffers
  import opened Varints
  import opened ResultSets
  import PB = ProtocolBuffers

  /** A stateful reader did what the function says: same value and state, or
      the same error. */
  ghost predicate Tracks<T>(spec: Result<(T, Conn)>, r: Result<T>, now: Conn) {
    match spec
    case Ok((v, c)) => r == Ok(v) && now == c
    case Err(e) => r == Err(e)
  }

  // ----- payloads

  method RemoveVarStrings(buf: Buffer, n: nat) returns (r: Result<seq<seq<Byte>>>)
    modifies buf
    ensures Follows(DecodeStrings(n, old(buf.data)), r, buf.data)
  {
    hide DecodeString;
    var strs: seq<seq<Byte>> := [];
    assert forall more: seq<seq<Byte>> :: strs + more == more;
    for k := 0 to n
      invariant |strs| == k
      invariant match DecodeStrings(n - k, buf.data) {
        case Ok((more, rest)) => DecodeStrings(n, old(buf.data)) == Ok((strs + more, rest))
        case Err(e) => DecodeStrings(n, old(buf.data)) == Err(e)
      }
    {
      var str :- PB.RemoveVarString(buf);
      assert forall more: seq<seq<Byte>> :: strs + ([str] + more) == strs + [str] + more;
      strs := strs + [str];
    }
    assert strs + [] == strs;
    return Ok(strs);
  }

  method RemoveColumnNumbers(buf: Buffer) returns (r: Result<(nat, nat, Byte, nat, Byte)>)
    modifies buf
    ensures Follows(ParseColumnNumbers(old(buf.data)), r, buf.data)
  {
    hide TakeLE, TakeU8;
    var charset :- buf.RemoveLE(2);
    var maxLength :- buf.RemoveLE(4);
    var ctype :- buf.RemoveU8();
    var flags :- buf.RemoveLE(2);
    var decimals :- buf.RemoveU8();
    var _ :- buf.RemoveLE(2);
    return Ok((charset, maxLength, ctype, flags, decimals));
  }

  method RemoveColumn(buf: Buffer) returns (r: Result<ColumnDef>)
    modifies buf
    ensures Follows(ParseColumn(old(buf.data)), r, buf.data)
  {
    hide DecodeStrings, DecodeVarint, ParseColumnNumbers;
    ghost var p := buf.data;
    var s :- RemoveVarStrings(buf, 6);
    DecodeStringsLength(6, p);
    var header :- PB.RemoveVarint(buf);
    if header != 0x0C {
      return Err(BadColumnHeader);
    }
    var n :- RemoveColumnNumbers(buf);
    return Ok(ColumnDef(s[0], s[1], s[2], s[3], s[4], s[5], n.0, n.1, n.2, n.3, n.4));
  }

  method RemoveCell(buf: Buffer) returns (r: Result<Cell>)
    modifies buf
    ensures Follows(ParseCell(old(buf.data)), r, buf.data)
  {
    hide DecodeString;
    var first :- buf.PeekU8();
    if first == 0xFB {
      var _ := buf.RemoveU8();
      return Ok(None);
    }
    var text :- PB.RemoveVarString(buf);
    return Ok(Some(text));
  }

  method RemoveCells(buf: Buffer, n: nat) returns (r: Result<seq<Cell>>)
    modifies buf
    ensures Follows(ParseCells(n, old(buf.data)), r, buf.data)
  {
    hide ParseCell;
    var row: seq<Cell> := [];
    assert forall more: seq<Cell> :: row + more == more;
    for k := 0 to n
      invariant |row| == k
      invariant match ParseCells(n - k, buf.data) {
        case Ok((more, rest)) => ParseCells(n, old(buf.data)) == Ok((row + more, rest))
        case Err(e) => ParseCells(n, old(buf.data)) == Err(e)
      }
    {
      var cell :- RemoveCell(buf);
      assert forall more: seq<Cell> :: row + ([cell] + more) == row + [cell] + more;
      row := row + [cell];
    }
    assert row + [] == row;
    return Ok(row);
  }

  method RemoveOk(buf: Buffer) returns (r: Result<ResultSet>)
    modifies buf
    ensures Follows(ParseOk(old(buf.data)), r, buf.data)
  {
    hide TakeLE, TakeU8, DecodeVarint;
    var _ :- buf.RemoveU8();
    var affectedRows :- PB.RemoveVarint(buf);
    var insertId :- PB.RemoveVarint(buf);
    var statusFlags :- buf.RemoveLE(2);
    var warningCount :- buf.RemoveLE(2);
    return Ok(ResultSet([], [], affectedRows, insertId, statusFlags, warningCount));
  }

  method RemoveEof(buf: Buffer, columns: seq<ColumnDef>, rows: seq<seq<Cell>>) returns (r: Result<ResultSet>)
    modifies buf
    ensures Follows(ParseEof(old(buf.data), columns, rows), r, buf.data)
  {
    hide TakeLE, TakeU8;
    var _ :- buf.RemoveU8();
    var warningCount :- buf.RemoveLE(2);
    var statusFlags :- buf.RemoveLE(2);
    return Ok(ResultSet(columns, rows, 0, 0, statusFlags, warningCount));
  }

  // ----- binlog streams

  datatype BinlogState = NotReading | FirstEvent | LaterEvent

  /** One event of the stream; all but the first carry a checksum of four
      octets, which is cut off. */
  function NextEvent(c: Conn, state: BinlogState): Result<(seq<Byte>, Conn)> {
    var c1 :- Command(c);
    var (first, body) :- TakeU8(c1.buf);
    if first == 0xFE then Err(EndOfBinlog)
    else if first != 0 then Err(BadBinlogPacket)
    else if state == FirstEvent then Ok((body, c1.(buf := [])))
    else if |body| < 4 then Err(NotEnoughData)
    else Ok((body[..|body| - 4], c1.(buf := [])))
  }

  function EventsFrom(c: Conn, state: BinlogState, n: nat): Result<(seq<seq<Byte>>, Conn)>
    decreases n
  {
    if n == 0 then Ok(([], c))
    else
      var (event, c1) :- NextEvent(c, state);
      var (events, c2) :- EventsFrom(c1, LaterEvent, n - 1);
      Ok(([event] + events, c2))
  }

  datatype LoggedEvent = LoggedEvent(event: seq<Byte>, checksum: seq<Byte>)

  function EncodeEvents(events: seq<LoggedEvent>, seqno: Byte, rest: seq<Byte>): seq<Byte> {
    if events == [] then rest
    else EncodePacket([0x00] + (events[0].event + events[0].checksum), seqno)
         + EncodeEvents(events[1..], Succ(seqno), rest)
  }

  ghost predicate EventFits(e: LoggedEvent, state: BinlogState) {
    |e.event| + |e.checksum| + 1 < U24 && |e.checksum| == if state == FirstEvent then 0 else 4
  }

  ghost predicate EventsFit(events: seq<LoggedEvent>, state: BinlogState) {
    events != [] ==> EventFits(events[0], state) && EventsFit(events[1..], LaterEvent)
  }

  function Bodies(events: seq<LoggedEvent>): seq<seq<Byte>> {
    if events == [] then [] else [events[0].event] + Bodies(events[1..])
  }

  lemma NextEventOfEncoded(e: LoggedEvent, state: BinlogState, seqno: Byte, rest: seq<Byte>)
    requires EventFits(e, state)
    ensures NextEvent(Conn(EncodePacket([0x00] + (e.event + e.checksum), seqno) + rest, seqno, []), state) ==
            Ok((e.event, Conn(rest, Succ(seqno), [])))
  {
    hide EncodePacket, ReadPacket;
    var payload := [0x00] + (e.event + e.checksum);
    PacketRoundTrip(payload, seqno, rest);
    assert payload[1..] == e.event + e.checksum;
    assert (e.event + e.checksum)[..|e.event|] == e.event;
    assert state == FirstEvent ==> e.event + e.checksum == e.event;
  }

  /** The k-th call returns the k-th event without its checksum, however often
      the sequence number wraps on the way. */
  lemma {:induction false} EventsRoundTrip(events: seq<LoggedEvent>, state: BinlogState, seqno: Byte, rest: seq<Byte>)
    requires EventsFit(events, state)
    ensures EventsFrom(Conn(EncodeEvents(events, seqno, rest), seqno, []), state, |events|) ==
            Ok((Bodies(events), Conn(rest, Advance(seqno, |events|), [])))
    decreases |events|
  {
    hide EncodePacket, NextEvent, EventFits, Advance, Succ;
    AdvanceAdd(seqno, 1, if events == [] then 0 else |events| - 1);
    if events != [] {
      NextEventOfEncoded(events[0], state, seqno, EncodeEvents(events[1..], Succ(seqno), rest));
      EventsRoundTrip(events[1..], LaterEvent, Succ(seqno), rest);
    }
  }

  /** An event that is too short for its checksum is refused. */
  lemma ShortEventIsRefused(body: seq<Byte>, state: BinlogState, seqno: Byte, rest: seq<Byte>)
    requires |body| < U24 - 1
    ensures NextEvent(Conn(EncodePacket([0x00] + body, seqno) + rest, seqno, []), state) == Err(NotEnoughData) <==>
            state != FirstEvent && |body| < 4
  {
    hide EncodePacket, ReadPacket;
    PacketRoundTrip([0x00] + body, seqno, rest);
    assert ([0x00] + body)[1..] == body;
  }

  lemma NextEventAtEnd(payload: seq<Byte>, state: BinlogState, seqno: Byte, rest: seq<Byte>)
    requires payload != [] && payload[0] != 0 && |payload| < U24
    ensures NextEvent(Conn(EncodePacket(payload, seqno) + rest, seqno, []), state) ==
            Err(if payload[0] == 0xFE then EndOfBinlog else BadBinlogPacket)
  {
    hide EncodePacket, ReadPacket;
    PacketRoundTrip(payload, seqno, rest);
  }

  /** The call after the last event tells the end of the stream (0xFE) from
      anything else that is not an event. */
  lemma {:induction false} StreamEnds(
      events: seq<LoggedEvent>, state: BinlogState, seqno: Byte, payload: seq<Byte>, rest: seq<Byte>)
    requires EventsFit(events, state) && payload != [] && payload[0] != 0 && |payload| < U24
    ensures var tail := EncodePacket(payload, Advance(seqno, |events|)) + rest;
            EventsFrom(Conn(EncodeEvents(events, seqno, tail), seqno, []), state, |events| + 1) ==
            Err(if payload[0] == 0xFE then EndOfBinlog else BadBinlogPacket)
    decreases |events|
  {
    hide EncodePacket, NextEvent, EventsFrom, EventFits, Advance, Succ;
    AdvanceAdd(seqno, 1, if events == [] then 0 else |events| - 1);
    var tail := EncodePacket(payload, Advance(seqno, |events|)) + rest;
    var c := Conn(EncodeEvents(events, seqno, tail), seqno, []);
    FailureStops(c, state, |events|);
    if events == [] {
      NextEventAtEnd(payload, state, seqno, rest);
    } else {
      NextEventOfEncoded(events[0], state, seqno, EncodeEvents(events[1..], Succ(seqno), tail));
      StreamEnds(events[1..], LaterEvent, Succ(seqno), payload, rest);
    }
  }

  lemma FailureStops(c: Conn, state: BinlogState, n: nat)
    ensures var next := NextEvent(c, state);
            && (next.Err? ==> EventsFrom(c, state, n + 1) == Err(next.error))
            && (next.Ok? && EventsFrom(next.value.1, LaterEvent, n).Err? ==>
                  EventsFrom(c, state, n + 1) == Err(EventsFrom(next.value.1, LaterEvent, n).error))
  {
    hide NextEvent;
  }

  /** One octet per character. */
  function Ascii(text: string): (octets: seq<Byte>)
    ensures |octets| == |text| && forall i :: 0 <= i < |text| && text[i] as int < 128 ==> octets[i] == text[i] as int
  {
    seq(|text|, i requires 0 <= i < |text| => text[i] as int % 256)
  }

  const CHECKSUM_QUERY := "SET @master_binlog_checksum = 'ALL', @source_binlog_checksum = 'ALL'"

  /** The BINLOG_DUMP command. */
  function DumpPayload(filename: seq<Byte>, position: nat, serverId: nat, block: bool): seq<Byte> {
    [0x12] + ToLE(position, 4) + ToLE(if block then 0 else 1, 2) + ToLE(serverId, 4) + filename
  }

  /** What a server takes from a BINLOG_DUMP command: where to start, whether to
      wait at the end or not, and who asks. The rest is the name of the file. */
  datatype Dump = Dump(position: nat, nonBlocking: bool, serverId: nat)

  function ParseDump(p: seq<Byte>): Parsed<Dump> {
    var (command, p1) :- TakeU8(p);
    if command != 18 then Err(ServerError)
    else
      var (position, p2) :- TakeLE(p1, 4);
      var (flags, p3) :- TakeLE(p2, 2);
      var (serverId, filename) :- TakeLE(p3, 4);
      Ok((Dump(position, Bit(flags, 0), serverId), filename))
  }

  /** The server understands what the client asks for, as far as it fits into 32
      bits. */
  lemma DumpIsUnderstood(filename: seq<Byte>, position: nat, serverId: nat, block: bool)
    ensures ParseDump(DumpPayload(filename, position, serverId, block)) ==
            Ok((Dump(position % U32, !block, serverId % U32), filename))
  {
    hide ToLE, FromLE;
    Pow256Values();
    var flags := if block then 0 else 1;
    var e3 := ToLE(serverId, 4) + filename;
    var e2 := ToLE(flags, 2) + e3;
    var e1 := ToLE(position, 4) + e2;
    assert DumpPayload(filename, position, serverId, block) == [18] + e1;
    assert ([18] + e1)[1..] == e1;
    TakeOfConcat(ToLE(position, 4), e2);
    TakeOfConcat(ToLE(flags, 2), e3);
    TakeOfConcat(ToLE(serverId, 4), filename);
    LETruncates(position, 4);
    LETruncates(flags, 2);
    LETruncates(serverId, 4);
  }

  // ----- the client

  class Client {
    const sock: Socket
    var isOpen: bool
    var nextSeq: Byte
    var binlogState: BinlogState
    /** The sequence numbers of the packets sent or accepted since the last
        reset. */
    ghost var numbers: seq<Byte>

    /** The i-th packet since the last reset carries i modulo 256, past any
        number of wraps. */
    ghost predicate Valid()
      reads this
    {
      && (forall i :: 0 <= i < |numbers| ==> numbers[i] == i % 256)
      && nextSeq == |numbers| % 256
    }

    ghost function At(buf: Buffer): Conn
      reads this, buf, sock
    {
      Conn(sock.incoming, nextSeq, buf.data)
    }

    ghost predicate IoFault<T>(r: Result<T>) {
      sock.faulty && (r == Err(ReadFailed) || r == Err(WriteFailed))
    }

    constructor (sock: Socket)
      ensures Valid() && this.sock == sock && isOpen && binlogState == NotReading && numbers == []
    {
      this.sock := sock;
      isOpen, nextSeq, binlogState, numbers := true, 0, NotReading, [];
    }

    method ResetSeq()
      modifies this`nextSeq, this`numbers
      ensures Valid() && nextSeq == 0 && numbers == []
    {
      nextSeq, numbers := 0, [];
    }

    method ReadCommand(buf: Buffer) returns (r: Result<()>)
      requires Valid()
      modifies this`nextSeq, this`numbers, buf, sock`incoming
      ensures Valid()
      ensures IoFault(r) || match Command(old(At(buf))) {
                case Ok(c) => r == Ok(()) && At(buf) == c && numbers == old(numbers) + [old(nextSeq)]
                case Err(e) => r == Err(e)
              }
      ensures r.Err? ==> nextSeq == old(nextSeq) && numbers == old(numbers)
    {
      hide ReadPacket;
      var seqno :- PB.ReadCommand(buf, sock);
      if seqno != nextSeq {
        return Err(OutOfSequence);
      }
      numbers := numbers + [seqno];
      nextSeq := (nextSeq + 1) % 256;
      return Ok(());
    }

    method WriteCommand(buf: Buffer) returns (r: Result<()>)
      requires Valid()
      modifies this`nextSeq, this`numbers, buf, sock`outgoing
      ensures Valid() && buf.data == [] && nextSeq == Succ(old(nextSeq)) && numbers == old(numbers) + [old(nextSeq)]
      ensures r.Ok? ==> sock.outgoing == old(sock.outgoing) + EncodePacket(old(buf.data), old(nextSeq))
      ensures r.Err? ==> IoFault(r)
    {
      var seqno := nextSeq;
      numbers := numbers + [seqno];
      nextSeq := (nextSeq + 1) % 256;
      r := PB.WriteCommand(buf, sock, seqno);
    }

    method ReceiveColumns(buf: Buffer, count: nat) returns (r: Result<seq<ColumnDef>>)
      requires Valid()
      modifies this`nextSeq, this`numbers, buf, sock`incoming
      ensures Valid()
      ensures IoFault(r) || Tracks(ReadColumns(old(At(buf)), count, []), r, At(buf))
    {
      hide Command, ParseColumn;
      ghost var start := At(buf);
      var columns: seq<ColumnDef> := [];
      while |columns| < count
        invariant Valid()
        invariant ReadColumns(start, count, []) == ReadColumns(At(buf), count, columns)
        decreases |sock.incoming|
      {
        var _ :- ReadCommand(buf);
        var column :- RemoveColumn(buf);
        columns := columns + [column];
      }
      return Ok(columns);
    }

    method ReceiveRows(buf: Buffer, columns: seq<ColumnDef>) returns (r: Result<ResultSet>)
      requires Valid()
      modifies this`nextSeq, this`numbers, buf, sock`incoming
      ensures Valid()
      ensures IoFault(r) || Tracks(ReadRows(old(At(buf)), columns, []), r, At(buf))
    {
      hide Command, ParseCells, ParseEof, MoreResults;
      ghost var start := At(buf);
      var rows: seq<seq<Cell>> := [];
      while true
        invariant Valid()
        invariant ReadRows(start, columns, []) == ReadRows(At(buf), columns, rows)
        decreases |sock.incoming|
      {
        var _ :- ReadCommand(buf);
        var first :- buf.PeekU8();
        if first == 0xFE {
          var res :- RemoveEof(buf, columns, rows);
          if MoreResults(res.statusFlags) {
            buf.DrainAll();
          }
          return Ok(res);
        }
        var row :- RemoveCells(buf, |columns|);
        rows := rows + [row];
      }
    }

    method ReceiveResultSet(buf: Buffer) returns (r: Result<ResultSet>)
      requires Valid()
      modifies this`nextSeq, this`numbers, buf, sock`incoming
      ensures Valid()
      ensures IoFault(r) || Tracks(ReadResultSet(old(At(buf))), r, At(buf))
    {
      hide Command, ParseOk, DecodeVarint, ReadColumns, ReadRows;
      var _ :- ReadCommand(buf);
      var response :- buf.PeekU8();
      if response == 0x00 {
        r := RemoveOk(buf);
        return;
      } else if response == 0xFF {
        // parse_error_body: error code and state, then always an exception
        var _ :- buf.RemoveLE(2);
        var _ :- buf.Remove(6);
        return Err(ServerError);
      } else if response == 0xFB {
        return Err(LocalInfile);
      }
      var count :- PB.RemoveVarint(buf);
      var columns :- ReceiveColumns(buf, count);
      r := ReceiveRows(buf, columns);
    }

    /** Sends the query and reads the whole response. Unless the socket fails
        the result is that of `ReadResultSets` on what the server sent, and
        nothing beyond the response is consumed. */
    method QueryMulti(sql: seq<Byte>) returns (r: Result<seq<ResultSet>>)
      requires Valid()
      modifies this`nextSeq, this`numbers, sock
      ensures Valid()
      ensures !isOpen ==> r == Err(NotConnected)
      ensures isOpen && !IoFault(r) ==>
        && sock.outgoing == old(sock.outgoing) + EncodePacket([0x03] + sql, 0)
        && match ReadResultSets(Conn(old(sock.incoming), 1, []), []) {
             case Ok((sets, c)) => r == Ok(sets) && sock.incoming == c.octets && nextSeq == c.seqno
             case Err(e) => r == Err(e)
           }
    {
      hide ReadResultSet, MoreResults, EncodePacket;
      if !isOpen {
        return Err(NotConnected);
      }
      ResetSeq();
      var buf := new Buffer();
      buf.Add([0x03]);
      buf.Add(sql);
      assert buf.data == [0x03] + sql;
      var _ :- WriteCommand(buf);
      ghost var start := At(buf);
      var ret: seq<ResultSet> := [];
      while true
        invariant Valid() && fresh(buf)
        invariant ReadResultSets(start, []) == ReadResultSets(At(buf), ret)
        invariant sock.outgoing == old(sock.outgoing) + EncodePacket([0x03] + sql, 0)
        decreases |sock.incoming|
      {
        ghost var now := At(buf);
        var res :- ReceiveResultSet(buf);
        ReadResultSetShrinks(now);
        ret := ret + [res];
        if !MoreResults(res.statusFlags) {
          return Ok(ret);
        }
      }
    }

    method Query(sql: seq<Byte>) returns (r: Result<ResultSet>)
      requires Valid()
      modifies this`nextSeq, this`numbers, sock
      ensures Valid()
      ensures !isOpen ==> r == Err(NotConnected)
      ensures isOpen && !IoFault(r) ==>
        && sock.outgoing == old(sock.outgoing) + EncodePacket([0x03] + sql, 0)
        && match ReadResultSets(Conn(old(sock.incoming), 1, []), []) {
             case Ok((sets, c)) =>
               r == (if |sets| == 1 then Ok(sets[0]) else Err(LogicError)) && sock.incoming == c.octets
             case Err(e) => r == Err(e)
           }
    {
      var sets :- QueryMulti(sql);
      if |sets| != 1 {
        return Err(LogicError);
      }
      return Ok(sets[0]);
    }

    method SendDump(filename: seq<Byte>, position: nat, serverId: nat, block: bool) returns (r: Result<()>)
      requires Valid()
      modifies this`nextSeq, this`numbers, sock`outgoing
      ensures Valid() && nextSeq == Succ(old(nextSeq)) && numbers == old(numbers) + [old(nextSeq)]
      ensures r.Ok? ==>
        sock.outgoing == old(sock.outgoing) + EncodePacket(DumpPayload(filename, position, serverId, block), old(nextSeq))
      ensures r.Err? ==> IoFault(r)
    {
      hide EncodePacket, ToLE;
      var buf := new Buffer();
      buf.Add([0x12]);
      buf.Add(ToLE(position, 4));
      buf.Add(ToLE(if block then 0x0000 else 0x0001, 2));
      buf.Add(ToLE(serverId, 4));
      buf.Add(filename);
      assert buf.data == DumpPayload(filename, position, serverId, block);
      r := WriteCommand(buf);
    }

    /** Starts a binlog stream. `random` stands for the generated server id. */
    method ReadBinlogs(filename: seq<Byte>, position: nat, serverId: nat, block: bool, random: nat) returns (r: Result<()>)
      requires Valid()
      modifies this, sock
      ensures Valid() && isOpen == old(isOpen)
      ensures !isOpen ==> r == Err(NotConnected)
      ensures r.Ok? ==>
        && binlogState == FirstEvent && nextSeq == 1 && numbers == [0]
        && (var sets := ReadResultSets(Conn(old(sock.incoming), 1, []), []);
            sets.Ok? && |sets.value.0| == 1 && sock.incoming == sets.value.1.octets)
        && (var who := if serverId == 0 then random else serverId;
            var payload := DumpPayload(filename, position, who, block);
            && ParseDump(payload) == Ok((Dump(position % U32, !block, who % U32), filename))
            && sock.outgoing == old(sock.outgoing) + EncodePacket([0x03] + Ascii("SET @master_binlog_checksum = 'ALL', @source_binlog_checksum = 'ALL'"), 0)
               + EncodePacket(payload, 0))
      ensures isOpen && r.Err? && !IoFault(r) ==>
        match ReadResultSets(Conn(old(sock.incoming), 1, []), []) {
          case Ok((sets, _)) => |sets| != 1 && r.error == LogicError
          case Err(e) => r.error == e
        }
    {
      hide EncodePacket, ReadResultSets, Ascii, DumpPayload, ParseDump;
      DumpIsUnderstood(filename, position, if serverId == 0 then random else serverId, block);
      if !isOpen {
        return Err(NotConnected);
      }
      var _ :- Query(Ascii(CHECKSUM_QUERY));
      ResetSeq();
      var _ :- SendDump(filename, position, if serverId == 0 then random else serverId, block);
      binlogState := FirstEvent;
      return Ok(());
    }

    method GetBinlogEvent() returns (r: Result<seq<Byte>>)
      requires Valid()
      modifies this`nextSeq, this`numbers, this`binlogState, sock`incoming
      ensures Valid()
      ensures !isOpen ==> r == Err(NotConnected)
      ensures isOpen && old(binlogState) == NotReading ==> r == Err(NotReadingBinlogs)
      ensures isOpen && old(binlogState) != NotReading && !IoFault(r) ==>
        Tracks(NextEvent(Conn(old(sock.incoming), old(nextSeq), []), old(binlogState)), r, Conn(sock.incoming, nextSeq, []))
      ensures binlogState == if r.Ok? then LaterEvent else if r == Err(EndOfBinlog) then NotReading else old(binlogState)
    {
      hide Command;
      if !isOpen {
        return Err(NotConnected);
      }
      if binlogState == NotReading {
        return Err(NotReadingBinlogs);
      }
      var buf := new Buffer();
      var c :- ReadCommand(buf);
      var command :- buf.RemoveU8();
      if command == 0xFE {
        binlogState := NotReading;
        return Err(EndOfBinlog);
      } else if command == 0 {
        var ret := buf.data;
        if binlogState != FirstEvent {
          if |ret| < 4 {
            return Err(NotEnoughData);
          }
          ret := ret[..|ret| - 4];
        }
        binlogState := LaterEvent;
        return Ok(ret);
      } else {
        return Err(BadBinlogPacket);
      }
    }

    /** Any number of calls in a row: they return what `EventsFrom` says, and
        so, for an encoded stream, its events in order. */
    method GetBinlogEvents(n: nat) returns (r: Result<seq<seq<Byte>>>)
      requires Valid() && isOpen && binlogState != NotReading
      modifies this`nextSeq, this`numbers, this`binlogState, sock`incoming
      ensures Valid()
      ensures IoFault(r) ||
        Tracks(EventsFrom(Conn(old(sock.incoming), old(nextSeq), []), old(binlogState), n), r, Conn(sock.incoming, nextSeq, []))
      decreases n
    {
      if n == 0 {
        return Ok([]);
      }
      hide NextEvent;
      var event :- GetBinlogEvent();
      var events :- GetBinlogEvents(n - 1);
      return Ok([event] + events);
    }
  }
}

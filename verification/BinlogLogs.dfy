/** What a server logs, and the proof that the processor reads it back. */
module BinlogLogs {
  import opened Results
  import opened Bytes
  import opened Varints
  import opened Binlogs
  import opened BinlogCodec
  import opened BinlogEvents
  import opened BinlogProcessors

  /** The parser a reader picks for the type octet of an event. */
  function ParserFor(etype: Byte): Parser {
    if etype == TABLE_MAP_EVENT then MapParser
    else if WriteTypeOf(etype).Ok? then RowsParser
    else if etype == QUERY_EVENT then QueryParser
    else if etype == XID_EVENT then XidParser
    else if etype == ROTATE_EVENT then RotateParser
    else if etype == FORMAT_DESCRIPTION_EVENT then FormatParser
    else UnknownParser
  }

  /** Everything a server can log: table maps and commits, each with whatever
      trails it, rows events about the tables mapped last, queries, rotations,
      the description of the format, and events of any other type. */
  datatype LogEvent =
    | MapTable(t: TableMap, trailer: seq<Byte>)
    | ChangeRows(rows: RowsEvent, version: nat)
    | RunQuery(query: QueryEvent, unused: Byte)
    | Rotate(rotate: RotateEvent)
    | Commit(xid: XidEvent, trailer: seq<Byte>)
    | Describe(format: FormatEvent, padding: seq<Byte>)
    | Other(header: Header, body: seq<Byte>)

  ghost predicate EventFits(tables: map<nat, TableInfo>, e: LogEvent) {
    match e
    case MapTable(t, _) => TableMapFits(t)
    case ChangeRows(rows, version) => RowsEventFits(rows, version) && rows.tableId in tables && tables[rows.tableId] == rows.info
    case RunQuery(query, _) => QueryFits(query)
    case Rotate(rotate) => RotateFits(rotate)
    case Commit(xid, _) => XidFits(xid)
    case Describe(format, padding) => FormatFits(format, padding)
    case Other(header, _) => HeaderFits(header) && header.etype !in {2, 4, 15, 16, 19, 20, 21, 22, 23, 24, 25, 30, 31, 32}
  }

  function HeaderOf(e: LogEvent): Header {
    match e
    case MapTable(t, _) => t.header
    case ChangeRows(rows, _) => rows.header
    case RunQuery(query, _) => query.header
    case Rotate(rotate) => rotate.header
    case Commit(xid, _) => xid.header
    case Describe(format, _) => format.header
    case Other(header, _) => header
  }

  ghost function EncodeEvent(tables: map<nat, TableInfo>, e: LogEvent): seq<Byte>
    requires EventFits(tables, e)
  {
    match e
    case MapTable(t, trailer) => EncodeTableMap(t, trailer)
    case ChangeRows(rows, version) => EncodeRowsEvent(rows, version)
    case RunQuery(query, unused) => EncodeQuery(query, unused)
    case Rotate(rotate) => EncodeRotate(rotate)
    case Commit(xid, trailer) => EncodeXid(xid, trailer)
    case Describe(format, padding) => EncodeFormat(format, padding)
    case Other(header, body) => EncodeHeader(header, body)
  }

  /** The reply the event should have. */
  function Expected(e: LogEvent): Reply {
    match e
    case MapTable(t, _) => Mapped(t.header, t.tableId, t.flags, None)
    case ChangeRows(rows, _) => Changed(rows)
    case RunQuery(query, _) => Queried(query)
    case Rotate(rotate) => Rotated(rotate)
    case Commit(xid, _) => Committed(xid)
    case Describe(format, _) => Described(format)
    case Other(header, _) => Skipped(header)
  }

  /** What is to be remembered after an event. */
  function Recorded(m: Memory, e: LogEvent): Memory {
    match e
    case MapTable(t, _) => Memory(m.tables[t.tableId := t.info], m.filename, t.header.endPosition)
    case Rotate(rotate) => Memory(m.tables, rotate.nextFilename, rotate.nextPosition)
    case _ => Memory(m.tables, m.filename, HeaderOf(e).endPosition)
  }

  lemma HeaderComesFirst(h: Header, rest: seq<Byte>)
    ensures |EncodeHeader(h, rest)| == 19 + |rest| && EncodeHeader(h, rest)[4] == h.etype
  {
    hide ToLE;
  }

  /** The parser that knows the event. */
  function ParserOf(e: LogEvent): Parser {
    match e
    case MapTable(_, _) => MapParser
    case ChangeRows(_, _) => RowsParser
    case RunQuery(_, _) => QueryParser
    case Rotate(_) => RotateParser
    case Commit(_, _) => XidParser
    case Describe(_, _) => FormatParser
    case Other(_, _) => UnknownParser
  }

  lemma RightParser(tables: map<nat, TableInfo>, e: LogEvent)
    requires EventFits(tables, e)
    ensures ParserFor(HeaderOf(e).etype) == ParserOf(e)
  {
    hide HeaderFits, ColumnsFit, ChangesFit, ExtraFits, Announced;
    if e.ChangeRows? {
      EventKinds(e.rows.header.etype, e.rows.writeType);
    }
  }

  lemma StartsWithHeader(tables: map<nat, TableInfo>, e: LogEvent) returns (rest: seq<Byte>)
    requires EventFits(tables, e)
    ensures EncodeEvent(tables, e) == EncodeHeader(HeaderOf(e), rest)
  {
    hide EncodeHeader, ToLE, EncodeColumns, EncodeName, EncodeExtra, EncodeVarint, EncodePresence, EncodeChanges,
         ColumnsFit, ChangesFit, ExtraFits, Announced;
    rest :| EncodeEvent(tables, e) == EncodeHeader(HeaderOf(e), rest);
  }

  /** The type octet of an encoded event is that of its header, and the reader
      picks the parser that knows the event. */
  lemma TypeOctet(tables: map<nat, TableInfo>, e: LogEvent)
    requires EventFits(tables, e)
    ensures var data := EncodeEvent(tables, e);
            |data| >= 19 && data[4] == HeaderOf(e).etype && ParserFor(data[4]) == ParserOf(e)
  {
    hide EncodeHeader, EncodeEvent, EventFits, ParserFor;
    RightParser(tables, e);
    var rest := StartsWithHeader(tables, e);
    HeaderComesFirst(HeaderOf(e), rest);
  }

  lemma ParsedBack(m: Memory, e: LogEvent)
    requires EventFits(m.tables, e)
    ensures Answer(m, Call(ParserOf(e), EncodeEvent(m.tables, e))) == Ok((Expected(e), Recorded(m, e)))
  {
    hide ParseTableMap, ParseRows, ParseQuery, ParseRotate, ParseXid, ParseFormat, TakeHeader, EncodeTableMap, EncodeRowsEvent,
         EncodeQuery, EncodeRotate, EncodeXid, EncodeFormat, EncodeHeader, ParserFor,
         TableMapFits, RowsEventFits, QueryFits, RotateFits, XidFits, FormatFits, HeaderFits;
    match e
    case MapTable(t, trailer) => TableMapRoundTrip(t, trailer);
    case ChangeRows(rows, version) => RowsEventRoundTrip(m.tables, rows, version);
    case RunQuery(query, unused) => QueryRoundTrip(query, unused);
    case Rotate(rotate) => RotateRoundTrip(rotate);
    case Commit(xid, trailer) => XidRoundTrip(xid, trailer);
    case Describe(format, padding) => FormatRoundTrip(format, padding);
    case Other(header, body) => HeaderRoundTrip(header, body);
  }

  lemma EventRoundTrip(m: Memory, e: LogEvent)
    requires EventFits(m.tables, e)
    ensures var data := EncodeEvent(m.tables, e);
            |data| >= 19 && Answer(m, Call(ParserFor(data[4]), data)) == Ok((Expected(e), Recorded(m, e)))
  {
    hide EventFits, EncodeEvent, Answer, Expected, Recorded, ParserFor, ParserOf;
    TypeOctet(m.tables, e);
    ParsedBack(m, e);
  }

  ghost predicate LogFits(m: Memory, log: seq<LogEvent>)
    decreases |log|
  {
    log == [] || (EventFits(m.tables, log[0]) && LogFits(Recorded(m, log[0]), log[1..]))
  }

  /** The calls a reader makes for a log. */
  ghost function CallsFor(m: Memory, log: seq<LogEvent>): seq<Call>
    requires LogFits(m, log)
    decreases |log|
  {
    if log == [] then []
    else
      var data := EncodeEvent(m.tables, log[0]);
      TypeOctet(m.tables, log[0]);
      [Call(ParserFor(data[4]), data)] + CallsFor(Recorded(m, log[0]), log[1..])
  }

  function ExpectedReplies(log: seq<LogEvent>): seq<Result<Reply>> {
    seq(|log|, i requires 0 <= i < |log| => Ok(Expected(log[i])))
  }

  /** A whole log is read back event by event; in particular every rows event,
      of any kind and version, gives the rows that were encoded under the table
      map in force. */
  lemma {:induction false} LogRoundTrip(m: Memory, log: seq<LogEvent>)
    requires LogFits(m, log)
    ensures Replies(m, CallsFor(m, log)) == ExpectedReplies(log)
    decreases |log|
  {
    hide Answer, EncodeEvent, EventFits, Recorded, Expected, ParserFor;
    if log != [] {
      EventRoundTrip(m, log[0]);
      var m' := Recorded(m, log[0]);
      LogRoundTrip(m', log[1..]);
      var calls := CallsFor(m, log);
      assert calls[1..] == CallsFor(m', log[1..]);
      assert Replies(m, calls) == [Ok(Expected(log[0]))] + Replies(m', calls[1..]);
      assert forall i :: 1 <= i < |log| ==> log[1..][i - 1] == log[i];
    }
  }
}

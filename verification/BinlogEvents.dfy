/** The other binlog events: queries, rotations, commits and the description
    of the format (src/Protocols/MySQL/BinlogProcessor.cc). */
module BinlogEvents {
  import opened Results
  import opened Bytes
  import opened Binlogs
  import opened BinlogCodec

  const QUERY_EVENT: Byte := 2
  const ROTATE_EVENT: Byte := 4
  const FORMAT_DESCRIPTION_EVENT: Byte := 15
  const XID_EVENT: Byte := 16

  datatype QueryEvent = QueryEvent(
    header: Header, connId: nat, execTime: nat, database: seq<Byte>, errorCode: nat, statusVars: seq<Byte>, query: seq<Byte>)

  datatype RotateEvent = RotateEvent(header: Header, nextFilename: seq<Byte>, nextPosition: nat)

  datatype XidEvent = XidEvent(header: Header, xid: nat)

  datatype FormatEvent = FormatEvent(
    header: Header, version: nat, serverVersion: seq<Byte>, timestamp: nat, headerLength: Byte, lengths: seq<Byte>)

  // ----- parsers

  function ParseQuery(data: seq<Byte>): Result<QueryEvent> {
    var (header, s1) :- TakeHeader(data);
    if header.etype != QUERY_EVENT then Err(WrongEventType)
    else
      var (connId, s2) :- TakeLE(s1, 4);
      var (execTime, s3) :- TakeLE(s2, 4);
      var (n, s4) :- TakeU8(s3);
      var (errorCode, s5) :- TakeLE(s4, 2);
      var (m, s6) :- TakeLE(s5, 2);
      var (statusVars, s7) :- Take(s6, m);
      var (database, s8) :- Take(s7, n);
      var (_, query) :- Take(s8, 1);
      Ok(QueryEvent(header, connId, execTime, database, errorCode, statusVars, query))
  }

  function ParseRotate(data: seq<Byte>): Result<RotateEvent> {
    var (header, s1) :- TakeHeader(data);
    if header.etype != ROTATE_EVENT then Err(WrongEventType)
    else
      var (position, filename) :- TakeLE(s1, 8);
      Ok(RotateEvent(header, filename, position))
  }

  function ParseXid(data: seq<Byte>): Result<XidEvent> {
    var (header, s1) :- TakeHeader(data);
    if header.etype != XID_EVENT then Err(WrongEventType)
    else
      var (xid, _) :- TakeLE(s1, 8);
      Ok(XidEvent(header, xid))
  }

  /** The lengths of the fixed parts that the source expects of events of type
      1 to 40. */
  const EXPECTED: seq<Byte> := [
    0x00, 0x0D, 0x00, 0x08, 0x00, 0x00, 0x00, 0x00, 0x04, 0x00, 0x04, 0x00, 0x00, 0x00, 0x61, 0x00, 0x04, 0x1A, 0x08, 0x00,
    0x00, 0x00, 0x08, 0x08, 0x08, 0x02, 0x00, 0x00, 0x00, 0x0A, 0x0A, 0x0A, 0x2A, 0x2A, 0x00, 0x12, 0x34, 0x00, 0x0A, 0x28]

  /** As far as both go, the lengths are the expected ones. */
  predicate LengthsAgree(lengths: seq<Byte>) {
    lengths <= EXPECTED || EXPECTED <= lengths
  }

  function UntilZero(s: seq<Byte>): seq<Byte> {
    if s == [] || s[0] == 0 then [] else [s[0]] + UntilZero(s[1..])
  }

  /** The type in the header is not checked here. */
  function ParseFormat(data: seq<Byte>): Result<FormatEvent> {
    var (header, s1) :- TakeHeader(data);
    var (version, s2) :- TakeLE(s1, 2);
    if version != 4 then Err(BadBinlogVersion)
    else
      var (serverVersion, s3) :- Take(s2, 50);
      var (timestamp, s4) :- TakeLE(s3, 4);
      var (headerLength, lengths) :- TakeU8(s4);
      if headerLength != 0x13 then Err(BadHeaderLength)
      else if !LengthsAgree(lengths) then Err(BadEventLengths)
      else Ok(FormatEvent(header, version, UntilZero(serverVersion), timestamp, headerLength, lengths))
  }

  /** How many octets the fixed part of an event has, by its type. */
  function FixedPart(t: nat): Byte {
    if t in {4, 19, 23, 24, 25} then 8
    else if t in {30, 31, 32, 39} then 10
    else if t in {9, 11, 17} then 4
    else if t in {33, 34} then 42
    else if t == 2 then 13
    else if t == 15 then 97
    else if t == 18 then 26
    else if t == 26 then 2
    else if t == 36 then 18
    else if t == 37 then 52
    else if t == 40 then 40
    else 0
  }

  /** The lengths a server announces are these, as far as it knows the types up
      to 40; what it announces for others does not matter. */
  ghost predicate Announced(lengths: seq<Byte>) {
    forall i :: 0 <= i < |lengths| && i < 40 ==> lengths[i] == FixedPart(i + 1)
  }

  lemma ExpectedTable()
    ensures |EXPECTED| == 40 && Announced(EXPECTED)
  {
  }

  lemma LengthsAgreeIff(lengths: seq<Byte>)
    ensures LengthsAgree(lengths) <==> Announced(lengths)
  {
    ExpectedTable();
    hide FixedPart;
  }

  lemma {:induction false} UntilZeroIs(a: seq<Byte>, b: seq<Byte>)
    requires 0 !in a && (b == [] || b[0] == 0)
    ensures UntilZero(a + b) == a
  {
    if a == [] {
      assert a + b == b;
    } else {
      UntilZeroIs(a[1..], b);
      assert (a + b)[1..] == a[1..] + b;
      assert a == [a[0]] + a[1..];
    }
  }

  /** A format description is accepted if and only if version, header length and
      event lengths are the expected ones; otherwise the first that is not gives
      the error. */
  lemma FormatDecides(h: Header, version: nat, name: seq<Byte>, timestamp: nat, headerLength: Byte, lengths: seq<Byte>)
    requires HeaderFits(h) && version < U16 && |name| == 50 && timestamp < U32
    ensures ParseFormat(EncodeHeader(h, ToLE(version, 2) + (name + (ToLE(timestamp, 4) + ([headerLength] + lengths))))) ==
            if version != 4 then Err(BadBinlogVersion)
            else if headerLength != 19 then Err(BadHeaderLength)
            else if !Announced(lengths) then Err(BadEventLengths)
            else Ok(FormatEvent(h, 4, UntilZero(name), timestamp, 19, lengths))
  {
    LengthsAgreeIff(lengths);
    hide EncodeHeader, TakeHeader, TakeLE, ToLE, Take, UntilZero, LengthsAgree, Announced;
    Pow256Values();
    var e4 := [headerLength] + lengths;
    var e3 := ToLE(timestamp, 4) + e4;
    var e2 := name + e3;
    HeaderRoundTrip(h, ToLE(version, 2) + e2);
    TakeLEOfToLE(version, 2, e2);
    TakeOfConcat(name, e3);
    TakeLEOfToLE(timestamp, 4, e4);
    assert e4[1..] == lengths;
  }

  /** An event of another type is refused by these parsers, whatever it says. */
  lemma OtherTypeIsRefused(h: Header, body: seq<Byte>)
    requires HeaderFits(h)
    ensures h.etype != 2 ==> ParseQuery(EncodeHeader(h, body)) == Err(WrongEventType)
    ensures h.etype != 4 ==> ParseRotate(EncodeHeader(h, body)) == Err(WrongEventType)
    ensures h.etype != 16 ==> ParseXid(EncodeHeader(h, body)) == Err(WrongEventType)
  {
    hide EncodeHeader, TakeHeader, TakeLE;
    HeaderRoundTrip(h, body);
  }

  // ----- encoders

  ghost predicate QueryFits(e: QueryEvent) {
    && HeaderFits(e.header) && e.header.etype == 2 && e.connId < U32 && e.execTime < U32 && e.errorCode < U16
    && |e.database| < 256 && |e.statusVars| < U16
  }

  ghost function EncodeQuery(e: QueryEvent, unused: Byte): seq<Byte>
    requires QueryFits(e)
  {
    EncodeHeader(e.header, ToLE(e.connId, 4) + (ToLE(e.execTime, 4) + ([|e.database|] + (ToLE(e.errorCode, 2)
    + (ToLE(|e.statusVars|, 2) + (e.statusVars + (e.database + ([unused] + e.query))))))))
  }

  lemma QueryRoundTrip(e: QueryEvent, unused: Byte)
    requires QueryFits(e)
    ensures ParseQuery(EncodeQuery(e, unused)) == Ok(e)
  {
    hide EncodeHeader, TakeHeader, TakeLE, ToLE, Take;
    Pow256Values();
    var e8 := [unused] + e.query;
    var e7 := e.database + e8;
    var e6 := e.statusVars + e7;
    var e5 := ToLE(|e.statusVars|, 2) + e6;
    var e4 := ToLE(e.errorCode, 2) + e5;
    var e3 := [|e.database|] + e4;
    var e2 := ToLE(e.execTime, 4) + e3;
    HeaderRoundTrip(e.header, ToLE(e.connId, 4) + e2);
    TakeLEOfToLE(e.connId, 4, e2);
    TakeLEOfToLE(e.execTime, 4, e3);
    assert e3[1..] == e4;
    TakeLEOfToLE(e.errorCode, 2, e5);
    TakeLEOfToLE(|e.statusVars|, 2, e6);
    TakeOfConcat(e.statusVars, e7);
    TakeOfConcat(e.database, e8);
    TakeOfConcat([unused], e.query);
  }

  ghost predicate RotateFits(e: RotateEvent) {
    HeaderFits(e.header) && e.header.etype == 4 && e.nextPosition < U64
  }

  ghost function EncodeRotate(e: RotateEvent): seq<Byte>
    requires RotateFits(e)
  {
    EncodeHeader(e.header, ToLE(e.nextPosition, 8) + e.nextFilename)
  }

  lemma RotateRoundTrip(e: RotateEvent)
    requires RotateFits(e)
    ensures ParseRotate(EncodeRotate(e)) == Ok(e)
  {
    hide EncodeHeader, TakeHeader, TakeLE, ToLE;
    Pow256Values();
    HeaderRoundTrip(e.header, ToLE(e.nextPosition, 8) + e.nextFilename);
    TakeLEOfToLE(e.nextPosition, 8, e.nextFilename);
  }

  ghost predicate XidFits(e: XidEvent) {
    HeaderFits(e.header) && e.header.etype == 16 && e.xid < U64
  }

  ghost function EncodeXid(e: XidEvent, trailer: seq<Byte>): seq<Byte>
    requires XidFits(e)
  {
    EncodeHeader(e.header, ToLE(e.xid, 8) + trailer)
  }

  lemma XidRoundTrip(e: XidEvent, trailer: seq<Byte>)
    requires XidFits(e)
    ensures ParseXid(EncodeXid(e, trailer)) == Ok(e)
  {
    hide EncodeHeader, TakeHeader, TakeLE, ToLE;
    Pow256Values();
    HeaderRoundTrip(e.header, ToLE(e.xid, 8) + trailer);
    TakeLEOfToLE(e.xid, 8, trailer);
  }

  /** The version string fills its field, or ends at a zero and anything may
      follow. */
  ghost predicate FormatFits(e: FormatEvent, padding: seq<Byte>) {
    && HeaderFits(e.header) && e.header.etype == 15 && e.version == 4
    && 0 !in e.serverVersion && |e.serverVersion + padding| == 50 && (padding == [] || padding[0] == 0)
    && e.timestamp < U32 && e.headerLength == 19 && Announced(e.lengths)
  }

  ghost function EncodeFormat(e: FormatEvent, padding: seq<Byte>): seq<Byte>
    requires FormatFits(e, padding)
  {
    EncodeHeader(e.header, ToLE(e.version, 2) + ((e.serverVersion + padding) + (ToLE(e.timestamp, 4) + ([e.headerLength] + e.lengths))))
  }

  lemma FormatRoundTrip(e: FormatEvent, padding: seq<Byte>)
    requires FormatFits(e, padding)
    ensures ParseFormat(EncodeFormat(e, padding)) == Ok(e)
  {
    hide EncodeHeader, ParseFormat, ToLE, UntilZero, Announced;
    UntilZeroIs(e.serverVersion, padding);
    FormatDecides(e.header, e.version, e.serverVersion + padding, e.timestamp, e.headerLength, e.lengths);
  }
}

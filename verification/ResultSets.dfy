/** Responses to a query, as octets and as result sets.

    The decoder half is `Client::query_multi` of src/Protocols/MySQL/Client.cc
    on values; the encoder half is the layout of a server's response that the
    client reads. A cell is the text of a value, or `None` for NULL.
 */
module ResultSets {
  import opened Results
  import opened Bytes
  import opened Varints

  type Cell = Option<seq<Byte>>

  datatype ColumnDef = ColumnDef(
    catalog: seq<Byte>, database: seq<Byte>, table: seq<Byte>, originalTable: seq<Byte>,
    name: seq<Byte>, originalName: seq<Byte>,
    charset: nat, maxLength: nat, ctype: Byte, flags: nat, decimals: Byte)

  datatype ResultSet = ResultSet(
    columns: seq<ColumnDef>, rows: seq<seq<Cell>>,
    affectedRows: nat, insertId: nat, statusFlags: nat, warningCount: nat)

  /** StatusFlag::MORE_RESULTS_EXIST. */
  predicate MoreResults(flags: nat) {
    flags / 8 % 2 == 1
  }

  /** The client in the middle of a response: the octets to come, the next
      sequence number and what is left in the buffer. */
  datatype Conn = Conn(octets: seq<Byte>, seqno: Byte, buf: seq<Byte>)

  function Succ(seqno: Byte): Byte {
    (seqno + 1) % 256
  }

  function Advance(seqno: Byte, n: nat): Byte {
    (seqno + n) % 256
  }

  lemma AdvanceAdd(seqno: Byte, a: nat, b: nat)
    ensures Advance(Advance(seqno, a), b) == Advance(seqno, a + b)
    ensures Succ(seqno) == Advance(seqno, 1) && Advance(seqno, 0) == seqno
  {
  }

  /** Client::read_command. */
  function Command(c: Conn): (r: Result<Conn>)
    ensures r.Ok? ==> |r.value.octets| < |c.octets| && c.buf == []
    ensures r.Err? ==> r.error in {BufferNotEmpty, EndOfStream, OutOfSequence}
  {
    if c.buf != [] then Err(BufferNotEmpty)
    else
      var ((seqno, payload), rest) :- ReadPacket(c.octets);
      if seqno != c.seqno then Err(OutOfSequence) else Ok(Conn(rest, Succ(c.seqno), payload))
  }

  // ----- what the client does with a response

  function ParseOk(p: seq<Byte>): Parsed<ResultSet> {
    var (_, p0) :- TakeU8(p);
    var (affected, p1) :- DecodeVarint(p0);
    var (insertId, p2) :- DecodeVarint(p1);
    var (flags, p3) :- TakeLE(p2, 2);
    var (warnings, p4) :- TakeLE(p3, 2);
    Ok((ResultSet([], [], affected, insertId, flags, warnings), p4))
  }

  function ParseColumnNumbers(p: seq<Byte>): Parsed<(nat, nat, Byte, nat, Byte)> {
    var (charset, p1) :- TakeLE(p, 2);
    var (maxLength, p2) :- TakeLE(p1, 4);
    var (ctype, p3) :- TakeU8(p2);
    var (flags, p4) :- TakeLE(p3, 2);
    var (decimals, p5) :- TakeU8(p4);
    var (_, p6) :- TakeLE(p5, 2);
    Ok(((charset, maxLength, ctype, flags, decimals), p6))
  }

  function ParseColumn(p: seq<Byte>): Parsed<ColumnDef> {
    var (s, p1) :- DecodeStrings(6, p);
    DecodeStringsLength(6, p);
    var (header, p2) :- DecodeVarint(p1);
    if header != 0x0C then Err(BadColumnHeader)
    else
      var (n, p3) :- ParseColumnNumbers(p2);
      Ok((ColumnDef(s[0], s[1], s[2], s[3], s[4], s[5], n.0, n.1, n.2, n.3, n.4), p3))
  }

  lemma {:induction false} DecodeStringsLength(n: nat, s: seq<Byte>)
    requires DecodeStrings(n, s).Ok?
    ensures |DecodeStrings(n, s).value.0| == n
  {
    if n > 0 {
      DecodeStringsLength(n - 1, DecodeString(s).value.1);
    }
  }

  function ParseCell(p: seq<Byte>): Parsed<Cell> {
    if p == [] then Err(NotEnoughData)
    else if p[0] == 0xFB then Ok((None, p[1..]))
    else
      var (text, rest) :- DecodeString(p);
      Ok((Some(text), rest))
  }

  function ParseCells(n: nat, p: seq<Byte>): Parsed<seq<Cell>> {
    if n == 0 then Ok(([], p))
    else
      var (cell, p1) :- ParseCell(p);
      var (cells, p2) :- ParseCells(n - 1, p1);
      Ok(([cell] + cells, p2))
  }

  function ParseEof(p: seq<Byte>, columns: seq<ColumnDef>, rows: seq<seq<Cell>>): Parsed<ResultSet> {
    var (_, p0) :- TakeU8(p);
    var (warnings, p1) :- TakeLE(p0, 2);
    var (flags, p2) :- TakeLE(p1, 2);
    Ok((ResultSet(columns, rows, 0, 0, flags, warnings), p2))
  }

  function ReadColumns(c: Conn, count: nat, columns: seq<ColumnDef>): Result<(seq<ColumnDef>, Conn)>
    decreases |c.octets|
  {
    if |columns| >= count then Ok((columns, c))
    else
      var c1 :- Command(c);
      var (column, p) :- ParseColumn(c1.buf);
      ReadColumns(c1.(buf := p), count, columns + [column])
  }

  function ReadRows(c: Conn, columns: seq<ColumnDef>, rows: seq<seq<Cell>>): Result<(ResultSet, Conn)>
    decreases |c.octets|
  {
    var c1 :- Command(c);
    if c1.buf == [] then Err(NotEnoughData)
    else if c1.buf[0] == 0xFE then
      var (res, p) :- ParseEof(c1.buf, columns, rows);
      Ok((res, c1.(buf := if MoreResults(res.statusFlags) then [] else p)))
    else
      var (row, p) :- ParseCells(|columns|, c1.buf);
      ReadRows(c1.(buf := p), columns, rows + [row])
  }

  /** One turn of the outer loop of query_multi. */
  function ReadResultSet(c: Conn): Result<(ResultSet, Conn)> {
    var c1 :- Command(c);
    if c1.buf == [] then Err(NotEnoughData)
    else if c1.buf[0] == 0x00 then
      var (res, p) :- ParseOk(c1.buf);
      Ok((res, c1.(buf := p)))
    else if c1.buf[0] == 0xFF then
      Err(if |c1.buf| < 8 then NotEnoughData else ServerError)
    else if c1.buf[0] == 0xFB then
      Err(LocalInfile)
    else
      var (count, p) :- DecodeVarint(c1.buf);
      var (columns, c2) :- ReadColumns(c1.(buf := p), count, []);
      ReadRows(c2, columns, [])
  }

  lemma {:induction false} ReadColumnsShrinks(c: Conn, count: nat, columns: seq<ColumnDef>)
    requires ReadColumns(c, count, columns).Ok?
    ensures |ReadColumns(c, count, columns).value.1.octets| <= |c.octets|
    decreases |c.octets|
  {
    if |columns| < count {
      var c1 := Command(c).value;
      var (column, p) := ParseColumn(c1.buf).value;
      ReadColumnsShrinks(c1.(buf := p), count, columns + [column]);
    }
  }

  lemma {:induction false} ReadRowsShrinks(c: Conn, columns: seq<ColumnDef>, rows: seq<seq<Cell>>)
    requires ReadRows(c, columns, rows).Ok?
    ensures |ReadRows(c, columns, rows).value.1.octets| < |c.octets|
    decreases |c.octets|
  {
    var c1 := Command(c).value;
    if c1.buf[0] != 0xFE {
      var (row, p) := ParseCells(|columns|, c1.buf).value;
      ReadRowsShrinks(c1.(buf := p), columns, rows + [row]);
    }
  }

  lemma ReadResultSetShrinks(c: Conn)
    requires ReadResultSet(c).Ok?
    ensures |ReadResultSet(c).value.1.octets| < |c.octets|
  {
    var c1 := Command(c).value;
    if c1.buf[0] != 0x00 {
      var (count, p) := DecodeVarint(c1.buf).value;
      ReadColumnsShrinks(c1.(buf := p), count, []);
      var (columns, c2) := ReadColumns(c1.(buf := p), count, []).value;
      ReadRowsShrinks(c2, columns, []);
    }
  }

  function ReadResultSets(c: Conn, done: seq<ResultSet>): Result<(seq<ResultSet>, Conn)>
    decreases |c.octets|
  {
    var (res, c1) :- ReadResultSet(c);
    ReadResultSetShrinks(c);
    if MoreResults(res.statusFlags) then ReadResultSets(c1, done + [res])
    else Ok((done + [res], c1))
  }
}

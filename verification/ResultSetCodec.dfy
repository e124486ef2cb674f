/** The server's side of a query response, and the proof that the client reads
    back exactly what was encoded, up to any number of packets. */
module ResultSetCodec {
  import opened Results
  import opened Bytes
  import opened Varints
  import opened ResultSets

  // ----- payloads

  function EncodeOk(r: ResultSet, trailer: seq<Byte>): seq<Byte> {
    [0x00] + (EncodeVarint(r.affectedRows) + (EncodeVarint(r.insertId)
    + (ToLE(r.statusFlags, 2) + (ToLE(r.warningCount, 2) + trailer))))
  }

  /** `length` should be twelve; `unused` is two octets that nobody looks at. */
  function EncodeColumnWith(d: ColumnDef, length: nat, unused: nat, rest: seq<Byte>): seq<Byte> {
    EncodeStrings(Names(d), EncodeVarint(length) + EncodeColumnNumbers(d, unused, rest))
  }

  function EncodeColumnNumbers(d: ColumnDef, unused: nat, rest: seq<Byte>): seq<Byte> {
    ToLE(d.charset, 2) + (ToLE(d.maxLength, 4) + ([d.ctype] + (ToLE(d.flags, 2) + ([d.decimals] + (ToLE(unused, 2) + rest)))))
  }

  function Names(d: ColumnDef): seq<seq<Byte>> {
    [d.catalog, d.database, d.table, d.originalTable, d.name, d.originalName]
  }

  function EncodeColumn(d: ColumnDef): seq<Byte> {
    EncodeColumnWith(d, 12, 0, [])
  }

  function EncodeCell(cell: Cell, rest: seq<Byte>): seq<Byte> {
    match cell
    case None => [0xFB] + rest
    case Some(text) => EncodeString(text, rest)
  }

  function EncodeCells(cells: seq<Cell>): seq<Byte> {
    if cells == [] then [] else EncodeCell(cells[0], EncodeCells(cells[1..]))
  }

  function EncodeEof(r: ResultSet, trailer: seq<Byte>): seq<Byte> {
    [0xFE] + (ToLE(r.warningCount, 2) + (ToLE(r.statusFlags, 2) + trailer))
  }

  // ----- packets

  function EncodeColumns(columns: seq<ColumnDef>, seqno: Byte, rest: seq<Byte>): seq<Byte> {
    if columns == [] then rest
    else EncodePacket(EncodeColumn(columns[0]), seqno) + EncodeColumns(columns[1..], Succ(seqno), rest)
  }

  function EncodeRows(rows: seq<seq<Cell>>, seqno: Byte, rest: seq<Byte>): seq<Byte> {
    if rows == [] then rest
    else EncodePacket(EncodeCells(rows[0]), seqno) + EncodeRows(rows[1..], Succ(seqno), rest)
  }

  function PacketCount(r: ResultSet): nat {
    if r.columns == [] then 1 else 2 + |r.columns| + |r.rows|
  }

  /** A response without columns is an OK packet; otherwise the column count,
      the column definitions, the rows and a terminator. `trailer` is what the
      server appends to the OK packet or the terminator. */
  function EncodeSet(r: ResultSet, trailer: seq<Byte>, seqno: Byte, rest: seq<Byte>): seq<Byte> {
    if r.columns == [] then EncodePacket(EncodeOk(r, trailer), seqno) + rest
    else
      var q1 := Succ(seqno);
      var q2 := Advance(q1, |r.columns|);
      var q3 := Advance(q2, |r.rows|);
      EncodePacket(EncodeVarint(|r.columns|), seqno)
      + EncodeColumns(r.columns, q1, EncodeRows(r.rows, q2, EncodePacket(EncodeEof(r, trailer), q3) + rest))
  }

  function EncodeSets(sets: seq<ResultSet>, trailers: seq<seq<Byte>>, seqno: Byte, rest: seq<Byte>): seq<Byte>
    requires |sets| == |trailers|
  {
    if sets == [] then rest
    else EncodeSet(sets[0], trailers[0], seqno,
                   EncodeSets(sets[1..], trailers[1..], Advance(seqno, PacketCount(sets[0])), rest))
  }

  // ----- what can be encoded

  ghost predicate ColumnFits(d: ColumnDef) {
    d.charset < U16 && d.maxLength < U32 && d.flags < U16 && |EncodeColumn(d)| < U24
    && forall s :: s in Names(d) ==> |s| < U64
  }

  ghost predicate RowFits(row: seq<Cell>, columns: nat) {
    |row| == columns && |EncodeCells(row)| < U24
  }

  ghost predicate SetFits(r: ResultSet, trailer: seq<Byte>) {
    && r.statusFlags < U16 && r.warningCount < U16
    && if r.columns == [] then
         r.rows == [] && r.affectedRows < U64 && r.insertId < U64 && |EncodeOk(r, trailer)| < U24
       else
         && r.affectedRows == 0 && r.insertId == 0 && |r.columns| < U64 && |EncodeEof(r, trailer)| < U24
         && (forall d :: d in r.columns ==> ColumnFits(d))
         && (forall row :: row in r.rows ==> RowFits(row, |r.columns|))
  }

  /** The server's side: bit 3 of the status flags announces another result. */
  predicate Announces(flags: nat) {
    Bit(flags, 3)
  }

  lemma MoreResultsIsBit(flags: nat)
    ensures MoreResults(flags) <==> Announces(flags)
  {
    assert Bit(flags, 3) == Bit(flags / 2, 2) == Bit(flags / 2 / 2, 1) == Bit(flags / 2 / 2 / 2, 0);
  }

  /** A whole response: every set but the last announces another one. */
  ghost predicate ResponseFits(sets: seq<ResultSet>, trailers: seq<seq<Byte>>) {
    && |sets| == |trailers| > 0
    && forall k :: 0 <= k < |sets| ==>
         SetFits(sets[k], trailers[k]) && (Announces(sets[k].statusFlags) <==> k < |sets| - 1)
  }

  /** No OK packet before the last result carries anything behind its fields. */
  ghost predicate Trimmed(sets: seq<ResultSet>, trailers: seq<seq<Byte>>)
    requires |sets| == |trailers|
  {
    forall k :: 0 <= k < |sets| - 1 && sets[k].columns == [] ==> trailers[k] == []
  }

  // ----- payloads are read back

  lemma OkRoundTrip(r: ResultSet, trailer: seq<Byte>)
    requires r.columns == [] && SetFits(r, trailer)
    ensures ParseOk(EncodeOk(r, trailer)) == Ok((r, trailer))
  {
    hide EncodeVarint, DecodeVarint, TakeLE, ToLE;
    Pow256Values();
    var e4 := ToLE(r.warningCount, 2) + trailer;
    var e3 := ToLE(r.statusFlags, 2) + e4;
    var e2 := EncodeVarint(r.insertId) + e3;
    var e1 := EncodeVarint(r.affectedRows) + e2;
    assert EncodeOk(r, trailer)[1..] == e1;
    VarintRoundTrip(r.affectedRows, e2);
    VarintRoundTrip(r.insertId, e3);
    TakeLEOfToLE(r.statusFlags, 2, e4);
    TakeLEOfToLE(r.warningCount, 2, trailer);
  }

  lemma EofRoundTrip(r: ResultSet, trailer: seq<Byte>)
    requires r.columns != [] && SetFits(r, trailer)
    ensures ParseEof(EncodeEof(r, trailer), r.columns, r.rows) == Ok((r, trailer))
    ensures EncodeEof(r, trailer) != [] && EncodeEof(r, trailer)[0] == 0xFE
  {
    hide TakeLE, ToLE;
    Pow256Values();
    var e1 := ToLE(r.statusFlags, 2) + trailer;
    assert EncodeEof(r, trailer)[1..] == ToLE(r.warningCount, 2) + e1;
    TakeLEOfToLE(r.warningCount, 2, e1);
    TakeLEOfToLE(r.statusFlags, 2, trailer);
  }

  lemma ColumnNumbersRoundTrip(d: ColumnDef, unused: nat, rest: seq<Byte>)
    requires ColumnFits(d) && unused < U16
    ensures ParseColumnNumbers(EncodeColumnNumbers(d, unused, rest)) == Ok(((d.charset, d.maxLength, d.ctype, d.flags, d.decimals), rest))
  {
    hide TakeLE, ToLE, EncodeColumn;
    Pow256Values();
    var e5 := ToLE(unused, 2) + rest;
    var e4 := [d.decimals] + e5;
    var e3 := ToLE(d.flags, 2) + e4;
    var e2 := [d.ctype] + e3;
    var e1 := ToLE(d.maxLength, 4) + e2;
    TakeLEOfToLE(d.charset, 2, e1);
    TakeLEOfToLE(d.maxLength, 4, e2);
    assert e2[1..] == e3 && e4[1..] == e5;
    TakeLEOfToLE(d.flags, 2, e4);
    TakeLEOfToLE(unused, 2, rest);
  }

  /** A column definition is read back and nothing behind it is touched, if and
      only if the length of its fixed part is twelve. */
  lemma ColumnHeaderIff(d: ColumnDef, length: nat, unused: nat, rest: seq<Byte>)
    requires ColumnFits(d) && length < U64 && unused < U16
    ensures ParseColumn(EncodeColumnWith(d, length, unused, rest)) == if length == 12 then Ok((d, rest)) else Err(BadColumnHeader)
  {
    hide DecodeStrings, EncodeStrings, DecodeVarint, EncodeVarint, EncodeColumnNumbers, ParseColumnNumbers;
    StringsRoundTrip(Names(d), EncodeVarint(length) + EncodeColumnNumbers(d, unused, rest));
    VarintRoundTrip(length, EncodeColumnNumbers(d, unused, rest));
    ColumnNumbersRoundTrip(d, unused, rest);
  }

  lemma ColumnRoundTrip(d: ColumnDef)
    requires ColumnFits(d)
    ensures ParseColumn(EncodeColumn(d)) == Ok((d, []))
  {
    hide ParseColumn, EncodeColumnWith;
    ColumnHeaderIff(d, 12, 0, []);
  }

  /** NULL is never mistaken for text nor text for NULL: 0xFB starts no string. */
  lemma CellRoundTrip(cell: Cell, rest: seq<Byte>)
    requires cell.Some? ==> |cell.value| < U64
    ensures ParseCell(EncodeCell(cell, rest)) == Ok((cell, rest))
  {
    match cell
    case None =>
      assert ([0xFB] + rest)[1..] == rest;
    case Some(text) =>
      VarintFirstOctet(|text|);
      StringRoundTrip(text, rest);
      assert EncodeString(text, rest)[0] == EncodeVarint(|text|)[0];
  }

  lemma CellSizes(cells: seq<Cell>)
    requires cells != []
    ensures |EncodeCells(cells[1..])| < |EncodeCells(cells)|
    ensures cells[0].Some? ==> |cells[0].value| < |EncodeCells(cells)|
  {
    VarintFirstOctet(if cells[0].Some? then |cells[0].value| else 0);
  }

  lemma {:induction false} CellsRoundTrip(cells: seq<Cell>)
    requires |EncodeCells(cells)| < U64
    ensures ParseCells(|cells|, EncodeCells(cells)) == Ok((cells, []))
  {
    if cells != [] {
      CellSizes(cells);
      hide EncodeCell, ParseCell;
      CellsRoundTrip(cells[1..]);
      CellRoundTrip(cells[0], EncodeCells(cells[1..]));
      assert cells == [cells[0]] + cells[1..];
    }
  }

  /** A row that fits into a packet is never mistaken for the terminator. */
  lemma RowIsNotEof(row: seq<Cell>)
    requires row != [] && |EncodeCells(row)| < U24
    ensures EncodeCells(row) != [] && EncodeCells(row)[0] != 0xFE
  {
    CellSizes(row);
    if row[0].Some? {
      VarintFirstOctet(|row[0].value|);
    }
  }

  // ----- packets are read back

  lemma CommandOfPacket(payload: seq<Byte>, seqno: Byte, rest: seq<Byte>)
    requires |payload| < U24
    ensures Command(Conn(EncodePacket(payload, seqno) + rest, seqno, [])) == Ok(Conn(rest, Succ(seqno), payload))
  {
    hide EncodePacket, ReadPacket;
    PacketRoundTrip(payload, seqno, rest);
  }

  /** A packet that is out of sequence is refused. */
  lemma WrongNumberIsRefused(payload: seq<Byte>, number: Byte, seqno: Byte, rest: seq<Byte>)
    requires |payload| < U24
    ensures Command(Conn(EncodePacket(payload, number) + rest, seqno, [])) == Err(OutOfSequence) <==> number != seqno
  {
    hide EncodePacket, ReadPacket;
    PacketRoundTrip(payload, number, rest);
  }

  lemma {:induction false} ColumnsRoundTrip(done: seq<ColumnDef>, todo: seq<ColumnDef>, seqno: Byte, rest: seq<Byte>)
    requires forall d :: d in todo ==> ColumnFits(d)
    ensures ReadColumns(Conn(EncodeColumns(todo, seqno, rest), seqno, []), |done| + |todo|, done) ==
            Ok((done + todo, Conn(rest, Advance(seqno, |todo|), [])))
    decreases |todo|
  {
    hide EncodePacket, Command, ParseColumn, EncodeColumn, Advance;
    AdvanceAdd(seqno, 1, if todo == [] then 0 else |todo| - 1);
    if todo == [] {
      assert done + todo == done;
    } else {
      var d := todo[0];
      assert ColumnFits(d);
      CommandOfPacket(EncodeColumn(d), seqno, EncodeColumns(todo[1..], Succ(seqno), rest));
      ColumnRoundTrip(d);
      ColumnsRoundTrip(done + [d], todo[1..], Succ(seqno), rest);
      assert done + [d] + todo[1..] == done + todo;
    }
  }

  lemma {:induction false} RowsRoundTrip(r: ResultSet, k: nat, trailer: seq<Byte>, seqno: Byte, rest: seq<Byte>)
    requires r.columns != [] && SetFits(r, trailer) && k <= |r.rows|
    ensures var end := Advance(seqno, |r.rows| - k);
            ReadRows(Conn(EncodeRows(r.rows[k..], seqno, EncodePacket(EncodeEof(r, trailer), end) + rest), seqno, []),
                     r.columns, r.rows[..k]) ==
            Ok((r, Conn(rest, Succ(end), if Announces(r.statusFlags) then [] else trailer)))
    decreases |r.rows| - k
  {
    hide EncodePacket, Command, ParseCells, EncodeCells, ParseEof, EncodeEof, MoreResults, Announces, Advance;
    MoreResultsIsBit(r.statusFlags);
    AdvanceAdd(seqno, 1, if k == |r.rows| then 0 else |r.rows| - k - 1);
    var end := Advance(seqno, |r.rows| - k);
    var tail := EncodePacket(EncodeEof(r, trailer), end) + rest;
    if k == |r.rows| {
      assert r.rows[k..] == [] && r.rows[..k] == r.rows;
      CommandOfPacket(EncodeEof(r, trailer), seqno, rest);
      EofRoundTrip(r, trailer);
    } else {
      var row := r.rows[k];
      assert r.rows[k..][0] == row && r.rows[k..][1..] == r.rows[k + 1..];
      assert RowFits(row, |r.columns|);
      CommandOfPacket(EncodeCells(row), seqno, EncodeRows(r.rows[k + 1..], Succ(seqno), tail));
      RowIsNotEof(row);
      CellsRoundTrip(row);
      RowsRoundTrip(r, k + 1, trailer, Succ(seqno), rest);
      assert r.rows[..k] + [row] == r.rows[..k + 1];
    }
  }

  lemma SetRoundTrip(r: ResultSet, trailer: seq<Byte>, seqno: Byte, rest: seq<Byte>)
    requires SetFits(r, trailer)
    ensures ReadResultSet(Conn(EncodeSet(r, trailer, seqno, rest), seqno, [])) ==
            Ok((r, Conn(rest, Advance(seqno, PacketCount(r)),
                        if r.columns != [] && Announces(r.statusFlags) then [] else trailer)))
  {
    hide EncodePacket, Command, EncodeOk, ParseOk, ReadColumns, ReadRows, EncodeColumns, EncodeRows, Announces,
         EncodeVarint, DecodeVarint, EncodeEof, Advance, Succ;
    AdvanceAdd(seqno, 0, 0);
    if r.columns == [] {
      CommandOfPacket(EncodeOk(r, trailer), seqno, rest);
      OkRoundTrip(r, trailer);
      OkFirst(r, trailer);
    } else {
      var q1 := Succ(seqno);
      var q2 := Advance(q1, |r.columns|);
      var rows := EncodeRows(r.rows, q2, EncodePacket(EncodeEof(r, trailer), Advance(q2, |r.rows|)) + rest);
      VarintFirstOctet(|r.columns|);
      CommandOfPacket(EncodeVarint(|r.columns|), seqno, EncodeColumns(r.columns, q1, rows));
      AdvanceAdd(seqno, 1, |r.columns|);
      AdvanceAdd(seqno, 1 + |r.columns|, |r.rows|);
      AdvanceAdd(seqno, 1 + |r.columns| + |r.rows|, 1);
      AdvanceAdd(Advance(q2, |r.rows|), 0, 0);
      VarintRoundTrip(|r.columns|, []);
      assert EncodeVarint(|r.columns|) + [] == EncodeVarint(|r.columns|);
      ColumnsRoundTrip([], r.columns, q1, rows);
      assert [] + r.columns == r.columns;
      RowsRoundTrip(r, 0, trailer, q2, rest);
      assert r.rows[0..] == r.rows && r.rows[..0] == [];
    }
  }

  lemma OkFirst(r: ResultSet, trailer: seq<Byte>)
    ensures EncodeOk(r, trailer) != [] && EncodeOk(r, trailer)[0] == 0x00
  {
  }

  lemma CommandNeedsEmptyBuffer(c: Conn)
    requires c.buf != []
    ensures ReadResultSet(c) == Err(BufferNotEmpty)
  {
  }

  lemma TrimmedTail(sets: seq<ResultSet>, trailers: seq<seq<Byte>>)
    requires |sets| == |trailers| > 1 && ResponseFits(sets, trailers)
    ensures ResponseFits(sets[1..], trailers[1..])
    ensures Trimmed(sets, trailers) <==> (sets[0].columns == [] ==> trailers[0] == []) && Trimmed(sets[1..], trailers[1..])
  {
    hide SetFits, Announces;
    assert forall k :: 1 <= k < |sets| ==> sets[1..][k - 1] == sets[k] && trailers[1..][k - 1] == trailers[k];
  }

  /** The client returns exactly the result sets of the response, in order,
      for any number of packets, and consumes exactly its octets, if and only
      if no OK packet before the last result has a trailer: only terminators
      are drained, so the next read finds the buffer occupied. */
  lemma {:induction false} ResponseRoundTripIff(
      done: seq<ResultSet>, sets: seq<ResultSet>, trailers: seq<seq<Byte>>, seqno: Byte, rest: seq<Byte>)
    requires ResponseFits(sets, trailers)
    ensures var r := ReadResultSets(Conn(EncodeSets(sets, trailers, seqno, rest), seqno, []), done);
            if Trimmed(sets, trailers) then r.Ok? && r.value.0 == done + sets && r.value.1.octets == rest
            else r == Err(BufferNotEmpty)
    decreases |sets|
  {
    hide EncodeSet, ReadResultSet, SetFits, MoreResults, Announces;
    MoreResultsIsBit(sets[0].statusFlags);
    var next := Advance(seqno, PacketCount(sets[0]));
    var more := EncodeSets(sets[1..], trailers[1..], next, rest);
    SetRoundTrip(sets[0], trailers[0], seqno, more);
    if |sets| > 1 {
      TrimmedTail(sets, trailers);
      if sets[0].columns == [] && trailers[0] != [] {
        CommandNeedsEmptyBuffer(Conn(more, next, trailers[0]));
      } else {
        ResponseRoundTripIff(done + [sets[0]], sets[1..], trailers[1..], next, rest);
        assert done + [sets[0]] + sets[1..] == done + sets;
      }
    } else {
      assert sets == [sets[0]] && sets[1..] == [];
    }
  }

  /** An OK packet that announces another result. */
  const FIRST_OK := ResultSet([], [], 0, 0, 8, 0)

  const LAST_OK := ResultSet([], [], 0, 0, 0, 0)

  /** The smallest response that is refused: two OK packets, the first with one
      octet behind its fields. */
  lemma TrailerBeforeSecondResult()
    ensures ResponseFits([FIRST_OK, LAST_OK], [[0x2A], []])
    ensures ReadResultSets(Conn(EncodeSets([FIRST_OK, LAST_OK], [[0x2A], []], 1, []), 1, []), []) == Err(BufferNotEmpty)
  {
    var sets, trailers := [FIRST_OK, LAST_OK], [[0x2A], []];
    MoreResultsIsBit(8);
    MoreResultsIsBit(0);
    assert SetFits(FIRST_OK, [0x2A]) && SetFits(LAST_OK, []);
    assert !Trimmed(sets, trailers) by {
      assert sets[0].columns == [] && trailers[0] != [];
    }
    ResponseRoundTripIff([], sets, trailers, 1, []);
  }

  // ----- responses that are refused

  /** What the first octet of a packet says where a result may begin. */
  lemma FirstOctetDecides(payload: seq<Byte>, seqno: Byte, rest: seq<Byte>)
    requires |payload| < U24
    ensures var r := ReadResultSet(Conn(EncodePacket(payload, seqno) + rest, seqno, []));
            && (payload == [] ==> r == Err(NotEnoughData))
            && (|payload| >= 8 && payload[0] == 0xFF ==> r == Err(ServerError))
            && (0 < |payload| < 8 && payload[0] == 0xFF ==> r == Err(NotEnoughData))
            && (payload != [] && payload[0] == 0xFB ==> r == Err(LocalInfile))
  {
    hide EncodePacket, Command, ParseOk, ReadColumns, ReadRows, DecodeVarint;
    CommandOfPacket(payload, seqno, rest);
  }

  function PacketTotal(sets: seq<ResultSet>): nat {
    if sets == [] then 0 else PacketCount(sets[0]) + PacketTotal(sets[1..])
  }

  /** An ERR packet after any number of complete results is an error. */
  lemma {:induction false} ErrorEndsResponse(
      done: seq<ResultSet>, sets: seq<ResultSet>, trailers: seq<seq<Byte>>, payload: seq<Byte>, seqno: Byte, rest: seq<Byte>)
    requires |sets| == |trailers| && 8 <= |payload| < U24 && payload[0] == 0xFF
    requires forall k :: 0 <= k < |sets| ==>
               && SetFits(sets[k], trailers[k]) && Announces(sets[k].statusFlags)
               && (sets[k].columns == [] ==> trailers[k] == [])
    ensures var error := EncodePacket(payload, Advance(seqno, PacketTotal(sets))) + rest;
            ReadResultSets(Conn(EncodeSets(sets, trailers, seqno, error), seqno, []), done) == Err(ServerError)
    decreases |sets|
  {
    hide EncodeSet, ReadResultSet, SetFits, MoreResults, Announces, EncodePacket, Advance, PacketCount;
    if sets == [] {
      AdvanceAdd(seqno, 0, 0);
      FirstOctetDecides(payload, seqno, rest);
    } else {
      var error := EncodePacket(payload, Advance(seqno, PacketTotal(sets))) + rest;
      var next := Advance(seqno, PacketCount(sets[0]));
      AdvanceAdd(seqno, PacketCount(sets[0]), PacketTotal(sets[1..]));
      MoreResultsIsBit(sets[0].statusFlags);
      SetRoundTrip(sets[0], trailers[0], seqno, EncodeSets(sets[1..], trailers[1..], next, error));
      ErrorEndsResponse(done + [sets[0]], sets[1..], trailers[1..], payload, next, rest);
    }
  }

  /** In place of a row, an ERR packet is taken for a row and fails as one, and
      an empty packet fails. */
  lemma ErrorAmongRows(columns: seq<ColumnDef>, rows: seq<seq<Cell>>, payload: seq<Byte>, seqno: Byte, rest: seq<Byte>)
    requires columns != [] && |payload| < U24 && (payload != [] ==> payload[0] == 0xFF)
    ensures ReadRows(Conn(EncodePacket(payload, seqno) + rest, seqno, []), columns, rows) ==
            Err(if payload == [] then NotEnoughData else InvalidVarint)
  {
    hide EncodePacket, Command;
    CommandOfPacket(payload, seqno, rest);
    VarintAccepted(payload);
  }

  lemma CellThenMore(cell: Cell, rest: seq<Byte>, extra: seq<Byte>)
    ensures EncodeCell(cell, rest) + extra == EncodeCell(cell, rest + extra)
  {
    if cell.Some? {
      var n := EncodeVarint(|cell.value|);
      assert n + (cell.value + rest) + extra == n + (cell.value + (rest + extra));
    }
  }

  lemma {:induction false} CellsThenMore(cells: seq<Cell>, extra: seq<Byte>)
    requires |EncodeCells(cells)| < U64
    ensures ParseCells(|cells|, EncodeCells(cells) + extra) == Ok((cells, extra))
  {
    if cells == [] {
      assert [] + extra == extra;
    } else {
      CellSizes(cells);
      hide EncodeCell, ParseCell;
      CellThenMore(cells[0], EncodeCells(cells[1..]), extra);
      CellRoundTrip(cells[0], EncodeCells(cells[1..]) + extra);
      CellsThenMore(cells[1..], extra);
      assert cells == [cells[0]] + cells[1..];
    }
  }

  lemma ReadRowsNeedsEmptyBuffer(c: Conn, columns: seq<ColumnDef>, rows: seq<seq<Cell>>)
    requires c.buf != []
    ensures ReadRows(c, columns, rows) == Err(BufferNotEmpty)
  {
  }

  /** Anything behind the cells of a row is fatal: the buffer is not empty at the
      next packet. */
  lemma LeftoverAfterRow(columns: seq<ColumnDef>, rows: seq<seq<Cell>>, row: seq<Cell>, extra: seq<Byte>, seqno: Byte, rest: seq<Byte>)
    requires columns != [] && RowFits(row, |columns|) && extra != [] && |EncodeCells(row) + extra| < U24
    ensures ReadRows(Conn(EncodePacket(EncodeCells(row) + extra, seqno) + rest, seqno, []), columns, rows) == Err(BufferNotEmpty)
  {
    hide EncodePacket, Command, ParseCells, EncodeCells;
    CommandOfPacket(EncodeCells(row) + extra, seqno, rest);
    RowIsNotEof(row);
    CellsThenMore(row, extra);
    ReadRowsNeedsEmptyBuffer(Conn(rest, Succ(seqno), extra), columns, rows + [row]);
  }

  /** Anything behind a column definition or the column count is fatal, too. */
  lemma LeftoverAfterColumn(d: ColumnDef, count: nat, columns: seq<ColumnDef>, unused: nat, extra: seq<Byte>, seqno: Byte, rest: seq<Byte>)
    requires ColumnFits(d) && unused < U16 && extra != [] && |columns| + 1 < count
    requires |EncodeColumnWith(d, 12, unused, extra)| < U24
    ensures ReadColumns(Conn(EncodePacket(EncodeColumnWith(d, 12, unused, extra), seqno) + rest, seqno, []), count, columns) == Err(BufferNotEmpty)
  {
    hide EncodePacket, Command, ParseColumn, EncodeColumnWith;
    CommandOfPacket(EncodeColumnWith(d, 12, unused, extra), seqno, rest);
    ColumnHeaderIff(d, 12, unused, extra);
    ReadColumnsNeedsEmptyBuffer(Conn(rest, Succ(seqno), extra), count, columns + [d]);
  }

  lemma ReadColumnsNeedsEmptyBuffer(c: Conn, count: nat, columns: seq<ColumnDef>)
    requires c.buf != [] && |columns| < count
    ensures ReadColumns(c, count, columns) == Err(BufferNotEmpty)
  {
  }

  lemma LeftoverAfterCount(count: nat, extra: seq<Byte>, seqno: Byte, rest: seq<Byte>)
    requires 0 < count < U64 && extra != [] && |EncodeVarint(count) + extra| < U24
    ensures ReadResultSet(Conn(EncodePacket(EncodeVarint(count) + extra, seqno) + rest, seqno, [])) == Err(BufferNotEmpty)
  {
    hide EncodePacket, Command, EncodeVarint, DecodeVarint, ReadColumns, ReadRows;
    CommandOfPacket(EncodeVarint(count) + extra, seqno, rest);
    VarintFirstOctet(count);
    VarintRoundTrip(count, extra);
    ReadColumnsNeedsEmptyBuffer(Conn(rest, Succ(seqno), extra), count, []);
  }
}

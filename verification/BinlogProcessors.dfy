/** The binlog processor: the parsers of row events as they move a cursor, and
    the tables they remember (src/Protocols/MySQL/BinlogProcessor.cc). */
module BinlogProcessors {
  import opened Results
  import opened Bytes
  import opened Varints
  import opened ProtocolBuffers
  import opened Binlogs
  import opened BinlogEvents

  // ----- cells and rows

  method ReadFractionalPart(r: StringReader, precision: Byte) returns (usecs: Result<nat>)
    requires r.Valid()
    modifies r
    ensures r.Valid() && r.pos >= old(r.pos)
    ensures Follows(TakeFraction(old(r.Rest()), precision), usecs, r.Rest())
  {
    if precision == 0 {
      return Ok(0);
    } else if precision <= 2 {
      var v :- r.GetU8();
      return Ok(v as nat * 10000);
    } else if precision <= 4 {
      var v :- r.GetBE(2);
      return Ok(v * 100);
    } else if precision <= 6 {
      usecs := r.GetBE(3);
    } else {
      return Err(BadTypeValue);
    }
  }

  method ReadUIntCell(r: StringReader, n: nat) returns (v: Result<Value>)
    requires r.Valid()
    modifies r
    ensures r.Valid() && r.pos >= old(r.pos)
    ensures Follows(ReadUInt(old(r.Rest()), n), v, r.Rest())
  {
    var x :- r.GetLE(n);
    return Ok(UInt(x));
  }

  method ReadSizedCell(r: StringReader, n: nat) returns (v: Result<Value>)
    requires r.Valid()
    modifies r
    ensures r.Valid() && r.pos >= old(r.pos)
    ensures Follows(ReadSized(old(r.Rest()), n), v, r.Rest())
  {
    var size :- r.GetLE(n);
    var text :- r.Read(size);
    return Ok(Text(text));
  }

  method ReadStringCell(r: StringReader, meta: seq<Byte>) returns (v: Result<Value>)
    requires r.Valid() && |meta| == 2
    modifies r
    ensures r.Valid() && r.pos >= old(r.pos)
    ensures Follows(ReadString(old(r.Rest()), meta), v, r.Rest())
  {
    if meta[0] == T_SET || meta[0] == T_ENUM {
      var text :- r.Read(SizeOfChar(meta[1]));
      return Ok(Text(text));
    }
    v := ReadSizedCell(r, if DisplayWidth(meta[0], meta[1]) > 255 then 2 else 1);
  }

  method ReadTimestamp2Cell(r: StringReader, meta: seq<Byte>) returns (v: Result<Value>)
    requires r.Valid()
    modifies r
    ensures r.Valid() && r.pos >= old(r.pos)
    ensures Follows(ReadTimestamp2(old(r.Rest()), meta), v, r.Rest())
  {
    var x :- r.GetLE(4);
    if |meta| != 1 {
      return Err(BadTypeOptions);
    }
    if meta[0] != 0 {
      var _ :- r.Read(HalfSize(meta[0]));
    }
    return Ok(UInt(x));
  }

  method ReadDateTime2Cell(r: StringReader, precision: Byte) returns (v: Result<Value>)
    requires r.Valid()
    modifies r
    ensures r.Valid() && r.pos >= old(r.pos)
    ensures Follows(ReadDateTime2(old(r.Rest()), precision), v, r.Rest())
  {
    hide TakeFraction, UnpackDateTime, FromBE;
    var hi :- r.GetBE(4);
    var lo :- r.GetU8();
    var usecs :- ReadFractionalPart(r, precision);
    return Ok(UnpackDateTime(hi * 256 + lo, usecs));
  }

  method ReadTime2Cell(r: StringReader, precision: Byte) returns (v: Result<Value>)
    requires r.Valid()
    modifies r
    ensures r.Valid() && r.pos >= old(r.pos)
    ensures Follows(ReadTime2(old(r.Rest()), precision), v, r.Rest())
  {
    hide TakeFraction, UnpackTime, FromBE;
    var octets :- r.Read(3);
    var usecs :- ReadFractionalPart(r, precision);
    Pow256Values();
    BEInverse(octets);
    return Ok(UnpackTime(FromBE(octets), usecs));
  }

  method ReadCellData(r: StringReader, c: Column) returns (v: Result<Value>)
    requires r.Valid()
    modifies r
    ensures r.Valid() && r.pos >= old(r.pos)
    ensures Follows(ReadCell(old(r.Rest()), c), v, r.Rest())
  {
    hide ReadUInt, ReadSized, ReadString, ReadTimestamp2, ReadDateTime2, ReadTime2, FromLE;
    if c.ctype == T_NULL {
      return Ok(Null);
    } else if c.ctype == T_TINYINT || c.ctype == T_YEAR {
      v := ReadUIntCell(r, 1);
    } else if c.ctype == T_SMALLINT {
      v := ReadUIntCell(r, 2);
    } else if c.ctype == T_MEDIUMINT {
      v := ReadUIntCell(r, 3);
    } else if c.ctype == T_INT {
      v := ReadUIntCell(r, 4);
    } else if c.ctype == T_BIGINT {
      v := ReadUIntCell(r, 8);
    } else if c.ctype == T_FLOAT {
      var octets :- r.Read(4);
      return Ok(Float32(octets));
    } else if c.ctype == T_DOUBLE {
      var octets :- r.Read(8);
      return Ok(Float64(octets));
    } else if IsBlob(c.ctype) {
      if |c.meta| != 1 {
        return Err(BadTypeOptions);
      } else if 1 <= c.meta[0] <= 4 {
        v := ReadSizedCell(r, c.meta[0]);
      } else {
        return Err(BadTypeValue);
      }
    } else if IsString(c.ctype) {
      if |c.meta| != 2 {
        return Err(BadTypeOptions);
      }
      v := ReadStringCell(r, c.meta);
    } else if c.ctype == T_VARCHAR {
      if |c.meta| != 2 {
        return Err(BadTypeOptions);
      }
      v := ReadSizedCell(r, if FromLE(c.meta) > 255 then 2 else 1);
    } else if c.ctype == T_TIMESTAMP {
      var x :- r.GetLE(4);
      return Ok(UInt(x * 1000000));
    } else if c.ctype == T_TIMESTAMP2 {
      v := ReadTimestamp2Cell(r, c.meta);
    } else if c.ctype == T_DATETIME2 {
      if |c.meta| != 1 {
        return Err(BadTypeOptions);
      }
      v := ReadDateTime2Cell(r, c.meta[0]);
    } else if c.ctype == T_TIME2 {
      if |c.meta| != 1 {
        return Err(BadTypeOptions);
      }
      v := ReadTime2Cell(r, c.meta[0]);
    } else {
      return Err(BadColumnType);
    }
  }

  /** What remains to be done after the cells in `row` were read. */
  ghost function Resumed(row: seq<Value>, rest: Parsed<seq<Value>>): Parsed<seq<Value>> {
    match rest
    case Ok((more, s)) => Ok((row + more, s))
    case Err(e) => Err(e)
  }

  lemma ResumeStep(row: seq<Value>, s: seq<Byte>, columns: seq<Column>, nulls: seq<bool>, k: nat)
    requires |nulls| == |columns| && k < |columns|
    ensures var cell := ReadMaskedCell(s, columns[k], nulls[k]);
            var here := Resumed(row, ReadCells(s, columns[k..], nulls[k..]));
            here == if cell.Err? then Err(cell.error)
                    else Resumed(row + [cell.value.0], ReadCells(cell.value.1, columns[k + 1..], nulls[k + 1..]))
  {
    hide ReadMaskedCell;
    assert columns[k..][1..] == columns[k + 1..] && nulls[k..][1..] == nulls[k + 1..];
    var cell := ReadMaskedCell(s, columns[k], nulls[k]);
    if cell.Ok? {
      var more := ReadCells(cell.value.1, columns[k + 1..], nulls[k + 1..]);
      if more.Ok? {
        assert row + ([cell.value.0] + more.value.0) == row + [cell.value.0] + more.value.0;
      }
    }
  }

  method ReadRowData(r: StringReader, columns: seq<Column>) returns (row: Result<seq<Value>>)
    requires r.Valid()
    modifies r
    ensures r.Valid() && r.pos >= old(r.pos)
    ensures Follows(ReadRow(old(r.Rest()), columns), row, r.Rest())
  {
    hide ReadCell, TakeBits, ReadCells;
    var nulls :- r.GetBitmask(|columns|);
    TakeBitsLength(old(r.Rest()), |columns|);
    ghost var start := r.Rest();
    var cells: seq<Value> := [];
    EmptyResume(ReadCells(start, columns, nulls));
    assert columns[0..] == columns && nulls[0..] == nulls;
    for k := 0 to |columns|
      invariant r.Valid() && r.pos >= old(r.pos) && |cells| == k
      invariant ReadCells(start, columns, nulls) == Resumed(cells, ReadCells(r.Rest(), columns[k..], nulls[k..]))
    {
      ResumeStep(cells, r.Rest(), columns, nulls, k);
      if nulls[k] {
        if !columns[k].nullable {
          return Err(UnexpectedNull);
        }
        cells := cells + [Null];
      } else {
        var v :- ReadCellData(r, columns[k]);
        cells := cells + [v];
      }
    }
    NoCellsLeft(cells, r.Rest());
    assert columns[|columns|..] == [] && nulls[|columns|..] == [];
    return Ok(cells);
  }

  lemma EmptyResume(p: Parsed<seq<Value>>)
    ensures Resumed([], p) == p
  {
    if p.Ok? {
      assert [] + p.value.0 == p.value.0;
    }
  }

  lemma NoCellsLeft(row: seq<Value>, s: seq<Byte>)
    ensures Resumed(row, ReadCells(s, [], [])) == Ok((row, s))
  {
    assert row + [] == row;
  }

  // ----- events

  lemma ColumnsStep(types: seq<Byte>, metas: seq<Byte>, nullable: seq<bool>, k: nat)
    requires |types| == |nullable| && k < |types| && MetadataBytes(types[k]).Ok?
    ensures var meta := Take(metas, MetadataBytes(types[k]).value);
            BuildColumns(types[k..], metas, nullable[k..])
            == if meta.Err? then Err(meta.error)
               else Continue([Column(types[k], meta.value.0, nullable[k])],
                             BuildColumns(types[k + 1..], meta.value.1, nullable[k + 1..]))
  {
    hide MetadataBytes;
    assert types[k..][1..] == types[k + 1..] && nullable[k..][1..] == nullable[k + 1..];
  }

  lemma UnknownTypeStep(types: seq<Byte>, metas: seq<Byte>, nullable: seq<bool>, k: nat)
    requires |types| == |nullable| && k < |types| && MetadataBytes(types[k]).Err?
    ensures BuildColumns(types[k..], metas, nullable[k..]) == Err(MetadataBytes(types[k]).error)
  {
    hide MetadataBytes;
  }

  method ReadEventHeader(r: StringReader) returns (h: Result<Header>)
    requires r.Valid()
    modifies r
    ensures r.Valid() && r.pos >= old(r.pos)
    ensures Follows(TakeHeader(old(r.Rest())), h, r.Rest())
  {
    hide TakeLE;
    var timestamp :- r.GetLE(4);
    var etype :- r.GetU8();
    var serverId :- r.GetLE(4);
    var length :- r.GetLE(4);
    var endPosition :- r.GetLE(4);
    var flags :- r.GetLE(2);
    return Ok(Header(timestamp, etype, serverId, length, endPosition, flags));
  }

  method ReadName(r: StringReader) returns (name: Result<seq<Byte>>)
    requires r.Valid()
    modifies r
    ensures r.Valid() && r.pos >= old(r.pos)
    ensures Follows(TakeName(old(r.Rest())), name, r.Rest())
  {
    var n :- r.GetU8();
    name := r.Read(n);
    if name.Ok? {
      var _ :- r.Read(1);
    }
  }

  method ReadTypes(r: StringReader, n: nat) returns (types: Result<seq<Byte>>)
    requires r.Valid()
    modifies r
    ensures r.Valid() && r.pos >= old(r.pos)
    ensures Follows(Take(old(r.Rest()), n), types, r.Rest())
  {
    ghost var start := r.Rest();
    var octets: seq<Byte> := [];
    for x := 0 to n
      invariant r.Valid() && r.pos >= old(r.pos)
      invariant x <= |start| && octets == start[..x] && r.Rest() == start[x..]
    {
      var t :- r.GetU8();
      octets := octets + [t];
    }
    return Ok(octets);
  }

  method AssembleColumns(types: seq<Byte>, metas: seq<Byte>, nullable: seq<bool>) returns (columns: Result<seq<Column>>)
    requires |types| == |nullable|
    ensures columns == BuildColumns(types, metas, nullable)
  {
    hide BuildColumns, MetadataBytes;
    var r := new StringReader(metas);
    var cs: seq<Column> := [];
    assert types[0..] == types && nullable[0..] == nullable;
    ContinueBegins(BuildColumns(types, metas, nullable));
    for k := 0 to |types|
      invariant r.Valid() && fresh(r)
      invariant BuildColumns(types, metas, nullable) == Continue(cs, BuildColumns(types[k..], r.Rest(), nullable[k..]))
    {
      ghost var rest := r.Rest();
      var n := MetadataBytes(types[k]);
      if n.Err? {
        UnknownTypeStep(types, rest, nullable, k);
        return Err(n.error);
      }
      ColumnsStep(types, rest, nullable, k);
      var meta :- r.Read(n.value);
      var c := Column(types[k], meta, nullable[k]);
      ContinueStep(cs, c, BuildColumns(types[k + 1..], r.Rest(), nullable[k + 1..]));
      cs := cs + [c];
    }
    ContinueEnds(cs);
    assert types[|types|..] == [] && nullable[|types|..] == [];
    NoColumnsLeft(r.Rest());
    var eof := r.Eof();
    if !eof {
      return Err(TrailingMetadata);
    }
    return Ok(cs);
  }

  lemma NoColumnsLeft(metas: seq<Byte>)
    ensures BuildColumns([], metas, []) == if metas == [] then Ok([]) else Err(TrailingMetadata)
  {
  }

  method ReadColumns(r: StringReader) returns (columns: Result<seq<Column>>)
    requires r.Valid()
    modifies r
    ensures r.Valid()
    ensures columns == TakeColumns(old(r.Rest()))
  {
    hide DecodeVarint, DecodeString, TakeBits, BuildColumns;
    var n :- r.GetVarint();
    var types :- ReadTypes(r, n);
    var metas :- r.GetVarString();
    ghost var rest := r.Rest();
    var nullable :- r.GetBitmask(n);
    TakeBitsLength(rest, n);
    columns := AssembleColumns(types, metas, nullable);
  }

  method ReadExtra(r: StringReader, v2: bool) returns (extra: Result<seq<Byte>>)
    requires r.Valid()
    modifies r
    ensures r.Valid() && r.pos >= old(r.pos)
    ensures Follows(TakeExtra(old(r.Rest()), v2), extra, r.Rest())
  {
    hide FromLE;
    extra := Ok([]);
    if v2 {
      var n :- r.GetLE(2);
      extra := r.Read(if n >= 2 then n - 2 else U64 + n - 2);
    }
  }

  method ReadPresence(r: StringReader, columns: nat, masks: nat) returns (ok: Result<()>)
    requires r.Valid()
    modifies r
    ensures r.Valid() && r.pos >= old(r.pos)
    ensures Follows(TakePresence(old(r.Rest()), columns, masks), ok, r.Rest())
  {
    hide TakeBits;
    for x := 0 to masks
      invariant r.Valid() && r.pos >= old(r.pos)
      invariant TakePresence(old(r.Rest()), columns, masks) == TakePresence(r.Rest(), columns, masks - x)
    {
      var bits :- r.GetBitmask(columns);
      for i := 0 to |bits|
        invariant false !in bits[..i]
      {
        if !bits[i] {
          return Err(ColumnAbsent);
        }
        assert bits[..i + 1] == bits[..i] + [bits[i]];
      }
      assert bits[..|bits|] == bits;
    }
    return Ok(());
  }

  method ReadRowImage(r: StringReader, columns: seq<Column>, present: bool) returns (row: Result<seq<Value>>, size: nat)
    requires r.Valid()
    modifies r
    ensures r.Valid() && r.pos >= old(r.pos) && size == r.pos - old(r.pos)
    ensures Follows(ReadImage(old(r.Rest()), columns, present), row, r.Rest())
  {
    row, size := Ok([]), 0;
    if present {
      var start := r.pos;
      row := ReadRowData(r, columns);
      size := r.pos - start;
    }
  }

  method ReadRowChange(r: StringReader, columns: seq<Column>, pre: bool, post: bool) returns (change: Result<RowChange>)
    requires r.Valid()
    modifies r
    ensures r.Valid() && r.pos >= old(r.pos)
    ensures Follows(ReadChange(old(r.Rest()), columns, pre, post), change, r.Rest())
  {
    hide ReadImage;
    var before, preBytes := ReadRowImage(r, columns, pre);
    if before.Err? {
      return Err(before.error);
    }
    var after, postBytes := ReadRowImage(r, columns, post);
    if after.Err? {
      return Err(after.error);
    }
    return Ok(RowChange(preBytes, postBytes, before.value, after.value));
  }

  /** The loop over the rows, watched for one turn per octet and one more: if
      it has not stopped by then, it never will. */
  method ReadRowChanges(r: StringReader, columns: seq<Column>, pre: bool, post: bool) returns (rows: Result<seq<RowChange>>)
    requires r.Valid() && (pre || post)
    modifies r
    ensures r.Valid()
    ensures rows == ReadChanges(old(r.Rest()), columns, pre, post)
  {
    hide ReadChanges, ReadChange, Turns, Turn, StringReader.Rest;
    ghost var s := r.Rest();
    ghost var start := Turning(s, []);
    NoTurns(start, columns, pre, post);
    var changes: seq<RowChange> := [];
    var turns := |r.data| - r.pos + 1;
    assert turns == |s| + 1 by { Remaining(r); }
    for k := 0 to turns
      invariant r.Valid()
      invariant Turns(start, columns, pre, post, k) == Turning(r.Rest(), changes)
    {
      OneMoreTurn(start, columns, pre, post, k);
      TurnOf(r.Rest(), changes, columns, pre, post);
      var eof := r.Eof();
      if eof {
        LoopResult(s, columns, pre, post, k + 1);
        return Ok(changes);
      }
      var change := ReadRowChange(r, columns, pre, post);
      if change.Err? {
        LoopResult(s, columns, pre, post, k + 1);
        return Err(change.error);
      }
      changes := changes + [change.value];
    }
    LoopRuns(s, columns, pre, post);
    return Err(Diverges);
  }

  lemma Remaining(r: StringReader)
    requires r.Valid()
    ensures |r.Rest()| == |r.data| - r.pos
  {
  }

  lemma TurnOf(s: seq<Byte>, rows: seq<RowChange>, columns: seq<Column>, pre: bool, post: bool)
    ensures s == [] ==> Turn(Turning(s, rows), columns, pre, post) == Stopped(Ok(rows))
    ensures var change := ReadChange(s, columns, pre, post);
            s != [] ==>
              && (change.Ok? ==> Turn(Turning(s, rows), columns, pre, post) == Turning(change.value.1, rows + [change.value.0]))
              && (change.Err? ==> Turn(Turning(s, rows), columns, pre, post) == Stopped(Err(change.error)))
  {
    hide ReadChange;
  }

  lemma OneMoreTurn(l: Loop, columns: seq<Column>, pre: bool, post: bool, k: nat)
    ensures Turns(l, columns, pre, post, k + 1) == Turn(Turns(l, columns, pre, post, k), columns, pre, post)
  {
  }

  method ReadTableMap(data: seq<Byte>) returns (t: Result<TableMap>)
    ensures t == ParseTableMap(data)
  {
    hide TakeHeader, TakeLE, TakeName, TakeColumns;
    var r := new StringReader(data);
    var header :- ReadEventHeader(r);
    if header.etype != TABLE_MAP_EVENT {
      return Err(WrongEventType);
    }
    var tableId :- r.GetLE(6);
    var flags :- r.GetLE(2);
    var database :- ReadName(r);
    var table :- ReadName(r);
    var columns :- ReadColumns(r);
    return Ok(TableMap(header, tableId, flags, TableInfo(database, table, columns)));
  }

  method ReadRows(tables: map<nat, TableInfo>, data: seq<Byte>) returns (ev: Result<RowsEvent>)
    ensures ev == ParseRows(tables, data)
  {
    hide TakeHeader, TakeLE, TakeExtra, DecodeVarint, TakePresence, ReadChanges;
    var r := new StringReader(data);
    var header :- ReadEventHeader(r);
    var writeType :- WriteTypeOf(header.etype);
    var tableId :- r.GetLE(6);
    if tableId == 0xFFFFFF {
      return Err(TableMapFree);
    }
    if tableId !in tables {
      return Err(UnknownTable);
    }
    var info := tables[tableId];
    var flags :- r.GetLE(2);
    var extra :- ReadExtra(r, IsV2(header.etype));
    var n :- r.GetVarint();
    if n != |info.columns| {
      return Err(ColumnMismatch);
    }
    var _ :- ReadPresence(r, n, if HasPreimage(header.etype) then 2 else 1);
    var rows :- ReadRowChanges(r, info.columns, Pre(header.etype), Post(header.etype));
    return Ok(RowsEvent(header, writeType, tableId, info, flags, extra, rows));
  }

  method ReadQuery(data: seq<Byte>) returns (ev: Result<QueryEvent>)
    ensures ev == ParseQuery(data)
  {
    hide TakeHeader, TakeLE;
    var r := new StringReader(data);
    var header :- ReadEventHeader(r);
    if header.etype != QUERY_EVENT {
      return Err(WrongEventType);
    }
    var connId :- r.GetLE(4);
    var execTime :- r.GetLE(4);
    var n :- r.GetU8();
    var errorCode :- r.GetLE(2);
    var m :- r.GetLE(2);
    var statusVars :- r.Read(m);
    var database :- r.Read(n);
    var _ :- r.Read(1);
    var query := r.GetStringEof();
    return Ok(QueryEvent(header, connId, execTime, database, errorCode, statusVars, query));
  }

  method ReadRotate(data: seq<Byte>) returns (ev: Result<RotateEvent>)
    ensures ev == ParseRotate(data)
  {
    hide TakeHeader, TakeLE;
    var r := new StringReader(data);
    var header :- ReadEventHeader(r);
    if header.etype != ROTATE_EVENT {
      return Err(WrongEventType);
    }
    var position :- r.GetLE(8);
    var filename := r.GetStringEof();
    return Ok(RotateEvent(header, filename, position));
  }

  method ReadXid(data: seq<Byte>) returns (ev: Result<XidEvent>)
    ensures ev == ParseXid(data)
  {
    hide TakeHeader, TakeLE;
    var r := new StringReader(data);
    var header :- ReadEventHeader(r);
    if header.etype != XID_EVENT {
      return Err(WrongEventType);
    }
    var xid :- r.GetLE(8);
    return Ok(XidEvent(header, xid));
  }

  method ReadFormat(data: seq<Byte>) returns (ev: Result<FormatEvent>)
    ensures ev == ParseFormat(data)
  {
    hide TakeHeader, TakeLE, UntilZero, LengthsAgree;
    var r := new StringReader(data);
    var header :- ReadEventHeader(r);
    var version :- r.GetLE(2);
    if version != 4 {
      return Err(BadBinlogVersion);
    }
    var serverVersion :- r.Read(50);
    var timestamp :- r.GetLE(4);
    var headerLength :- r.GetU8();
    if headerLength != 0x13 {
      return Err(BadHeaderLength);
    }
    var lengths := r.GetStringEof();
    if !LengthsAgree(lengths) {
      return Err(BadEventLengths);
    }
    return Ok(FormatEvent(header, version, UntilZero(serverVersion), timestamp, headerLength, lengths));
  }

  // ----- the processor

  /** The public parsers of the processor. */
  datatype Parser = MapParser | RowsParser | QueryParser | RotateParser | XidParser | FormatParser | UnknownParser

  datatype Call = Call(parser: Parser, data: seq<Byte>)

  /** What a parser returns. `parse_table_map_event` leaves the table's
      description out of its event and only stores it in the processor. */
  datatype Reply =
    | Mapped(header: Header, tableId: nat, flags: nat, info: Option<TableInfo>)
    | Changed(rows: RowsEvent)
    | Queried(query: QueryEvent)
    | Rotated(rotate: RotateEvent)
    | Committed(xid: XidEvent)
    | Described(format: FormatEvent)
    | Skipped(header: Header)

  /** What the processor remembers. */
  datatype Memory = Memory(tables: map<nat, TableInfo>, filename: seq<Byte>, position: nat)

  /** What a call returns and what the processor remembers afterwards: the
      table of a table map, where the next file begins, and otherwise where the
      event ends. A call that fails changes nothing. */
  function Answer(m: Memory, call: Call): Result<(Reply, Memory)> {
    match call.parser
    case MapParser =>
      var t :- ParseTableMap(call.data);
      Ok((Mapped(t.header, t.tableId, t.flags, None),
          m.(tables := m.tables[t.tableId := t.info], position := t.header.endPosition)))
    case RowsParser =>
      var e :- ParseRows(m.tables, call.data);
      Ok((Changed(e), m.(position := e.header.endPosition)))
    case QueryParser =>
      var e :- ParseQuery(call.data);
      Ok((Queried(e), m.(position := e.header.endPosition)))
    case RotateParser =>
      var e :- ParseRotate(call.data);
      Ok((Rotated(e), m.(filename := e.nextFilename, position := e.nextPosition)))
    case XidParser =>
      var e :- ParseXid(call.data);
      Ok((Committed(e), m.(position := e.header.endPosition)))
    case FormatParser =>
      var e :- ParseFormat(call.data);
      Ok((Described(e), m.(position := e.header.endPosition)))
    case UnknownParser =>
      var (header, _) :- TakeHeader(call.data);
      Ok((Skipped(header), m.(position := header.endPosition)))
  }

  function MemoryAfter(m: Memory, call: Call): Memory {
    match Answer(m, call)
    case Ok((_, m')) => m'
    case Err(_) => m
  }

  function ReplyTo(m: Memory, call: Call): Result<Reply> {
    match Answer(m, call)
    case Ok((reply, _)) => Ok(reply)
    case Err(e) => Err(e)
  }

  function Replies(m: Memory, calls: seq<Call>): (replies: seq<Result<Reply>>)
    ensures |replies| == |calls|
    decreases |calls|
  {
    if calls == [] then []
    else [ReplyTo(m, calls[0])] + Replies(MemoryAfter(m, calls[0]), calls[1..])
  }

  /** Every table that is known has columns with the metadata of their type. */
  lemma CallKeepsTablesOk(m: Memory, call: Call)
    requires TablesOk(m.tables)
    ensures TablesOk(MemoryAfter(m, call).tables)
  {
    hide ParseTableMap, ParseRows, ParseQuery, ParseRotate, ParseXid, ParseFormat, TakeHeader, ColumnsOk;
    if call.parser == MapParser {
      TableMapIsOk(call.data);
    }
  }

  class BinlogProcessor {
    var tableMap: map<nat, TableInfo>
    var filename: seq<Byte>
    var position: nat

    ghost predicate Valid()
      reads this
    {
      TablesOk(tableMap)
    }

    ghost function Remembered(): Memory
      reads this
    {
      Memory(tableMap, filename, position)
    }

    constructor (missing: seq<Byte>)
      ensures Valid() && Remembered() == Memory(map[], missing, 4)
    {
      tableMap, filename, position := map[], missing, 4;
    }

    /** The call returned what it should and left what it should. */
    ghost predicate Answered(before: Memory, call: Call, r: Result<Reply>)
      reads this
    {
      Valid() && r == ReplyTo(before, call) && Remembered() == MemoryAfter(before, call)
    }

    method ParseTableMapEvent(data: seq<Byte>) returns (r: Result<Reply>)
      requires Valid()
      modifies this
      ensures Answered(old(Remembered()), Call(MapParser, data), r)
    {
      hide ParseTableMap, TablesOk;
      CallKeepsTablesOk(Remembered(), Call(MapParser, data));
      var t :- ReadTableMap(data);
      tableMap := tableMap[t.tableId := t.info];
      position := t.header.endPosition;
      return Ok(Mapped(t.header, t.tableId, t.flags, None));
    }

    method ParseRowsEvent(data: seq<Byte>) returns (r: Result<Reply>)
      requires Valid()
      modifies this`position
      ensures Answered(old(Remembered()), Call(RowsParser, data), r)
    {
      hide ParseRows, TablesOk;
      var e :- ReadRows(tableMap, data);
      position := e.header.endPosition;
      return Ok(Changed(e));
    }

    method ParseQueryEvent(data: seq<Byte>) returns (r: Result<Reply>)
      requires Valid()
      modifies this`position
      ensures Answered(old(Remembered()), Call(QueryParser, data), r)
    {
      hide ParseQuery, TablesOk;
      var e :- ReadQuery(data);
      position := e.header.endPosition;
      return Ok(Queried(e));
    }

    method ParseRotateEvent(data: seq<Byte>) returns (r: Result<Reply>)
      requires Valid()
      modifies this`filename, this`position
      ensures Answered(old(Remembered()), Call(RotateParser, data), r)
    {
      hide ParseRotate, TablesOk;
      var e :- ReadRotate(data);
      filename, position := e.nextFilename, e.nextPosition;
      return Ok(Rotated(e));
    }

    method ParseXidEvent(data: seq<Byte>) returns (r: Result<Reply>)
      requires Valid()
      modifies this`position
      ensures Answered(old(Remembered()), Call(XidParser, data), r)
    {
      hide ParseXid, TablesOk;
      var e :- ReadXid(data);
      position := e.header.endPosition;
      return Ok(Committed(e));
    }

    method ParseFormatDescriptionEvent(data: seq<Byte>) returns (r: Result<Reply>)
      requires Valid()
      modifies this`position
      ensures Answered(old(Remembered()), Call(FormatParser, data), r)
    {
      hide ParseFormat, TablesOk;
      var e :- ReadFormat(data);
      position := e.header.endPosition;
      return Ok(Described(e));
    }

    method ParseUnknownEvent(data: seq<Byte>) returns (r: Result<Reply>)
      requires Valid()
      modifies this`position
      ensures Answered(old(Remembered()), Call(UnknownParser, data), r)
    {
      hide TakeHeader, TablesOk;
      var reader := new StringReader(data);
      var header :- ReadEventHeader(reader);
      position := header.endPosition;
      return Ok(Skipped(header));
    }

    method Perform(call: Call) returns (r: Result<Reply>)
      requires Valid()
      modifies this
      ensures Answered(old(Remembered()), call, r)
    {
      hide Answer, TablesOk;
      match call.parser
      case MapParser => r := ParseTableMapEvent(call.data);
      case RowsParser => r := ParseRowsEvent(call.data);
      case QueryParser => r := ParseQueryEvent(call.data);
      case RotateParser => r := ParseRotateEvent(call.data);
      case XidParser => r := ParseXidEvent(call.data);
      case FormatParser => r := ParseFormatDescriptionEvent(call.data);
      case UnknownParser => r := ParseUnknownEvent(call.data);
    }

    /** Any run of calls. */
    method Run(calls: seq<Call>) returns (replies: seq<Result<Reply>>)
      requires Valid()
      modifies this
      ensures Valid()
      ensures replies == Replies(old(Remembered()), calls)
    {
      hide ReplyTo, MemoryAfter, TablesOk;
      replies := [];
      assert calls[0..] == calls;
      assert replies + Replies(Remembered(), calls) == Replies(Remembered(), calls);
      for k := 0 to |calls|
        invariant Valid()
        invariant Replies(old(Remembered()), calls) == replies + Replies(Remembered(), calls[k..])
      {
        assert calls[k..][0] == calls[k] && calls[k..][1..] == calls[k + 1..];
        var r := Perform(calls[k]);
        assert replies + ([r] + Replies(Remembered(), calls[k + 1..])) == replies + [r] + Replies(Remembered(), calls[k + 1..]);
        replies := replies + [r];
      }
      assert calls[|calls|..] == [];
      assert replies + [] == replies;
    }
  }
}

/** Binlog table maps and row events, as functions on octets
    (src/Protocols/MySQL/BinlogProcessor.cc). */
module Binlogs {
  import opened Results
  import opened Bytes
  import opened Varints

  // ----- column types

  const T_DECIMAL: Byte := 0x00
  const T_TINYINT: Byte := 0x01
  const T_SMALLINT: Byte := 0x02
  const T_INT: Byte := 0x03
  const T_FLOAT: Byte := 0x04
  const T_DOUBLE: Byte := 0x05
  const T_NULL: Byte := 0x06
  const T_TIMESTAMP: Byte := 0x07
  const T_BIGINT: Byte := 0x08
  const T_MEDIUMINT: Byte := 0x09
  const T_DATE: Byte := 0x0A
  const T_TIME: Byte := 0x0B
  const T_DATETIME: Byte := 0x0C
  const T_YEAR: Byte := 0x0D
  const T_NEWDATE: Byte := 0x0E
  const T_VARCHAR: Byte := 0x0F
  const T_BIT: Byte := 0x10
  const T_TIMESTAMP2: Byte := 0x11
  const T_DATETIME2: Byte := 0x12
  const T_TIME2: Byte := 0x13
  const T_BOOL: Byte := 0xF4
  const T_JSON: Byte := 0xF5
  const T_NEWDECIMAL: Byte := 0xF6
  const T_ENUM: Byte := 0xF7
  const T_SET: Byte := 0xF8
  const T_TINYBLOB: Byte := 0xF9
  const T_MEDIUMBLOB: Byte := 0xFA
  const T_LONGBLOB: Byte := 0xFB
  const T_BLOB: Byte := 0xFC
  const T_VAR_STRING: Byte := 0xFD
  const T_STRING: Byte := 0xFE
  const T_GEOMETRY: Byte := 0xFF

  predicate IsBlob(t: Byte) {
    t in {T_TINYBLOB, T_MEDIUMBLOB, T_LONGBLOB, T_BLOB, T_GEOMETRY, T_JSON}
  }

  predicate IsString(t: Byte) {
    t in {T_ENUM, T_SET, T_STRING}
  }

  /** How many octets of metadata a table map holds for a column. */
  function MetadataBytes(t: Byte): Result<nat> {
    if t in {T_DATE, T_DATETIME, T_TIME, T_TIMESTAMP, T_TINYINT, T_SMALLINT, T_MEDIUMINT, T_INT, T_BIGINT,
             T_YEAR, T_BOOL, T_VAR_STRING, T_NEWDATE} then Ok(0)
    else if IsBlob(t) || t in {T_FLOAT, T_DOUBLE, T_TIMESTAMP2, T_TIME2, T_DATETIME2} then Ok(1)
    else if IsString(t) || t in {T_VARCHAR, T_DECIMAL, T_NEWDECIMAL, T_BIT} then Ok(2)
    else Err(BadColumnType)
  }

  /** How much metadata the protocol defines for a column, by type octet. */
  function MetadataSize(t: Byte): Option<nat> {
    if t in {0x01, 0x02, 0x03, 0x07, 0x08, 0x09, 0x0A, 0x0B, 0x0C, 0x0D, 0x0E, 0xF4, 0xFD} then Some(0)
    else if t in {0x04, 0x05, 0x11, 0x12, 0x13, 0xF5, 0xF9, 0xFA, 0xFB, 0xFC, 0xFF} then Some(1)
    else if t in {0x00, 0x0F, 0x10, 0xF6, 0xF7, 0xF8, 0xFE} then Some(2)
    else None
  }

  /** For every type octet, the parser expects that much or refuses it. */
  lemma MetadataTable(t: Byte)
    ensures MetadataBytes(t) == if MetadataSize(t).Some? then Ok(MetadataSize(t).value) else Err(BadColumnType)
  {
  }

  /** The type octets of columns whose cells the source can read. */
  predicate Readable(t: Byte) {
    t in {0x01, 0x02, 0x03, 0x04, 0x05, 0x07, 0x08, 0x09, 0x0D, 0x0F, 0x11, 0x12, 0x13,
          0xF5, 0xF7, 0xF8, 0xF9, 0xFA, 0xFB, 0xFC, 0xFE, 0xFF}
  }

  datatype Column = Column(ctype: Byte, meta: seq<Byte>, nullable: bool)

  datatype TableInfo = TableInfo(database: seq<Byte>, table: seq<Byte>, columns: seq<Column>)

  datatype Value =
    | Null
    | UInt(n: nat)
    | Float32(octets: seq<Byte>)
    | Float64(octets: seq<Byte>)
    | Text(text: seq<Byte>)
    | DateTime(years: nat, months: nat, days: nat, hours: nat, minutes: nat, seconds: nat, usecs: nat)
    | Time(negative: bool, hours: nat, minutes: nat, seconds: nat, usecs: nat)

  // ----- cells

  /** A signed char passed where a size is expected. */
  function SizeOfChar(b: Byte): nat {
    if b < 128 then b else U64 - 256 + b
  }

  /** `(c + 1) / 2` for a signed char, converted to a size. */
  function HalfSize(b: Byte): nat {
    if b < 128 then (b + 1) / 2
    else if b >= 254 then 0
    else U64 - (255 - b) / 2
  }

  /** The fractional part of a time, in microseconds. */
  function TakeFraction(s: seq<Byte>, precision: Byte): Parsed<nat> {
    if precision == 0 then Ok((0, s))
    else if precision <= 2 then
      var (v, rest) :- TakeU8(s);
      Ok((v * 10000, rest))
    else if precision <= 4 then
      var (v, rest) :- TakeBE(s, 2);
      Ok((v * 100, rest))
    else if precision <= 6 then
      TakeBE(s, 3)
    else Err(BadTypeValue)
  }

  /** The fields of a packed DATETIME2, in 64-bit unsigned arithmetic; the
      year is stored in 16 bits. */
  function UnpackDateTime(z: nat, usecs: nat): Value {
    var ym := z / 0x40_0000;
    DateTime((ym + U64 - 131073) % U64 / 13 % U16, (ym + 7) % 13,
             z / 0x2_0000 % 32, z / 0x1000 % 32, z / 64 % 64, z % 64, usecs)
  }

  /** The fields of a packed TIME2; negative values are negated in 32-bit
      arithmetic first. */
  function UnpackTime(z: nat, usecs: nat): Value
    requires z < U24
  {
    var negative := z < 0x80_0000;
    var t := if negative then (U32 - z) % U32 else z;
    Time(negative, t / 0x1000 % 1024, t / 64 % 64, t % 64, usecs)
  }

  function ReadUInt(s: seq<Byte>, n: nat): Parsed<Value> {
    var (v, rest) :- TakeLE(s, n);
    Ok((UInt(v), rest))
  }

  /** Octets preceded by their number in `n` octets. */
  function ReadSized(s: seq<Byte>, n: nat): Parsed<Value> {
    var (size, s1) :- TakeLE(s, n);
    var (text, rest) :- Take(s1, size);
    Ok((Text(text), rest))
  }

  /** The width that the metadata of a STRING column encodes. */
  function DisplayWidth(meta0: Byte, meta1: Byte): nat {
    (3 - meta0 / 16 % 4) * 256 + meta1
  }

  function ReadString(s: seq<Byte>, meta: seq<Byte>): Parsed<Value>
    requires |meta| == 2
  {
    if meta[0] == T_SET || meta[0] == T_ENUM then
      var (text, rest) :- Take(s, SizeOfChar(meta[1]));
      Ok((Text(text), rest))
    else
      ReadSized(s, if DisplayWidth(meta[0], meta[1]) > 255 then 2 else 1)
  }

  function ReadTimestamp2(s: seq<Byte>, meta: seq<Byte>): Parsed<Value> {
    var (v, s1) :- TakeLE(s, 4);
    if |meta| != 1 then Err(BadTypeOptions)
    else
      var (_, rest) :- Take(s1, if meta[0] == 0 then 0 else HalfSize(meta[0]));
      Ok((UInt(v), rest))
  }

  function ReadDateTime2(s: seq<Byte>, precision: Byte): Parsed<Value> {
    var (hi, s1) :- TakeBE(s, 4);
    var (lo, s2) :- TakeU8(s1);
    var (usecs, rest) :- TakeFraction(s2, precision);
    Ok((UnpackDateTime(hi * 256 + lo, usecs), rest))
  }

  function ReadTime2(s: seq<Byte>, precision: Byte): Parsed<Value> {
    var (octets, s1) :- Take(s, 3);
    Pow256Values();
    BEInverse(octets);
    var (usecs, rest) :- TakeFraction(s1, precision);
    Ok((UnpackTime(FromBE(octets), usecs), rest))
  }

  /** BinlogProcessor::read_cell_data. */
  function ReadCell(s: seq<Byte>, c: Column): Parsed<Value> {
    if c.ctype == T_NULL then Ok((Null, s))
    else if c.ctype == T_TINYINT || c.ctype == T_YEAR then ReadUInt(s, 1)
    else if c.ctype == T_SMALLINT then ReadUInt(s, 2)
    else if c.ctype == T_MEDIUMINT then ReadUInt(s, 3)
    else if c.ctype == T_INT then ReadUInt(s, 4)
    else if c.ctype == T_BIGINT then ReadUInt(s, 8)
    else if c.ctype == T_FLOAT then
      var (octets, rest) :- Take(s, 4);
      Ok((Float32(octets), rest))
    else if c.ctype == T_DOUBLE then
      var (octets, rest) :- Take(s, 8);
      Ok((Float64(octets), rest))
    else if IsBlob(c.ctype) then
      if |c.meta| != 1 then Err(BadTypeOptions)
      else if 1 <= c.meta[0] <= 4 then ReadSized(s, c.meta[0])
      else Err(BadTypeValue)
    else if IsString(c.ctype) then
      if |c.meta| != 2 then Err(BadTypeOptions) else ReadString(s, c.meta)
    else if c.ctype == T_VARCHAR then
      if |c.meta| != 2 then Err(BadTypeOptions)
      else ReadSized(s, if FromLE(c.meta) > 255 then 2 else 1)
    else if c.ctype == T_TIMESTAMP then
      var (v, rest) :- TakeLE(s, 4);
      Ok((UInt(v * 1000000), rest))
    else if c.ctype == T_TIMESTAMP2 then ReadTimestamp2(s, c.meta)
    else if c.ctype == T_DATETIME2 then
      if |c.meta| != 1 then Err(BadTypeOptions) else ReadDateTime2(s, c.meta[0])
    else if c.ctype == T_TIME2 then
      if |c.meta| != 1 then Err(BadTypeOptions) else ReadTime2(s, c.meta[0])
    else Err(BadColumnType)
  }

  // ----- rows

  /** A cell that the null mask may mark as NULL. */
  function ReadMaskedCell(s: seq<Byte>, c: Column, isNull: bool): Parsed<Value> {
    if !isNull then ReadCell(s, c)
    else if c.nullable then Ok((Null, s))
    else Err(UnexpectedNull)
  }

  function ReadCells(s: seq<Byte>, columns: seq<Column>, nulls: seq<bool>): Parsed<seq<Value>>
    requires |nulls| == |columns|
    decreases |columns|
  {
    if columns == [] then Ok(([], s))
    else
      var (v, s1) :- ReadMaskedCell(s, columns[0], nulls[0]);
      var (vs, rest) :- ReadCells(s1, columns[1..], nulls[1..]);
      Ok(([v] + vs, rest))
  }

  /** BinlogProcessor::read_row_data. */
  function ReadRow(s: seq<Byte>, columns: seq<Column>): Parsed<seq<Value>> {
    var (nulls, s1) :- TakeBits(s, |columns|);
    ReadCells(s1, columns, nulls)
  }

  datatype WriteType = Insert | Update | Delete

  datatype RowChange = RowChange(preBytes: nat, postBytes: nat, pre: seq<Value>, post: seq<Value>)

  function ReadImage(s: seq<Byte>, columns: seq<Column>, present: bool): Parsed<seq<Value>> {
    if present then ReadRow(s, columns) else Ok(([], s))
  }

  /** One turn of the loop over the rows: the image before, then the one after,
      as far as the kind of event has them. */
  function ReadChange(s: seq<Byte>, columns: seq<Column>, pre: bool, post: bool): Parsed<RowChange> {
    var (before, s1) :- ReadImage(s, columns, pre);
    var (after, s2) :- ReadImage(s1, columns, post);
    ImageShrinks(s, columns, pre);
    ImageShrinks(s1, columns, post);
    Ok((RowChange(|s| - |s1|, |s1| - |s2|, before, after), s2))
  }

  function ReadChanges(s: seq<Byte>, columns: seq<Column>, pre: bool, post: bool): Result<seq<RowChange>>
    requires pre || post
    decreases |s|
  {
    if s == [] then Ok([])
    else if columns == [] then Err(Diverges)
    else
      var (change, rest) :- ReadChange(s, columns, pre, post);
      ChangeMakesProgress(s, columns, pre, post);
      var changes :- ReadChanges(rest, columns, pre, post);
      Ok([change] + changes)
  }

  // ----- the cursor only moves forward

  lemma CellShrinks(s: seq<Byte>, c: Column)
    requires ReadCell(s, c).Ok?
    ensures |ReadCell(s, c).value.1| <= |s|
  {
  }

  lemma {:induction false} CellsShrink(s: seq<Byte>, columns: seq<Column>, nulls: seq<bool>)
    requires |nulls| == |columns| && ReadCells(s, columns, nulls).Ok?
    ensures |ReadCells(s, columns, nulls).value.1| <= |s|
    ensures |ReadCells(s, columns, nulls).value.0| == |columns|
    decreases |columns|
  {
    hide ReadCell;
    if columns != [] {
      if !nulls[0] {
        CellShrinks(s, columns[0]);
      }
      CellsShrink(ReadMaskedCell(s, columns[0], nulls[0]).value.1, columns[1..], nulls[1..]);
    }
  }

  /** A row holds one value per column and, if there are columns, takes at
      least the octets of its null mask. */
  lemma RowShrinks(s: seq<Byte>, columns: seq<Column>)
    requires ReadRow(s, columns).Ok?
    ensures |ReadRow(s, columns).value.0| == |columns|
    ensures |ReadRow(s, columns).value.1| + Octets(|columns|) <= |s|
  {
    var (nulls, s1) := TakeBits(s, |columns|).value;
    CellsShrink(s1, columns, nulls);
  }

  lemma ImageShrinks(s: seq<Byte>, columns: seq<Column>, present: bool)
    requires ReadImage(s, columns, present).Ok?
    ensures var (image, rest) := ReadImage(s, columns, present).value;
            && |image| == (if present then |columns| else 0)
            && |rest| <= |s| && (present && columns != [] ==> |rest| < |s|)
  {
    if present {
      RowShrinks(s, columns);
    }
  }

  lemma ChangeMakesProgress(s: seq<Byte>, columns: seq<Column>, pre: bool, post: bool)
    requires (pre || post) && columns != [] && ReadChange(s, columns, pre, post).Ok?
    ensures |ReadChange(s, columns, pre, post).value.1| < |s|
  {
    ImageShrinks(s, columns, pre);
    ImageShrinks(ReadImage(s, columns, pre).value.1, columns, post);
  }

  function TotalBytes(changes: seq<RowChange>): nat {
    if changes == [] then 0 else changes[0].preBytes + changes[0].postBytes + TotalBytes(changes[1..])
  }

  /** Every octet of the row area belongs to exactly one image, and every image
      that the event has holds one value per column. */
  lemma {:induction false} BytesAreConserved(s: seq<Byte>, columns: seq<Column>, pre: bool, post: bool)
    requires (pre || post) && ReadChanges(s, columns, pre, post).Ok?
    ensures var changes := ReadChanges(s, columns, pre, post).value;
            && TotalBytes(changes) == |s|
            && forall i :: 0 <= i < |changes| ==>
                 && |changes[i].pre| == (if pre then |columns| else 0)
                 && |changes[i].post| == (if post then |columns| else 0)
    decreases |s|
  {
    if s != [] {
      hide ReadImage;
      var (change, rest) := ReadChange(s, columns, pre, post).value;
      ImageShrinks(s, columns, pre);
      ImageShrinks(ReadImage(s, columns, pre).value.1, columns, post);
      BytesAreConserved(rest, columns, pre, post);
      var changes := ReadChanges(rest, columns, pre, post).value;
      assert ReadChanges(s, columns, pre, post).value == [change] + changes;
      assert ([change] + changes)[1..] == changes;
    }
  }

  // ----- the loop over the rows, turn by turn

  /** The loop as the source has it: still turning, or stopped at the end of
      the data or by an error. */
  datatype Loop = Turning(rest: seq<Byte>, rows: seq<RowChange>) | Stopped(result: Result<seq<RowChange>>)

  function Turn(l: Loop, columns: seq<Column>, pre: bool, post: bool): Loop {
    match l
    case Stopped(_) => l
    case Turning(s, rows) =>
      if s == [] then Stopped(Ok(rows))
      else
        match ReadChange(s, columns, pre, post)
        case Ok((change, rest)) => Turning(rest, rows + [change])
        case Err(e) => Stopped(Err(e))
  }

  function Turns(l: Loop, columns: seq<Column>, pre: bool, post: bool, n: nat): Loop {
    if n == 0 then l else Turn(Turns(l, columns, pre, post, n - 1), columns, pre, post)
  }

  lemma {:induction false} TurnsFromFirst(l: Loop, columns: seq<Column>, pre: bool, post: bool, n: nat)
    ensures Turns(l, columns, pre, post, n + 1) == Turns(Turn(l, columns, pre, post), columns, pre, post, n)
  {
    hide ReadChange;
    if n > 0 {
      TurnsFromFirst(l, columns, pre, post, n - 1);
    }
  }

  lemma {:induction false} StoppedStays(l: Loop, columns: seq<Column>, pre: bool, post: bool, m: nat, n: nat)
    requires m <= n && Turns(l, columns, pre, post, m).Stopped?
    ensures Turns(l, columns, pre, post, n) == Turns(l, columns, pre, post, m)
    decreases n
  {
    hide ReadChange;
    if m < n {
      StoppedStays(l, columns, pre, post, m, n - 1);
    }
  }

  /** A row of a table without columns is empty and takes no octets. */
  lemma NoColumnsNoProgress(s: seq<Byte>, pre: bool, post: bool)
    ensures ReadChange(s, [], pre, post) == Ok((RowChange(0, 0, [], []), s))
  {
    assert s[..0] == [] && s[0..] == s;
    assert ReadRow(s, []) == Ok(([], s));
  }

  /** So the loop stays where it is, adding empty rows. */
  lemma {:induction false} TurnsForever(s: seq<Byte>, pre: bool, post: bool, n: nat)
    requires s != []
    ensures Turns(Turning(s, []), [], pre, post, n) == Turning(s, seq(n, _ => RowChange(0, 0, [], [])))
  {
    hide ReadChange;
    if n > 0 {
      TurnsForever(s, pre, post, n - 1);
      NoColumnsNoProgress(s, pre, post);
    }
  }

  /** The result of a loop that has collected `done` and has `rest` to do. */
  ghost function Continue<T>(done: seq<T>, rest: Result<seq<T>>): Result<seq<T>> {
    match rest
    case Ok(more) => Ok(done + more)
    case Err(e) => Err(e)
  }

  lemma ContinueStep<T>(done: seq<T>, x: T, rest: Result<seq<T>>)
    ensures Continue(done + [x], rest) == Continue(done, Continue([x], rest))
  {
    if rest.Ok? {
      assert done + [x] + rest.value == done + ([x] + rest.value);
    }
  }

  lemma ContinueEnds<T>(done: seq<T>)
    ensures Continue(done, Ok([])) == Ok(done)
  {
    assert done + [] == done;
  }

  lemma ContinueBegins<T>(rest: Result<seq<T>>)
    ensures Continue([], rest) == rest
  {
    if rest.Ok? {
      assert [] + rest.value == rest.value;
    }
  }

  lemma ChangesStep(s: seq<Byte>, columns: seq<Column>, pre: bool, post: bool)
    requires (pre || post) && s != [] && columns != []
    ensures var change := ReadChange(s, columns, pre, post);
            ReadChanges(s, columns, pre, post)
            == if change.Err? then Err(change.error)
               else Continue([change.value.0], ReadChanges(change.value.1, columns, pre, post))
  {
  }

  lemma ChangesEnd(columns: seq<Column>, pre: bool, post: bool)
    requires pre || post
    ensures ReadChanges([], columns, pre, post) == Ok([])
  {
  }

  /** With columns, the loop stops after at most one turn per octet and one
      more, with the result of `ReadChanges`. */
  lemma {:induction false} TurnsStop(s: seq<Byte>, rows: seq<RowChange>, columns: seq<Column>, pre: bool, post: bool)
    requires (pre || post) && columns != []
    ensures Turns(Turning(s, rows), columns, pre, post, |s| + 1) == Stopped(Continue(rows, ReadChanges(s, columns, pre, post)))
    decreases |s|
  {
    hide ReadChange, ReadChanges, Turns;
    TurnsFromFirst(Turning(s, rows), columns, pre, post, |s|);
    var next := Turn(Turning(s, rows), columns, pre, post);
    NoTurns(next, columns, pre, post);
    if s == [] {
      ChangesEnd(columns, pre, post);
      ContinueEnds(rows);
    } else {
      ChangesStep(s, columns, pre, post);
      var change := ReadChange(s, columns, pre, post);
      if change.Err? {
        StoppedStays(next, columns, pre, post, 0, |s|);
      } else {
        var rest := change.value.1;
        ChangeMakesProgress(s, columns, pre, post);
        TurnsStop(rest, rows + [change.value.0], columns, pre, post);
        ContinueStep(rows, change.value.0, ReadChanges(rest, columns, pre, post));
        StoppedStays(next, columns, pre, post, |rest| + 1, |s|);
      }
    }
  }

  lemma NoTurns(l: Loop, columns: seq<Column>, pre: bool, post: bool)
    ensures Turns(l, columns, pre, post, 0) == l
  {
  }

  /** The loop of the source stops if and only if the table has columns or
      there is nothing to read; `ReadChanges` is its result when it stops, and
      `Diverges` exactly if it never does. */
  lemma LoopEndsIff(s: seq<Byte>, columns: seq<Column>, pre: bool, post: bool)
    requires pre || post
    ensures (exists n: nat :: Turns(Turning(s, []), columns, pre, post, n).Stopped?) <==> columns != [] || s == []
    ensures forall n: nat :: Turns(Turning(s, []), columns, pre, post, n).Stopped? ==>
              Turns(Turning(s, []), columns, pre, post, n).result == ReadChanges(s, columns, pre, post)
    ensures ReadChanges(s, columns, pre, post) == Err(Diverges) <==>
              forall n: nat :: Turns(Turning(s, []), columns, pre, post, n).Turning?
  {
    hide ReadChange, ReadChanges, Turns, Turn;
    NoDivergence(s, columns, pre, post);
    LoopRuns(s, columns, pre, post);
    forall n: nat | Turns(Turning(s, []), columns, pre, post, n).Stopped?
      ensures columns != [] || s == []
      ensures Turns(Turning(s, []), columns, pre, post, n).result == ReadChanges(s, columns, pre, post)
    {
      LoopResult(s, columns, pre, post, n);
    }
  }

  lemma LoopRuns(s: seq<Byte>, columns: seq<Column>, pre: bool, post: bool)
    requires pre || post
    ensures columns != [] || s == [] ==> Turns(Turning(s, []), columns, pre, post, |s| + 1).Stopped?
    ensures columns == [] && s != [] ==> ReadChanges(s, columns, pre, post) == Err(Diverges)
    ensures s == [] ==> ReadChanges(s, columns, pre, post) == Ok([])
  {
    if columns != [] {
      hide ReadChange, ReadChanges, Turns, Turn;
      TurnsStop(s, [], columns, pre, post);
    } else if s == [] {
      NoTurns(Turning(s, []), columns, pre, post);
    }
  }

  lemma LoopResult(s: seq<Byte>, columns: seq<Column>, pre: bool, post: bool, n: nat)
    requires (pre || post) && Turns(Turning(s, []), columns, pre, post, n).Stopped?
    ensures columns != [] || s == []
    ensures Turns(Turning(s, []), columns, pre, post, n).result == ReadChanges(s, columns, pre, post)
  {
    hide ReadChange, ReadChanges, Turns;
    LoopRuns(s, columns, pre, post);
    NoTurns(Turning(s, []), columns, pre, post);
    if columns == [] && s != [] {
      TurnsForever(s, pre, post, n);
    } else {
      StoppedStays(Turning(s, []), columns, pre, post, n, if n < |s| + 1 then |s| + 1 else n);
      StoppedStays(Turning(s, []), columns, pre, post, |s| + 1, if n < |s| + 1 then |s| + 1 else n);
      if columns != [] {
        TurnsStop(s, [], columns, pre, post);
        ContinueBegins(ReadChanges(s, columns, pre, post));
      } else {
        TurnsFromFirst(Turning(s, []), columns, pre, post, 0);
        NoTurns(Turn(Turning(s, []), columns, pre, post), columns, pre, post);
      }
    }
  }

  lemma CellNeverDiverges(s: seq<Byte>, c: Column)
    ensures ReadCell(s, c) != Err(Diverges)
  {
  }

  lemma {:induction false} CellsNeverDiverge(s: seq<Byte>, columns: seq<Column>, nulls: seq<bool>)
    requires |nulls| == |columns|
    ensures ReadCells(s, columns, nulls) != Err(Diverges)
    decreases |columns|
  {
    hide ReadCell;
    if columns != [] {
      CellNeverDiverges(s, columns[0]);
      if ReadMaskedCell(s, columns[0], nulls[0]).Ok? {
        CellsNeverDiverge(ReadMaskedCell(s, columns[0], nulls[0]).value.1, columns[1..], nulls[1..]);
      }
    }
  }

  lemma ImageNeverDiverges(s: seq<Byte>, columns: seq<Column>, present: bool)
    ensures ReadImage(s, columns, present) != Err(Diverges)
  {
    if TakeBits(s, |columns|).Ok? {
      var (nulls, s1) := TakeBits(s, |columns|).value;
      CellsNeverDiverge(s1, columns, nulls);
    }
  }

  lemma {:induction false} NoDivergence(s: seq<Byte>, columns: seq<Column>, pre: bool, post: bool)
    requires pre || post
    ensures columns != [] ==> ReadChanges(s, columns, pre, post) != Err(Diverges)
    decreases |s|
  {
    hide ReadImage;
    if s != [] && columns != [] {
      ImageNeverDiverges(s, columns, pre);
      if ReadImage(s, columns, pre).Ok? {
        ImageNeverDiverges(ReadImage(s, columns, pre).value.1, columns, post);
      }
      if ReadChange(s, columns, pre, post).Ok? {
        ChangeMakesProgress(s, columns, pre, post);
        NoDivergence(ReadChange(s, columns, pre, post).value.1, columns, pre, post);
      }
    }
  }

  // ----- events

  datatype Header = Header(timestamp: nat, etype: Byte, serverId: nat, length: nat, endPosition: nat, flags: nat)

  const TABLE_MAP_EVENT: Byte := 19

  function TakeHeader(s: seq<Byte>): Parsed<Header> {
    var (timestamp, s1) :- TakeLE(s, 4);
    var (etype, s2) :- TakeU8(s1);
    var (serverId, s3) :- TakeLE(s2, 4);
    var (length, s4) :- TakeLE(s3, 4);
    var (endPosition, s5) :- TakeLE(s4, 4);
    var (flags, rest) :- TakeLE(s5, 2);
    Ok((Header(timestamp, etype, serverId, length, endPosition, flags), rest))
  }

  datatype TableMap = TableMap(header: Header, tableId: nat, flags: nat, info: TableInfo)

  /** A name preceded by its length and followed by one unused octet. */
  function TakeName(s: seq<Byte>): Parsed<seq<Byte>> {
    var (n, s1) :- TakeU8(s);
    var (name, s2) :- Take(s1, n);
    var (_, rest) :- Take(s2, 1);
    Ok((name, rest))
  }

  /** Gives each column its share of the metadata; nothing may be left over. */
  function BuildColumns(types: seq<Byte>, metas: seq<Byte>, nullable: seq<bool>): Result<seq<Column>>
    requires |types| == |nullable|
  {
    if types == [] then (if metas == [] then Ok([]) else Err(TrailingMetadata))
    else
      var n :- MetadataBytes(types[0]);
      var (meta, metas') :- Take(metas, n);
      var columns :- BuildColumns(types[1..], metas', nullable[1..]);
      Ok([Column(types[0], meta, nullable[0])] + columns)
  }

  function TakeColumns(s: seq<Byte>): Result<seq<Column>> {
    var (n, s1) :- DecodeVarint(s);
    var (types, s2) :- Take(s1, n);
    var (metas, s3) :- DecodeString(s2);
    var (nullable, _) :- TakeBits(s3, n);
    BuildColumns(types, metas, nullable)
  }

  /** BinlogProcessor::parse_table_map_event. */
  function ParseTableMap(data: seq<Byte>): Result<TableMap> {
    var (header, s1) :- TakeHeader(data);
    if header.etype != TABLE_MAP_EVENT then Err(WrongEventType)
    else
      var (tableId, s2) :- TakeLE(s1, 6);
      var (flags, s3) :- TakeLE(s2, 2);
      var (database, s4) :- TakeName(s3);
      var (table, s5) :- TakeName(s4);
      var columns :- TakeColumns(s5);
      Ok(TableMap(header, tableId, flags, TableInfo(database, table, columns)))
  }

  /** The event types of row events, versions 0 to 2. */
  function WriteTypeOf(etype: Byte): Result<WriteType> {
    if etype in {20, 23, 30} then Ok(Insert)
    else if etype in {21, 24, 31} then Ok(Update)
    else if etype in {22, 25, 32} then Ok(Delete)
    else Err(WrongEventType)
  }

  predicate IsV2(etype: Byte) {
    etype in {30, 31, 32}
  }

  predicate HasPreimage(etype: Byte) {
    etype in {24, 31}
  }

  /** Whether rows of such an event have an image before and one after. */
  predicate Pre(etype: Byte) {
    WriteTypeOf(etype) == Ok(Delete) || HasPreimage(etype)
  }

  predicate Post(etype: Byte) {
    WriteTypeOf(etype) != Ok(Delete)
  }

  datatype RowsEvent = RowsEvent(
    header: Header, writeType: WriteType, tableId: nat, info: TableInfo, flags: nat,
    extra: seq<Byte>, rows: seq<RowChange>)

  /** The extra data of version 2, whose length includes the length field; a
      length below two becomes a huge unsigned size. */
  function TakeExtra(s: seq<Byte>, v2: bool): Parsed<seq<Byte>> {
    if !v2 then Ok(([], s))
    else
      var (n, s1) :- TakeLE(s, 2);
      Take(s1, if n >= 2 then n - 2 else U64 + n - 2)
  }

  /** One or two masks that must mark every column as present. */
  function TakePresence(s: seq<Byte>, columns: nat, masks: nat): Parsed<()> {
    if masks == 0 then Ok(((), s))
    else
      var (bits, s1) :- TakeBits(s, columns);
      if false in bits then Err(ColumnAbsent) else TakePresence(s1, columns, masks - 1)
  }

  /** Everything up to the row area: the event without its rows. */
  function TakeRowsHead(tables: map<nat, TableInfo>, data: seq<Byte>): Parsed<RowsEvent> {
    var (header, s1) :- TakeHeader(data);
    var writeType :- WriteTypeOf(header.etype);
    var (tableId, s2) :- TakeLE(s1, 6);
    if tableId == 0xFFFFFF then Err(TableMapFree)
    else if tableId !in tables then Err(UnknownTable)
    else
      var info := tables[tableId];
      var (flags, s3) :- TakeLE(s2, 2);
      var (extra, s4) :- TakeExtra(s3, IsV2(header.etype));
      var (n, s5) :- DecodeVarint(s4);
      if n != |info.columns| then Err(ColumnMismatch)
      else
        var (_, s6) :- TakePresence(s5, n, if HasPreimage(header.etype) then 2 else 1);
        Ok((RowsEvent(header, writeType, tableId, info, flags, extra, []), s6))
  }

  /** BinlogProcessor::parse_rows_event, with the tables mapped so far. */
  function ParseRows(tables: map<nat, TableInfo>, data: seq<Byte>): Result<RowsEvent> {
    var (head, s) :- TakeRowsHead(tables, data);
    var rows :- ReadChanges(s, head.info.columns, Pre(head.header.etype), Post(head.header.etype));
    Ok(head.(rows := rows))
  }

  // ----- what a table map establishes and a rows event relies on

  ghost predicate ColumnOk(c: Column) {
    MetadataSize(c.ctype) == Some(|c.meta|)
  }

  ghost predicate ColumnsOk(columns: seq<Column>) {
    forall i :: 0 <= i < |columns| ==> ColumnOk(columns[i])
  }

  ghost predicate TablesOk(tables: map<nat, TableInfo>) {
    forall id :: id in tables ==> ColumnsOk(tables[id].columns)
  }

  lemma {:induction false} BuiltColumnsAreOk(types: seq<Byte>, metas: seq<Byte>, nullable: seq<bool>)
    requires |types| == |nullable| && BuildColumns(types, metas, nullable).Ok?
    ensures |BuildColumns(types, metas, nullable).value| == |types|
    ensures ColumnsOk(BuildColumns(types, metas, nullable).value)
    decreases |types|
  {
    if types != [] {
      MetadataTable(types[0]);
      var n := MetadataBytes(types[0]).value;
      hide MetadataBytes, MetadataSize;
      BuiltColumnsAreOk(types[1..], metas[n..], nullable[1..]);
    }
  }

  lemma TableMapIsOk(data: seq<Byte>)
    ensures ParseTableMap(data).Ok? ==> ColumnsOk(ParseTableMap(data).value.info.columns)
  {
    hide MetadataBytes, BuildColumns, ColumnsOk, TakeHeader, TakeName, DecodeString, DecodeVarint, TakeBits;
    if ParseTableMap(data).Ok? {
      var s1 := TakeHeader(data).value.1;
      var s2 := TakeLE(s1, 6).value.1;
      var s3 := TakeLE(s2, 2).value.1;
      var s5 := TakeName(TakeName(s3).value.1).value.1;
      var (n, t1) := DecodeVarint(s5).value;
      var (types, t2) := Take(t1, n).value;
      var (metas, t3) := DecodeString(t2).value;
      TakeBitsLength(t3, n);
      BuiltColumnsAreOk(types, metas, TakeBits(t3, n).value.0);
    }
  }

  lemma TakeBitsLength(s: seq<Byte>, n: nat)
    requires TakeBits(s, n).Ok?
    ensures |TakeBits(s, n).value.0| == n
  {
  }

  /** A cell of any other type than the readable ones is refused, whatever the
      octets are; such a type is the only reason for that error. */
  lemma UnreadableType(s: seq<Byte>, c: Column)
    ensures ReadCell(s, c) == Err(BadColumnType) <==> c.ctype != 0x06 && !Readable(c.ctype)
    ensures ReadCell(s, c).Ok? && c.ctype != 0x06 ==> Readable(c.ctype)
  {
  }

  /** For columns of a table map, the metadata checks of the cell reader never
      fail and a cell that is not marked NULL is not NULL. */
  lemma MetadataChecksAreDead(s: seq<Byte>, c: Column)
    requires ColumnOk(c)
    ensures c.ctype != T_NULL && ReadCell(s, c) != Err(BadTypeOptions)
    ensures ReadCell(s, c).Ok? ==> !ReadCell(s, c).value.0.Null?
  {
  }

  /** NULL appears only in nullable columns, and exactly where the mask says; a
      row with any other cell of an unreadable type is not read at all. */
  lemma {:induction false} NullsAreMarked(s: seq<Byte>, columns: seq<Column>, nulls: seq<bool>)
    requires |nulls| == |columns| && ColumnsOk(columns) && ReadCells(s, columns, nulls).Ok?
    ensures var row := ReadCells(s, columns, nulls).value.0;
            |row| == |columns| && forall i :: 0 <= i < |row| ==>
              (row[i].Null? <==> nulls[i]) && (if row[i].Null? then columns[i].nullable else Readable(columns[i].ctype))
    decreases |columns|
  {
    hide ReadCell, ColumnOk;
    if columns != [] {
      assert ColumnOk(columns[0]);
      MetadataChecksAreDead(s, columns[0]);
      UnreadableType(s, columns[0]);
      hide Readable;
      var s1 := ReadMaskedCell(s, columns[0], nulls[0]).value.1;
      assert ColumnsOk(columns[1..]);
      NullsAreMarked(s1, columns[1..], nulls[1..]);
      assert forall i :: 1 <= i < |columns| ==> columns[1..][i - 1] == columns[i] && nulls[1..][i - 1] == nulls[i];
    }
  }

  /** What a row of a table must look like. */
  ghost predicate RowOk(columns: seq<Column>, row: seq<Value>) {
    |row| == |columns| && forall i :: 0 <= i < |row| ==>
      if row[i].Null? then columns[i].nullable else Readable(columns[i].ctype)
  }

  lemma {:induction false} CellsPassChecks(s: seq<Byte>, columns: seq<Column>, nulls: seq<bool>)
    requires |nulls| == |columns| && ColumnsOk(columns)
    ensures ReadCells(s, columns, nulls) != Err(BadTypeOptions)
    decreases |columns|
  {
    hide ReadCell, ColumnOk;
    if columns != [] {
      assert ColumnOk(columns[0]);
      MetadataChecksAreDead(s, columns[0]);
      assert ColumnsOk(columns[1..]);
      if ReadMaskedCell(s, columns[0], nulls[0]).Ok? {
        CellsPassChecks(ReadMaskedCell(s, columns[0], nulls[0]).value.1, columns[1..], nulls[1..]);
      }
    }
  }

  lemma ImageIsSound(s: seq<Byte>, columns: seq<Column>, present: bool)
    requires ColumnsOk(columns)
    ensures ReadImage(s, columns, present) != Err(BadTypeOptions)
    ensures present && ReadImage(s, columns, present).Ok? ==> RowOk(columns, ReadImage(s, columns, present).value.0)
  {
    hide ReadCells, ColumnsOk;
    if TakeBits(s, |columns|).Ok? {
      var (nulls, s1) := TakeBits(s, |columns|).value;
      CellsPassChecks(s1, columns, nulls);
      if ReadCells(s1, columns, nulls).Ok? {
        NullsAreMarked(s1, columns, nulls);
      }
    }
  }

  ghost predicate ChangeOk(columns: seq<Column>, change: RowChange, pre: bool, post: bool) {
    (if pre then RowOk(columns, change.pre) else change.pre == []) && (if post then RowOk(columns, change.post) else change.post == [])
  }

  lemma ChangeIsSound(s: seq<Byte>, columns: seq<Column>, pre: bool, post: bool)
    requires ColumnsOk(columns)
    ensures ReadChange(s, columns, pre, post) != Err(BadTypeOptions)
    ensures ReadChange(s, columns, pre, post).Ok? ==> ChangeOk(columns, ReadChange(s, columns, pre, post).value.0, pre, post)
  {
    hide ReadRow, RowOk, ColumnsOk;
    ImageIsSound(s, columns, pre);
    if ReadImage(s, columns, pre).Ok? {
      ImageIsSound(ReadImage(s, columns, pre).value.1, columns, post);
    }
  }

  lemma {:induction false} ChangesAreSound(s: seq<Byte>, columns: seq<Column>, pre: bool, post: bool)
    requires (pre || post) && ColumnsOk(columns)
    ensures ReadChanges(s, columns, pre, post) != Err(BadTypeOptions)
    ensures ReadChanges(s, columns, pre, post).Ok? ==>
              forall change :: change in ReadChanges(s, columns, pre, post).value ==> ChangeOk(columns, change, pre, post)
    decreases |s|
  {
    hide ReadChange, ChangeOk, ColumnsOk;
    if s != [] && columns != [] {
      ChangeIsSound(s, columns, pre, post);
      if ReadChange(s, columns, pre, post).Ok? {
        ChangeMakesProgress(s, columns, pre, post);
        ChangesAreSound(ReadChange(s, columns, pre, post).value.1, columns, pre, post);
      }
    }
  }

  /** The presence masks pass if and only if they are there and every bit of
      every column is set in each of them. */
  lemma {:induction false} PresenceIff(s: seq<Byte>, columns: nat, masks: nat)
    ensures TakePresence(s, columns, masks).Ok? <==> masks * Octets(columns) <= |s| && AllMarked(s, columns, masks)
    ensures TakePresence(s, columns, masks).Ok? ==> TakePresence(s, columns, masks).value.1 == s[masks * Octets(columns)..]
    ensures masks * Octets(columns) <= |s| && !AllMarked(s, columns, masks) ==> TakePresence(s, columns, masks) == Err(ColumnAbsent)
    decreases masks
  {
    if masks > 0 {
      var n := Octets(columns);
      assert masks * n == n + (masks - 1) * n;
      if n <= |s| {
        PresenceIff(s[n..], columns, masks - 1);
        OneMask(s, columns);
        assert (masks - 1) * n <= |s[n..]| ==> s[n..][(masks - 1) * n..] == s[masks * n..];
      }
    }
  }

  /** Every column is marked in each of the masks. */
  ghost predicate AllMarked(s: seq<Byte>, columns: nat, masks: nat) {
    masks == 0 ||
    (Octets(columns) <= |s| && (forall x :: 0 <= x < columns ==> Bit(s[x / 8], x % 8)) && AllMarked(s[Octets(columns)..], columns, masks - 1))
  }

  lemma OneMask(s: seq<Byte>, columns: nat)
    requires Octets(columns) <= |s|
    ensures var r := TakeBits(s, columns);
            && r.Ok? && r.value.1 == s[Octets(columns)..]
            && (false !in r.value.0 <==> forall x :: 0 <= x < columns ==> Bit(s[x / 8], x % 8))
  {
    var bits := TakeBits(s, columns).value.0;
    assert |bits| == columns;
    forall x | 0 <= x < columns
      ensures bits[x] == Bit(s[x / 8], x % 8)
    {
    }
    if false !in bits {
      forall x | 0 <= x < columns
        ensures Bit(s[x / 8], x % 8)
      {
        assert bits[x] in bits;
      }
    }
  }

  /** The extra data of version 2 is there if and only if its length is at least
      two and it has come completely. */
  lemma ExtraIff(s: seq<Byte>)
    requires |s| < U64 - 2
    ensures TakeExtra(s, true).Ok? <==> |s| >= 2 && 2 <= s[0] as nat + 256 * s[1] as nat <= |s|
    ensures TakeExtra(s, true).Ok? ==>
              var n := s[0] as nat + 256 * s[1] as nat; TakeExtra(s, true).value == (s[2..n], s[n..])
  {
    if |s| >= 2 {
      var a, b := s[0], s[1];
      assert s[..2] == [a, b] && [a, b][1..] == [b] && [b][1..] == [];
      assert FromLE([b]) == b && FromLE(s[..2]) == a + 256 * FromLE([b]);
      var n := FromLE(s[..2]);
      if 2 <= n <= |s| {
        assert s[2..][..n - 2] == s[2..n] && s[2..][n - 2..] == s[n..];
      }
    }
  }

  lemma HeadPassesChecks(tables: map<nat, TableInfo>, data: seq<Byte>)
    ensures TakeRowsHead(tables, data) != Err(BadTypeOptions)
    ensures TakeRowsHead(tables, data).Ok? ==>
              var head := TakeRowsHead(tables, data).value.0;
              head.tableId in tables && head.info == tables[head.tableId]
  {
    hide FromLE, TakePresence, TakeHeader, DecodeVarint;
    HeaderPassesChecks(data);
    if TakeHeader(data).Ok? {
      var (header, s1) := TakeHeader(data).value;
      var masks := if HasPreimage(header.etype) then 2 else 1;
      if |s1| >= 8 && TakeExtra(s1[6..][2..], IsV2(header.etype)).Ok? {
        var s4 := TakeExtra(s1[6..][2..], IsV2(header.etype)).value.1;
        VarintPassesChecks(s4);
        if DecodeVarint(s4).Ok? {
          PresencePassesChecks(DecodeVarint(s4).value.1, DecodeVarint(s4).value.0, masks);
        }
      }
    }
  }

  lemma HeaderPassesChecks(data: seq<Byte>)
    ensures TakeHeader(data) != Err(BadTypeOptions)
  {
  }

  lemma VarintPassesChecks(s: seq<Byte>)
    ensures DecodeVarint(s) != Err(BadTypeOptions)
  {
  }

  lemma {:induction false} PresencePassesChecks(s: seq<Byte>, columns: nat, masks: nat)
    ensures TakePresence(s, columns, masks) != Err(BadTypeOptions)
    decreases masks
  {
    if masks > 0 && TakeBits(s, columns).Ok? {
      PresencePassesChecks(TakeBits(s, columns).value.1, columns, masks - 1);
    }
  }

  /** As long as the tables come from table maps, a rows event never fails the
      checks of column metadata; the sizes it reports add up to the octets
      after the presence masks, and every image it has holds one value per
      column with NULL only where the column allows it. */
  lemma ParsedRowsAreSound(tables: map<nat, TableInfo>, data: seq<Byte>)
    requires TablesOk(tables)
    ensures ParseRows(tables, data) != Err(BadTypeOptions)
    ensures ParseRows(tables, data).Ok? ==>
              var ev := ParseRows(tables, data).value;
              && TotalBytes(ev.rows) == |TakeRowsHead(tables, data).value.1|
              && forall change :: change in ev.rows ==>
                   ChangeOk(ev.info.columns, change, Pre(ev.header.etype), Post(ev.header.etype))
  {
    hide TakeRowsHead, ReadChanges, ChangeOk, ColumnsOk;
    HeadPassesChecks(tables, data);
    if TakeRowsHead(tables, data).Ok? {
      var (head, s) := TakeRowsHead(tables, data).value;
      var pre, post := Pre(head.header.etype), Post(head.header.etype);
      ChangesAreSound(s, head.info.columns, pre, post);
      if ReadChanges(s, head.info.columns, pre, post).Ok? {
        BytesAreConserved(s, head.info.columns, pre, post);
      }
    }
  }
}

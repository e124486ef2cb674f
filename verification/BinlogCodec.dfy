/** Encoders for binlog events, and the proof that the parser inverts them. */
module BinlogCodec {
  import opened Results
  import opened Bytes
  import opened Varints
  import opened Binlogs

  // ----- packed dates and times

  /** The five fields of a packed value, most significant first. */
  function Pack(a: nat, d: nat, h: nat, m: nat, s: nat): nat {
    (((a * 32 + d) * 32 + h) * 64 + m) * 64 + s
  }

  lemma Unpack(a: nat, d: nat, h: nat, m: nat, s: nat)
    requires d < 32 && h < 32 && m < 64 && s < 64
    ensures var z := Pack(a, d, h, m, s);
            z % 64 == s && z / 64 % 64 == m && z / 0x1000 % 32 == h && z / 0x2_0000 % 32 == d && z / 0x40_0000 == a
  {
    var z1 := a * 32 + d;
    var z2 := z1 * 32 + h;
    var z3 := z2 * 64 + m;
    var z := z3 * 64 + s;
    Digit(z3, 64, s);
    Digit(z2, 64, m);
    Digit(z1, 32, h);
    Digit(a, 32, d);
    Shifts(z);
  }

  lemma Digit(q: nat, n: nat, r: nat)
    requires (n == 32 || n == 64) && r < n
    ensures (q * n + r) / n == q && (q * n + r) % n == r
  {
  }

  lemma Shifts(z: nat)
    ensures z / 0x1000 == z / 64 / 64 && z / 0x2_0000 == z / 64 / 64 / 32 && z / 0x40_0000 == z / 64 / 64 / 32 / 32
  {
  }

  predicate DateTimeInRange(v: Value) {
    v.DateTime? && v.years <= 9999 && v.months <= 12 && v.days < 32 && v.hours < 32 && v.minutes < 64 && v.seconds < 64
  }

  /** Forty bits: the sign bit and thirteen times the year plus the month in
      the upper eighteen, then day and hour in five each, minute and second in
      six each. */
  function PackDateTime(v: Value): nat
    requires v.DateTime?
  {
    Pack(0x2_0000 + 13 * v.years + v.months, v.days, v.hours, v.minutes, v.seconds)
  }

  /** Decoding inverts the packing if and only if the month is not zero; a date
      with month zero comes out in the year before, and the zero date in 5041. */
  lemma DateTimeRoundTripIff(v: Value)
    requires DateTimeInRange(v)
    ensures UnpackDateTime(PackDateTime(v), v.usecs) == v <==> v.months != 0
    ensures v.months == 0 ==>
              UnpackDateTime(PackDateTime(v), v.usecs) == v.(years := if v.years > 0 then v.years - 1 else 5041)
  {
    Unpack(0x2_0000 + 13 * v.years + v.months, v.days, v.hours, v.minutes, v.seconds);
    MonthOf(v.years, v.months);
    YearOf(v.years, v.months);
  }

  lemma MonthOf(years: nat, months: nat)
    requires months <= 12
    ensures (0x2_0000 + 13 * years + months + 7) % 13 == months
  {
    assert 0x2_0000 + 7 == 13 * 10083;
    assert (13 * (10083 + years) + months) % 13 == months;
  }

  lemma YearOf(years: nat, months: nat)
    requires years <= 9999 && months <= 12
    ensures (0x2_0000 + 13 * years + months + U64 - 131073) % U64 / 13 % U16 ==
            if months != 0 then years else if years > 0 then years - 1 else 5041
  {
    var x := 13 * years + months;
    var y := 0x2_0000 + 13 * years + months + U64 - 131073;
    assert y == x + U64 - 1;
    if months > 0 {
      assert y % U64 == x - 1;
      assert (13 * years + (months - 1)) / 13 == years;
    } else if years > 0 {
      assert y % U64 == x - 1;
      assert (13 * (years - 1) + 12) / 13 == years - 1;
    } else {
      assert y % U64 == U64 - 1;
    }
  }

  predicate TimeInRange(v: Value) {
    v.Time? && v.hours < 1024 && v.minutes < 64 && v.seconds < 64
  }

  /** Twenty-four bits: the seconds, minutes and hours in six, six and eleven,
      added to or subtracted from the middle of the range. */
  function PackTime(v: Value): nat
    requires TimeInRange(v)
  {
    var t := (v.hours * 64 + v.minutes) * 64 + v.seconds;
    if v.negative then 0x80_0000 - t else 0x80_0000 + t
  }

  /** Decoding inverts the packing of every time but minus zero, which comes out
      as zero. */
  lemma TimeRoundTripIff(v: Value)
    requires TimeInRange(v)
    ensures PackTime(v) < U24
    ensures UnpackTime(PackTime(v), v.usecs) == v <==> !(v.negative && v.hours == v.minutes == v.seconds == 0)
    ensures v.hours == v.minutes == v.seconds == 0 ==> UnpackTime(PackTime(v), v.usecs) == v.(negative := false)
  {
    var t := (v.hours * 64 + v.minutes) * 64 + v.seconds;
    TimeFields(v.hours, v.minutes, v.seconds, if v.negative && t > 0 then (U32 - 0x80_0000) / 0x40_0000 else 2);
  }

  lemma TimeFields(h: nat, m: nat, s: nat, k: nat)
    requires h < 1024 && m < 64 && s < 64
    ensures var t := k * 0x40_0000 + ((h * 64 + m) * 64 + s);
            t % 64 == s && t / 64 % 64 == m && t / 0x1000 % 1024 == h
  {
    var a := k * 1024 + h;
    var t := (a * 64 + m) * 64 + s;
    assert t == k * 0x40_0000 + ((h * 64 + m) * 64 + s);
    assert t / 64 == a * 64 + m && t / 0x1000 == a;
  }

  predicate FractionFits(precision: Byte, usecs: nat) {
    if precision == 0 then usecs == 0
    else if precision <= 2 then usecs % 10000 == 0 && usecs / 10000 < 256
    else if precision <= 4 then usecs % 100 == 0 && usecs / 100 < U16
    else precision <= 6 && usecs < U24
  }

  function EncodeFraction(precision: Byte, usecs: nat): seq<Byte> {
    if precision == 0 then []
    else if precision <= 2 then [usecs / 10000 % 256]
    else if precision <= 4 then ToBE(usecs / 100, 2)
    else ToBE(usecs, 3)
  }

  lemma FractionRoundTrip(precision: Byte, usecs: nat, rest: seq<Byte>)
    requires FractionFits(precision, usecs)
    ensures TakeFraction(EncodeFraction(precision, usecs) + rest, precision) == Ok((usecs, rest))
  {
    Pow256Values();
    if precision == 0 {
      assert [] + rest == rest;
    } else if precision <= 2 {
      assert ([usecs / 10000 % 256] + rest)[1..] == rest;
    } else if precision <= 4 {
      TakeBEOfToBE(usecs / 100, 2, rest);
    } else {
      TakeBEOfToBE(usecs, 3, rest);
    }
  }

  /** The width of a STRING column hides its high bits in the type octet. */
  function WidthMeta(width: nat): seq<Byte>
    requires width < 1024
  {
    [0xCE + 16 * (3 - width / 256), width % 256]
  }

  lemma WidthRoundTrip(width: nat)
    requires width < 1024
    ensures var meta := WidthMeta(width);
            DisplayWidth(meta[0], meta[1]) == width && meta[0] != 0xF7 && meta[0] != 0xF8
  {
  }

  /** For any metadata: bits 4 and 5 of the type octet, inverted, are the high
      bits of the width. */
  lemma WidthBits(meta0: Byte, meta1: Byte)
    ensures DisplayWidth(meta0, meta1) == (if Bit(meta0, 5) then 0 else 512) + (if Bit(meta0, 4) then 0 else 256) + meta1 as nat
  {
    Nibble(meta0);
    hide Bit;
    var x := meta0 / 16;
    assert x % 4 == 2 * (x / 2 % 2) + x % 2;
  }

  lemma Nibble(b: Byte)
    ensures (Bit(b, 4) <==> b / 16 % 2 == 1) && (Bit(b, 5) <==> b / 16 / 2 % 2 == 1)
  {
    assert Bit(b, 4) == Bit(b / 2, 3) == Bit(b / 2 / 2, 2) == Bit(b / 2 / 2 / 2, 1) == Bit(b / 2 / 2 / 2 / 2, 0);
    assert Bit(b, 5) == Bit(b / 2, 4) == Bit(b / 2 / 2, 3) == Bit(b / 2 / 2 / 2, 2) == Bit(b / 2 / 2 / 2 / 2, 1);
    assert b / 2 / 2 / 2 / 2 == b / 16;
  }

  // ----- cells

  /** The width of an integer column, or zero. */
  function IntSize(t: Byte): nat {
    if t == 0x01 || t == 0x0D then 1
    else if t == 0x02 then 2
    else if t == 0x09 then 3
    else if t == 0x03 then 4
    else if t == 0x08 then 8
    else 0
  }

  /** The size of the length field of a string-like column. */
  function LengthSize(c: Column): nat {
    if c.ctype in {0xF5, 0xF9, 0xFA, 0xFB, 0xFC, 0xFF} then (if |c.meta| == 1 && 1 <= c.meta[0] <= 4 then c.meta[0] else 0)
    else if |c.meta| != 2 then 0
    else if c.ctype == 0x0F then (if c.meta[1] > 0 then 2 else 1)
    else if c.ctype in {0xF7, 0xF8, 0xFE} && c.meta[0] != 0xF7 && c.meta[0] != 0xF8 then
      (if Bit(c.meta[0], 4) && Bit(c.meta[0], 5) then 1 else 2)
    else 0
  }

  predicate IsEnumLike(c: Column) {
    c.ctype in {0xF7, 0xF8, 0xFE} && |c.meta| == 2 && (c.meta[0] == 0xF7 || c.meta[0] == 0xF8)
  }

  /** The size of the length field of a variable-length column is the one the
      parser uses. */
  lemma LengthSizeIsRight(c: Column)
    requires |c.meta| == 2
    ensures (FromLE(c.meta) > 255 <==> c.meta[1] > 0)
    ensures DisplayWidth(c.meta[0], c.meta[1]) > 255 <==> !(Bit(c.meta[0], 4) && Bit(c.meta[0], 5))
  {
    hide Bit;
    WidthBits(c.meta[0], c.meta[1]);
    var a, b := c.meta[0], c.meta[1];
    assert c.meta == [a, b] && [a, b][1..] == [b] && [b][1..] == [];
    assert FromLE([b]) == b && FromLE([a, b]) == a + 256 * FromLE([b]);
  }

  /** The values a column of a supported type can hold. */
  ghost predicate CellFits(c: Column, v: Value) {
    if IntSize(c.ctype) > 0 then v.UInt? && v.n < Pow256(IntSize(c.ctype))
    else if c.ctype == 0x04 then v.Float32? && |v.octets| == 4
    else if c.ctype == 0x05 then v.Float64? && |v.octets| == 8
    else if LengthSize(c) > 0 then v.Text? && |v.text| < Pow256(LengthSize(c))
    else if IsEnumLike(c) then v.Text? && |v.text| == c.meta[1] < 128
    else if c.ctype == 0x07 then v.UInt? && v.n % 1000000 == 0 && v.n / 1000000 < U32
    else if c.ctype == 0x12 then
      |c.meta| == 1 && DateTimeInRange(v) && v.months > 0 && FractionFits(c.meta[0], v.usecs)
    else if c.ctype == 0x13 then
      && |c.meta| == 1 && TimeInRange(v) && FractionFits(c.meta[0], v.usecs)
      && (v.negative ==> v.usecs == 0 && !(v.hours == v.minutes == v.seconds == 0))
    else false
  }

  function EncodeCell(c: Column, v: Value): seq<Byte>
    requires CellFits(c, v)
  {
    if IntSize(c.ctype) > 0 then ToLE(v.n, IntSize(c.ctype))
    else if c.ctype == 0x04 || c.ctype == 0x05 then v.octets
    else if LengthSize(c) > 0 then ToLE(|v.text|, LengthSize(c)) + v.text
    else if IsEnumLike(c) then v.text
    else if c.ctype == 0x07 then ToLE(v.n / 1000000, 4)
    else if c.ctype == 0x12 then
      ToBE(PackDateTime(v) / 256, 4) + [PackDateTime(v) % 256] + EncodeFraction(c.meta[0], v.usecs)
    else ToBE(PackTime(v), 3) + EncodeFraction(c.meta[0], v.usecs)
  }

  lemma SizedRoundTrip(text: seq<Byte>, n: nat, rest: seq<Byte>)
    requires |text| < Pow256(n)
    ensures ReadSized(ToLE(|text|, n) + text + rest, n) == Ok((Text(text), rest))
  {
    assert ToLE(|text|, n) + text + rest == ToLE(|text|, n) + (text + rest);
    TakeLEOfToLE(|text|, n, text + rest);
    TakeOfConcat(text, rest);
  }

  lemma DateTime2RoundTrip(v: Value, precision: Byte, rest: seq<Byte>)
    requires DateTimeInRange(v) && v.months > 0 && FractionFits(precision, v.usecs)
    ensures ReadDateTime2(ToBE(PackDateTime(v) / 256, 4) + [PackDateTime(v) % 256] + EncodeFraction(precision, v.usecs) + rest, precision)
            == Ok((v, rest))
  {
    hide UnpackDateTime, TakeFraction, EncodeFraction, ToBE, TakeBE;
    var z := PackDateTime(v);
    PackedDateTimeFits(v);
    var e2 := EncodeFraction(precision, v.usecs) + rest;
    var e1 := [z % 256] + e2;
    assert ToBE(z / 256, 4) + [z % 256] + EncodeFraction(precision, v.usecs) + rest == ToBE(z / 256, 4) + e1;
    Pow256Values();
    TakeBEOfToBE(z / 256, 4, e1);
    assert e1[1..] == e2;
    FractionRoundTrip(precision, v.usecs, rest);
    DateTimeRoundTripIff(v);
  }

  lemma PackedDateTimeFits(v: Value)
    requires DateTimeInRange(v)
    ensures PackDateTime(v) / 256 < U32
  {
  }

  lemma Time2RoundTrip(v: Value, precision: Byte, rest: seq<Byte>)
    requires TimeInRange(v) && FractionFits(precision, v.usecs)
    requires !(v.negative && v.hours == v.minutes == v.seconds == 0)
    ensures ReadTime2(ToBE(PackTime(v), 3) + EncodeFraction(precision, v.usecs) + rest, precision) == Ok((v, rest))
  {
    TimeRoundTripIff(v);
    hide UnpackTime, PackTime, TakeFraction, EncodeFraction, ToBE, Take, FromBE;
    var e1 := EncodeFraction(precision, v.usecs) + rest;
    assert ToBE(PackTime(v), 3) + EncodeFraction(precision, v.usecs) + rest == ToBE(PackTime(v), 3) + e1;
    Pow256Values();
    TakeOfConcat(ToBE(PackTime(v), 3), e1);
    BERoundTrip(PackTime(v), 3);
    FractionRoundTrip(precision, v.usecs, rest);
  }

  lemma CellRoundTrip(c: Column, v: Value, rest: seq<Byte>)
    requires CellFits(c, v)
    ensures ReadCell(EncodeCell(c, v) + rest, c) == Ok((v, rest))
  {
    hide ReadDateTime2, ReadTime2, ReadSized, PackDateTime, PackTime, EncodeFraction, FromLE, DisplayWidth, Pow256, TakeLE, ToLE, ToBE, TakeBE,
         TakeFraction, Bit;
    Pow256Values();
    if |c.meta| == 2 {
      LengthSizeIsRight(c);
    }
    if IntSize(c.ctype) > 0 {
      TakeLEOfToLE(v.n, IntSize(c.ctype), rest);
    } else if c.ctype == 0x04 || c.ctype == 0x05 {
      TakeOfConcat(v.octets, rest);
    } else if LengthSize(c) > 0 {
      SizedRoundTrip(v.text, LengthSize(c), rest);
    } else if IsEnumLike(c) {
      TakeOfConcat(v.text, rest);
    } else if c.ctype == 0x07 {
      TakeLEOfToLE(v.n / 1000000, 4, rest);
    } else if c.ctype == 0x12 {
      DateTime2RoundTrip(v, c.meta[0], rest);
    } else {
      Time2RoundTrip(v, c.meta[0], rest);
    }
  }

  /** A TIMESTAMP2 is taken as little-endian seconds, and the octets of its
      fraction are skipped, whatever they are. */
  lemma Timestamp2SkipsFraction(c: Column, seconds: nat, fraction: seq<Byte>, rest: seq<Byte>)
    requires c.ctype == 0x11 && |c.meta| == 1 && c.meta[0] < 128
    requires seconds < U32 && |fraction| == (c.meta[0] + 1) / 2
    ensures ReadCell(ToLE(seconds, 4) + (fraction + rest), c) == Ok((UInt(seconds), rest))
  {
    hide TakeLE, ToLE, Take;
    Pow256Values();
    TakeLEOfToLE(seconds, 4, fraction + rest);
    TakeOfConcat(fraction, rest);
  }

  // ----- which octets are a cell

  /** How many octets a text takes with its length in front. */
  function SizedNeed(s: seq<Byte>, n: nat): Option<nat> {
    if |s| < n then None else Some(n + FromLE(s[..n]))
  }

  function FractionSize(precision: Byte): nat {
    (precision + 1) / 2
  }

  /** How many octets the next cell takes, or `None` if there is none: types that
      are not readable, metadata of the wrong size or value, and sizes that are
      negative when taken as signed chars. */
  function CellNeed(s: seq<Byte>, c: Column): Option<nat> {
    if c.ctype == 0x06 then Some(0)
    else if IntSize(c.ctype) > 0 then Some(IntSize(c.ctype))
    else if c.ctype == 0x04 || c.ctype == 0x07 then Some(4)
    else if c.ctype == 0x05 then Some(8)
    else if LengthSize(c) > 0 then SizedNeed(s, LengthSize(c))
    else if IsEnumLike(c) then (if c.meta[1] < 128 then Some(c.meta[1]) else None)
    else if |c.meta| != 1 then None
    else
      var p := c.meta[0];
      if c.ctype == 0x11 then
        (if p < 128 then Some(4 + FractionSize(p)) else if p >= 254 then Some(4) else None)
      else if c.ctype == 0x12 && p <= 6 then Some(5 + FractionSize(p))
      else if c.ctype == 0x13 && p <= 6 then Some(3 + FractionSize(p))
      else None
  }

  lemma FractionNeed(s: seq<Byte>, precision: Byte)
    ensures TakeFraction(s, precision).Ok? <==> precision <= 6 && FractionSize(precision) <= |s|
    ensures TakeFraction(s, precision).Ok? ==> TakeFraction(s, precision).value.1 == s[FractionSize(precision)..]
  {
    hide FromBE;
  }

  /** For every column and all octets: a cell is read if and only if it is there,
      and then exactly its octets are taken. */
  lemma CellIsReadIff(s: seq<Byte>, c: Column)
    requires |s| < U64 - 128
    ensures ReadCell(s, c).Ok? <==> CellNeed(s, c).Some? && CellNeed(s, c).value <= |s|
    ensures ReadCell(s, c).Ok? ==> ReadCell(s, c).value.1 == s[CellNeed(s, c).value..]
  {
    hide FromLE, DisplayWidth, Bit, ReadSized, SizedNeed, ReadTimestamp2, ReadDateTime2, ReadTime2;
    if |c.meta| == 2 {
      LengthSizeIsRight(c);
    }
    if c.ctype == 0x11 || c.ctype == 0x12 || c.ctype == 0x13 {
      if |c.meta| == 1 {
        assert c.meta == [c.meta[0]];
        TimesAreReadIff(s, c.meta[0]);
      } else {
        NoPrecision(s, c.meta);
      }
    } else if LengthSize(c) > 0 {
      SizedIsReadIff(s, LengthSize(c));
    } else if IntSize(c.ctype) > 0 {
    } else if IsEnumLike(c) {
    }
  }

  lemma NoPrecision(s: seq<Byte>, meta: seq<Byte>)
    requires |meta| != 1
    ensures ReadTimestamp2(s, meta).Err?
  {
  }

  lemma SizedIsReadIff(s: seq<Byte>, n: nat)
    ensures ReadSized(s, n).Ok? <==> SizedNeed(s, n).Some? && SizedNeed(s, n).value <= |s|
    ensures ReadSized(s, n).Ok? ==> ReadSized(s, n).value.1 == s[SizedNeed(s, n).value..]
  {
    hide FromLE;
    if |s| >= n && n + FromLE(s[..n]) <= |s| {
      assert s[n..][FromLE(s[..n])..] == s[n + FromLE(s[..n])..];
    }
  }

  lemma TimesAreReadIff(s: seq<Byte>, p: Byte)
    requires |s| < U64 - 128
    ensures ReadDateTime2(s, p).Ok? <==> p <= 6 && 5 + FractionSize(p) <= |s|
    ensures ReadDateTime2(s, p).Ok? ==> ReadDateTime2(s, p).value.1 == s[5 + FractionSize(p)..]
    ensures ReadTime2(s, p).Ok? <==> p <= 6 && 3 + FractionSize(p) <= |s|
    ensures ReadTime2(s, p).Ok? ==> ReadTime2(s, p).value.1 == s[3 + FractionSize(p)..]
    ensures ReadTimestamp2(s, [p]).Ok? <==> (p < 128 && 4 + FractionSize(p) <= |s|) || (p >= 254 && 4 <= |s|)
    ensures ReadTimestamp2(s, [p]).Ok? ==> ReadTimestamp2(s, [p]).value.1 == s[if p < 128 then 4 + FractionSize(p) else 4..]
  {
    hide FromLE, FromBE, TakeFraction, UnpackDateTime, UnpackTime;
    if |s| >= 5 {
      FractionNeed(s[4..][1..], p);
    }
    if |s| >= 3 {
      FractionNeed(s[3..], p);
    }
  }

  // ----- rows

  function NullMask(row: seq<Value>): seq<bool> {
    seq(|row|, i requires 0 <= i < |row| => row[i].Null?)
  }

  ghost predicate ValueFits(c: Column, v: Value) {
    if v.Null? then c.nullable else CellFits(c, v)
  }

  ghost predicate RowFits(columns: seq<Column>, row: seq<Value>) {
    |row| == |columns| && forall i :: 0 <= i < |row| ==> ValueFits(columns[i], row[i])
  }

  lemma RowFitsTail(columns: seq<Column>, row: seq<Value>)
    requires RowFits(columns, row) && columns != []
    ensures ValueFits(columns[0], row[0]) && RowFits(columns[1..], row[1..])
    ensures NullMask(row)[0] == row[0].Null? && NullMask(row)[1..] == NullMask(row[1..])
  {
  }

  ghost function EncodeCells(columns: seq<Column>, row: seq<Value>, rest: seq<Byte>): seq<Byte>
    requires RowFits(columns, row)
  {
    if columns == [] then rest
    else
      RowFitsTail(columns, row);
      var more := EncodeCells(columns[1..], row[1..], rest);
      if row[0].Null? then more else EncodeCell(columns[0], row[0]) + more
  }

  lemma {:induction false} CellsRoundTrip(columns: seq<Column>, row: seq<Value>, rest: seq<Byte>)
    requires RowFits(columns, row)
    ensures ReadCells(EncodeCells(columns, row, rest), columns, NullMask(row)) == Ok((row, rest))
    decreases |columns|
  {
    hide ReadCell, EncodeCell, CellFits, NullMask, RowFits;
    MaskLength(row);
    RowLength(columns, row);
    if columns != [] {
      RowFitsTail(columns, row);
      MaskLength(row[1..]);
      var more := EncodeCells(columns[1..], row[1..], rest);
      CellsRoundTrip(columns[1..], row[1..], rest);
      if !row[0].Null? {
        CellRoundTrip(columns[0], row[0], more);
      }
      assert row == [row[0]] + row[1..];
    }
  }

  lemma MaskLength(row: seq<Value>)
    ensures |NullMask(row)| == |row|
  {
  }

  lemma RowLength(columns: seq<Column>, row: seq<Value>)
    requires RowFits(columns, row)
    ensures |row| == |columns|
  {
  }

  lemma {:induction false} EncodeCellsAppends(columns: seq<Column>, row: seq<Value>, rest: seq<Byte>)
    requires RowFits(columns, row)
    ensures EncodeCells(columns, row, rest) == EncodeCells(columns, row, []) + rest
    decreases |columns|
  {
    hide EncodeCell, CellFits, NullMask, RowFits;
    if columns != [] {
      RowLength(columns, row);
      RowFitsTail(columns, row);
      EncodeCellsAppends(columns[1..], row[1..], rest);
    }
  }

  /** The null mask, then the cells that are not NULL. */
  ghost function EncodeRow(columns: seq<Column>, row: seq<Value>, rest: seq<Byte>): seq<Byte>
    requires RowFits(columns, row)
  {
    EncodeBits(NullMask(row)) + EncodeCells(columns, row, rest)
  }

  lemma RowRoundTrip(columns: seq<Column>, row: seq<Value>, rest: seq<Byte>)
    requires RowFits(columns, row)
    ensures ReadRow(EncodeRow(columns, row, rest), columns) == Ok((row, rest))
  {
    hide ReadCells, EncodeCells, EncodeBits, TakeBits;
    BitsRoundTrip(NullMask(row), EncodeCells(columns, row, rest));
    CellsRoundTrip(columns, row, rest);
  }

  // ----- row changes

  ghost predicate ImageFits(columns: seq<Column>, row: seq<Value>, present: bool) {
    if present then RowFits(columns, row) else row == []
  }

  ghost function EncodeImage(columns: seq<Column>, row: seq<Value>, present: bool, rest: seq<Byte>): seq<Byte>
    requires ImageFits(columns, row, present)
  {
    if present then EncodeRow(columns, row, rest) else rest
  }

  lemma ImageRoundTrip(columns: seq<Column>, row: seq<Value>, present: bool, rest: seq<Byte>)
    requires ImageFits(columns, row, present)
    ensures ReadImage(EncodeImage(columns, row, present, rest), columns, present) == Ok((row, rest))
    ensures |EncodeImage(columns, row, present, rest)| == |EncodeImage(columns, row, present, [])| + |rest|
    ensures present && columns != [] ==> |EncodeImage(columns, row, present, [])| > 0
  {
    hide ReadRow, EncodeCells;
    if present {
      RowRoundTrip(columns, row, rest);
      EncodeCellsAppends(columns, row, rest);
    }
  }

  /** A row change whose images fit and whose sizes are those of the images. */
  ghost predicate ChangeFits(columns: seq<Column>, change: RowChange, pre: bool, post: bool) {
    && ImageFits(columns, change.pre, pre) && ImageFits(columns, change.post, post)
    && change.preBytes == |EncodeImage(columns, change.pre, pre, [])|
    && change.postBytes == |EncodeImage(columns, change.post, post, [])|
  }

  ghost function EncodeChange(columns: seq<Column>, change: RowChange, pre: bool, post: bool, rest: seq<Byte>): seq<Byte>
    requires ChangeFits(columns, change, pre, post)
  {
    EncodeImage(columns, change.pre, pre, EncodeImage(columns, change.post, post, rest))
  }

  lemma ChangeRoundTrip(columns: seq<Column>, change: RowChange, pre: bool, post: bool, rest: seq<Byte>)
    requires ChangeFits(columns, change, pre, post)
    ensures ReadChange(EncodeChange(columns, change, pre, post, rest), columns, pre, post) == Ok((change, rest))
    ensures (pre || post) && columns != [] ==> |EncodeChange(columns, change, pre, post, rest)| > |rest|
  {
    hide ReadImage, EncodeImage, ImageFits;
    var after := EncodeImage(columns, change.post, post, rest);
    ImageRoundTrip(columns, change.post, post, rest);
    ImageRoundTrip(columns, change.pre, pre, after);
  }

  ghost predicate ChangesFit(columns: seq<Column>, changes: seq<RowChange>, pre: bool, post: bool) {
    forall i :: 0 <= i < |changes| ==> ChangeFits(columns, changes[i], pre, post)
  }

  ghost function EncodeChanges(columns: seq<Column>, changes: seq<RowChange>, pre: bool, post: bool): seq<Byte>
    requires ChangesFit(columns, changes, pre, post)
  {
    if changes == [] then []
    else EncodeChange(columns, changes[0], pre, post, EncodeChanges(columns, changes[1..], pre, post))
  }

  lemma {:induction false} ChangesRoundTrip(columns: seq<Column>, changes: seq<RowChange>, pre: bool, post: bool)
    requires (pre || post) && columns != [] && ChangesFit(columns, changes, pre, post)
    ensures ReadChanges(EncodeChanges(columns, changes, pre, post), columns, pre, post) == Ok(changes)
    decreases |changes|
  {
    hide ReadChange, EncodeChange, ChangeFits;
    if changes != [] {
      var rest := EncodeChanges(columns, changes[1..], pre, post);
      ChangeRoundTrip(columns, changes[0], pre, post, rest);
      ChangesRoundTrip(columns, changes[1..], pre, post);
      assert changes == [changes[0]] + changes[1..];
    }
  }

  // ----- headers

  ghost predicate HeaderFits(h: Header) {
    h.timestamp < U32 && h.serverId < U32 && h.length < U32 && h.endPosition < U32 && h.flags < U16
  }

  function EncodeHeader(h: Header, rest: seq<Byte>): seq<Byte> {
    ToLE(h.timestamp, 4) + ([h.etype] + (ToLE(h.serverId, 4)
    + (ToLE(h.length, 4) + (ToLE(h.endPosition, 4) + (ToLE(h.flags, 2) + rest)))))
  }

  lemma HeaderRoundTrip(h: Header, rest: seq<Byte>)
    requires HeaderFits(h)
    ensures TakeHeader(EncodeHeader(h, rest)) == Ok((h, rest))
  {
    hide TakeLE, ToLE;
    Pow256Values();
    var e5 := ToLE(h.flags, 2) + rest;
    var e4 := ToLE(h.endPosition, 4) + e5;
    var e3 := ToLE(h.length, 4) + e4;
    var e2 := ToLE(h.serverId, 4) + e3;
    var e1 := [h.etype] + e2;
    TakeLEOfToLE(h.timestamp, 4, e1);
    assert e1[1..] == e2;
    TakeLEOfToLE(h.serverId, 4, e3);
    TakeLEOfToLE(h.length, 4, e4);
    TakeLEOfToLE(h.endPosition, 4, e5);
    TakeLEOfToLE(h.flags, 2, rest);
  }

  // ----- table maps

  function EncodeName(name: seq<Byte>, unused: Byte, rest: seq<Byte>): seq<Byte>
    requires |name| < 256
  {
    [|name|] + (name + ([unused] + rest))
  }

  lemma NameRoundTrip(name: seq<Byte>, unused: Byte, rest: seq<Byte>)
    requires |name| < 256
    ensures TakeName(EncodeName(name, unused, rest)) == Ok((name, rest))
  {
    var s := EncodeName(name, unused, rest);
    assert s[1..] == name + ([unused] + rest);
    TakeOfConcat(name, [unused] + rest);
    TakeOfConcat([unused], rest);
  }

  function Types(columns: seq<Column>): seq<Byte> {
    if columns == [] then [] else [columns[0].ctype] + Types(columns[1..])
  }

  function Metas(columns: seq<Column>): seq<Byte> {
    if columns == [] then [] else columns[0].meta + Metas(columns[1..])
  }

  function Nullables(columns: seq<Column>): seq<bool> {
    if columns == [] then [] else [columns[0].nullable] + Nullables(columns[1..])
  }

  lemma {:induction false} BuildRoundTrip(columns: seq<Column>)
    requires ColumnsOk(columns)
    ensures |Types(columns)| == |Nullables(columns)| == |columns|
    ensures BuildColumns(Types(columns), Metas(columns), Nullables(columns)) == Ok(columns)
  {
    if columns != [] {
      MetadataTable(columns[0].ctype);
      hide MetadataBytes, MetadataSize;
      assert ColumnOk(columns[0]);
      assert ColumnsOk(columns[1..]);
      BuildRoundTrip(columns[1..]);
      TakeOfConcat(columns[0].meta, Metas(columns[1..]));
      assert Types(columns)[1..] == Types(columns[1..]);
      assert Nullables(columns)[1..] == Nullables(columns[1..]);
      assert columns == [columns[0]] + columns[1..];
    }
  }

  /** The converse: what is built are columns with exactly those types, that
      metadata and those flags; in particular nothing is left over. */
  lemma {:induction false} BuiltFrom(types: seq<Byte>, metas: seq<Byte>, nullable: seq<bool>)
    requires |types| == |nullable| && BuildColumns(types, metas, nullable).Ok?
    ensures var columns := BuildColumns(types, metas, nullable).value;
            Types(columns) == types && Metas(columns) == metas && Nullables(columns) == nullable
    decreases |types|
  {
    hide MetadataBytes;
    if types != [] {
      var n := MetadataBytes(types[0]).value;
      BuiltFrom(types[1..], metas[n..], nullable[1..]);
      var more := BuildColumns(types[1..], metas[n..], nullable[1..]).value;
      var columns := [Column(types[0], metas[..n], nullable[0])] + more;
      assert BuildColumns(types, metas, nullable) == Ok(columns);
      hide BuildColumns;
      assert columns[1..] == more;
      assert metas == metas[..n] + metas[n..];
      assert types == [types[0]] + types[1..] && nullable == [nullable[0]] + nullable[1..];
    }
  }

  /** Columns are built if and only if the metadata is exactly theirs. */
  lemma BuildIff(types: seq<Byte>, metas: seq<Byte>, nullable: seq<bool>)
    requires |types| == |nullable|
    ensures BuildColumns(types, metas, nullable).Ok? <==>
            exists columns :: ColumnsOk(columns) && Types(columns) == types && Metas(columns) == metas && Nullables(columns) == nullable
  {
    hide BuildColumns, ColumnsOk, Types, Metas, Nullables;
    if BuildColumns(types, metas, nullable).Ok? {
      BuiltFrom(types, metas, nullable);
      BuiltColumnsAreOk(types, metas, nullable);
    }
    if columns :| ColumnsOk(columns) && Types(columns) == types && Metas(columns) == metas && Nullables(columns) == nullable {
      BuildRoundTrip(columns);
    }
  }

  function EncodeColumns(columns: seq<Column>, trailer: seq<Byte>): seq<Byte> {
    EncodeVarint(|columns|) + (Types(columns) + EncodeString(Metas(columns), EncodeBits(Nullables(columns)) + trailer))
  }

  /** Columns a table map can describe. */
  ghost predicate ColumnsFit(columns: seq<Column>) {
    ColumnsOk(columns) && |columns| < U64 && |Metas(columns)| < U64
  }

  lemma ColumnsRoundTrip(columns: seq<Column>, trailer: seq<Byte>)
    requires ColumnsFit(columns)
    ensures TakeColumns(EncodeColumns(columns, trailer)) == Ok(columns)
  {
    hide EncodeVarint, DecodeVarint, EncodeString, DecodeString, Types, Metas, Nullables, EncodeBits, TakeBits, BuildColumns, ColumnsOk;
    BuildRoundTrip(columns);
    var e3 := EncodeBits(Nullables(columns)) + trailer;
    var e2 := EncodeString(Metas(columns), e3);
    VarintRoundTrip(|columns|, Types(columns) + e2);
    TakeOfConcat(Types(columns), e2);
    StringRoundTrip(Metas(columns), e3);
    BitsRoundTrip(Nullables(columns), trailer);
  }

  /** What a table map event can carry. */
  ghost predicate TableMapFits(t: TableMap) {
    && HeaderFits(t.header) && t.header.etype == 19
    && t.tableId < U48 && t.flags < U16
    && |t.info.database| < 256 && |t.info.table| < 256
    && ColumnsFit(t.info.columns)
  }

  /** `trailer` stands for the optional metadata that newer servers append. */
  ghost function EncodeTableMap(t: TableMap, trailer: seq<Byte>): seq<Byte>
    requires TableMapFits(t)
  {
    EncodeHeader(t.header, ToLE(t.tableId, 6) + (ToLE(t.flags, 2)
    + EncodeName(t.info.database, 0, EncodeName(t.info.table, 0, EncodeColumns(t.info.columns, trailer)))))
  }

  lemma TableMapRoundTrip(t: TableMap, trailer: seq<Byte>)
    requires TableMapFits(t)
    ensures ParseTableMap(EncodeTableMap(t, trailer)) == Ok(t)
  {
    hide EncodeHeader, TakeHeader, TakeLE, ToLE, EncodeName, TakeName, EncodeColumns, TakeColumns;
    Pow256Values();
    var e4 := EncodeColumns(t.info.columns, trailer);
    var e3 := EncodeName(t.info.table, 0, e4);
    var e2 := EncodeName(t.info.database, 0, e3);
    var e1 := ToLE(t.flags, 2) + e2;
    HeaderRoundTrip(t.header, ToLE(t.tableId, 6) + e1);
    TakeLEOfToLE(t.tableId, 6, e1);
    TakeLEOfToLE(t.flags, 2, e2);
    NameRoundTrip(t.info.database, 0, e3);
    NameRoundTrip(t.info.table, 0, e4);
    ColumnsRoundTrip(t.info.columns, trailer);
  }

  // ----- rows events

  function AllPresent(n: nat): seq<bool> {
    seq(n, _ => true)
  }

  function EncodePresence(n: nat, masks: nat, rest: seq<Byte>): seq<Byte> {
    if masks == 0 then rest else EncodeBits(AllPresent(n)) + EncodePresence(n, masks - 1, rest)
  }

  lemma {:induction false} PresenceRoundTrip(n: nat, masks: nat, rest: seq<Byte>)
    ensures TakePresence(EncodePresence(n, masks, rest), n, masks) == Ok(((), rest))
    decreases masks
  {
    hide EncodeBits, TakeBits;
    if masks > 0 {
      BitsRoundTrip(AllPresent(n), EncodePresence(n, masks - 1, rest));
      PresenceRoundTrip(n, masks - 1, rest);
    }
  }

  function EncodeExtra(extra: seq<Byte>, v2: bool, rest: seq<Byte>): seq<Byte> {
    if v2 then ToLE(|extra| + 2, 2) + (extra + rest) else rest
  }

  ghost predicate ExtraFits(extra: seq<Byte>, v2: bool) {
    if v2 then |extra| + 2 < U16 else extra == []
  }

  lemma ExtraRoundTrip(extra: seq<Byte>, v2: bool, rest: seq<Byte>)
    requires ExtraFits(extra, v2)
    ensures TakeExtra(EncodeExtra(extra, v2, rest), v2) == Ok((extra, rest))
  {
    if v2 {
      hide TakeLE, ToLE;
      Pow256Values();
      TakeLEOfToLE(|extra| + 2, 2, extra + rest);
      TakeOfConcat(extra, rest);
    }
  }

  /** The event types of the three versions, in the order insert, update,
      delete. */
  function EventCode(version: nat, kind: WriteType): Byte {
    (if version == 0 then 20 else if version == 1 then 23 else 30)
    + (match kind case Insert => 0 case Update => 1 case Delete => 2)
  }

  /** Deletes have an image before, inserts one after, updates both, except
      that version 0 logs only the image after. */
  predicate HasBefore(version: nat, kind: WriteType) {
    kind == Delete || (kind == Update && version > 0)
  }

  predicate HasAfter(kind: WriteType) {
    kind != Delete
  }

  /** The parser accepts exactly the nine codes and reads off the right kind,
      version and images. */
  lemma EventKinds(etype: Byte, kind: WriteType)
    ensures WriteTypeOf(etype) == Ok(kind) <==> exists version :: 0 <= version <= 2 && etype == EventCode(version, kind)
    ensures forall version :: 0 <= version <= 2 && etype == EventCode(version, kind) ==>
              && (IsV2(etype) <==> version == 2) && (HasPreimage(etype) <==> HasBefore(version, kind) && HasAfter(kind))
              && (Pre(etype) <==> HasBefore(version, kind)) && (Post(etype) <==> HasAfter(kind))
  {
    assert EventCode(0, kind) in {20, 21, 22} && EventCode(1, kind) in {23, 24, 25} && EventCode(2, kind) in {30, 31, 32};
  }

  /** What a rows event about a table with columns can carry. */
  ghost predicate RowsEventFits(e: RowsEvent, version: nat) {
    && HeaderFits(e.header) && version <= 2 && e.header.etype == EventCode(version, e.writeType)
    && e.tableId < U48 && e.tableId != 0xFFFFFF && e.flags < U16
    && 0 < |e.info.columns| < U64
    && ExtraFits(e.extra, version == 2)
    && ChangesFit(e.info.columns, e.rows, HasBefore(version, e.writeType), HasAfter(e.writeType))
  }

  /** One presence mask for each image that a row has. */
  ghost function EncodeRowsEvent(e: RowsEvent, version: nat): seq<Byte>
    requires RowsEventFits(e, version)
  {
    var n := |e.info.columns|;
    var before, after := HasBefore(version, e.writeType), HasAfter(e.writeType);
    EncodeHeader(e.header, ToLE(e.tableId, 6) + (ToLE(e.flags, 2) + EncodeExtra(e.extra, version == 2,
      EncodeVarint(n) + EncodePresence(n, if before && after then 2 else 1, EncodeChanges(e.info.columns, e.rows, before, after)))))
  }

  /** A rows event about a mapped table is read back, whatever its version,
      with its images, and their sizes, in order. */
  lemma RowsEventRoundTrip(tables: map<nat, TableInfo>, e: RowsEvent, version: nat)
    requires RowsEventFits(e, version) && e.tableId in tables && tables[e.tableId] == e.info
    ensures ParseRows(tables, EncodeRowsEvent(e, version)) == Ok(e)
  {
    EventKinds(e.header.etype, e.writeType);
    hide EncodeHeader, TakeHeader, TakeLE, ToLE, EncodeExtra, TakeExtra, EncodeVarint, DecodeVarint, EncodePresence, TakePresence,
         EncodeChanges, ReadChanges, ChangesFit, ExtraFits, WriteTypeOf, IsV2, HasPreimage, Pre, Post;
    Pow256Values();
    var n := |e.info.columns|;
    var before, after := HasBefore(version, e.writeType), HasAfter(e.writeType);
    var masks := if before && after then 2 else 1;
    var rows := EncodeChanges(e.info.columns, e.rows, before, after);
    var e4 := EncodePresence(n, masks, rows);
    var e3 := EncodeVarint(n) + e4;
    var e2 := EncodeExtra(e.extra, version == 2, e3);
    var e1 := ToLE(e.flags, 2) + e2;
    HeaderRoundTrip(e.header, ToLE(e.tableId, 6) + e1);
    TakeLEOfToLE(e.tableId, 6, e1);
    TakeLEOfToLE(e.flags, 2, e2);
    ExtraRoundTrip(e.extra, version == 2, e3);
    VarintRoundTrip(n, e4);
    PresenceRoundTrip(n, masks, rows);
    ChangesRoundTrip(e.info.columns, e.rows, before, after);
  }

  // ----- events that are refused

  /** A rows event up to the octets behind its column count. */
  function EncodeRowsHead(h: Header, tableId: nat, flags: nat, extra: seq<Byte>, v2: bool, n: nat, rest: seq<Byte>): seq<Byte> {
    EncodeHeader(h, ToLE(tableId, 6) + (ToLE(flags, 2) + EncodeExtra(extra, v2, EncodeVarint(n) + rest)))
  }

  /** The reserved table id, a table that was never mapped, another number of
      columns and an absent column are refused, each with its own error. */
  lemma HeadDecides(
      tables: map<nat, TableInfo>, h: Header, version: nat, kind: WriteType, tableId: nat, flags: nat, extra: seq<Byte>, n: nat, rest: seq<Byte>)
    requires HeaderFits(h) && version <= 2 && h.etype == EventCode(version, kind)
    requires tableId < U48 && flags < U16 && ExtraFits(extra, version == 2) && n < U64
    ensures var r := ParseRows(tables, EncodeRowsHead(h, tableId, flags, extra, version == 2, n, rest));
            var masks := if HasBefore(version, kind) && HasAfter(kind) then 2 else 1;
            && (tableId == 0xFFFFFF ==> r == Err(TableMapFree))
            && (tableId != 0xFFFFFF && tableId !in tables ==> r == Err(UnknownTable))
            && (tableId != 0xFFFFFF && tableId in tables && n != |tables[tableId].columns| ==> r == Err(ColumnMismatch))
            && (tableId != 0xFFFFFF && tableId in tables && n == |tables[tableId].columns| && masks * Octets(n) <= |rest| ==>
                  (!AllMarked(rest, n, masks) ==> r == Err(ColumnAbsent)))
  {
    EventKinds(h.etype, kind);
    hide EncodeHeader, TakeHeader, TakeLE, ToLE, EncodeExtra, TakeExtra, EncodeVarint, DecodeVarint, TakePresence,
         ReadChanges, ExtraFits, WriteTypeOf, IsV2, HasPreimage, Pre, Post, AllMarked, Octets;
    Pow256Values();
    var e3 := EncodeVarint(n) + rest;
    var e2 := EncodeExtra(extra, version == 2, e3);
    var e1 := ToLE(flags, 2) + e2;
    HeaderRoundTrip(h, ToLE(tableId, 6) + e1);
    TakeLEOfToLE(tableId, 6, e1);
    TakeLEOfToLE(flags, 2, e2);
    ExtraRoundTrip(extra, version == 2, e3);
    VarintRoundTrip(n, rest);
    PresenceIff(rest, n, if HasBefore(version, kind) && HasAfter(kind) then 2 else 1);
  }

  /** An event of another type is refused by either parser, whatever it says. */
  lemma WrongTypeIsRefused(tables: map<nat, TableInfo>, h: Header, body: seq<Byte>)
    requires HeaderFits(h)
    ensures h.etype != 19 ==> ParseTableMap(EncodeHeader(h, body)) == Err(WrongEventType)
    ensures h.etype !in {20, 21, 22, 23, 24, 25, 30, 31, 32} ==> ParseRows(tables, EncodeHeader(h, body)) == Err(WrongEventType)
  {
    hide EncodeHeader, TakeHeader, TakeLE, TakeName, TakeColumns;
    HeaderRoundTrip(h, body);
  }

  // ----- a table without columns

  const EMPTY_TABLE := TableInfo([0x64], [0x74], [])

  const EMPTY_MAP := TableMap(Header(0, TABLE_MAP_EVENT, 1, 0, 0, 0), 7, 0, EMPTY_TABLE)

  /** An insert (version 1) into table 7 with the given octets behind its
      presence mask, which is empty. */
  function InsertIntoEmpty(rows: seq<Byte>): seq<Byte> {
    EncodeHeader(Header(0, 23, 1, 0, 0, 0), ToLE(7, 6) + (ToLE(0, 2) + (EncodeVarint(0) + rows)))
  }

  /** A concrete input on which the source never returns: the map of a table
      without columns parses, and one octet behind the mask of an insert into
      that table keeps the loop over the rows turning for ever. */
  lemma EmptyTableDiverges()
    ensures ParseTableMap(EncodeTableMap(EMPTY_MAP, [])) == Ok(EMPTY_MAP)
    ensures var tables := map[EMPTY_MAP.tableId := EMPTY_TABLE];
            && TakeRowsHead(tables, InsertIntoEmpty([0x2A])).Ok?
            && TakeRowsHead(tables, InsertIntoEmpty([0x2A])).value.1 == [0x2A]
            && ParseRows(tables, InsertIntoEmpty([0x2A])) == Err(Diverges)
    ensures forall n: nat :: Turns(Turning([0x2A], []), [], false, true, n).Turning?
  {
    TableMapRoundTrip(EMPTY_MAP, []);
    EmptyHead([0x2A]);
    LoopEndsIff([0x2A], [], false, true);
  }

  lemma EmptyHead(rows: seq<Byte>)
    ensures var head := TakeRowsHead(map[7 := EMPTY_TABLE], InsertIntoEmpty(rows));
            head.Ok? && head.value.1 == rows && head.value.0.info == EMPTY_TABLE && head.value.0.header.etype == 23
  {
    hide EncodeHeader, TakeHeader, TakeLE, ToLE, EncodeVarint, DecodeVarint, TakePresence, EncodePresence;
    Pow256Values();
    var h := Header(0, 23, 1, 0, 0, 0);
    var e2 := EncodeVarint(0) + rows;
    var e1 := ToLE(0, 2) + e2;
    HeaderRoundTrip(h, ToLE(7, 6) + e1);
    TakeLEOfToLE(7, 6, e1);
    TakeLEOfToLE(0, 2, e2);
    VarintRoundTrip(0, rows);
    PresenceRoundTrip(0, 1, rows);
    NoMask(rows);
  }

  lemma NoMask(rest: seq<Byte>)
    ensures EncodePresence(0, 1, rest) == rest
  {
    assert EncodeBits(AllPresent(0)) == [];
  }
}

/**
 * Values as a server sends them, laid out the way the reader expects each column type, and what
 * the client shows for them. Some of them, like intervals, the client reads but never writes.
 */
module ServerValues {
  import opened Bytes
  import opened Wire
  import opened Repeat
  import opened Decimal
  import opened Values
  import opened ValueLaws
  import opened Payload
  import PayloadLaws
  import ModifiedUtf8
  import TwosComplement
  import Interval
  import IntervalLaws

  datatype Cell =
    | Nothing
    | Untyped
    | Chars(s: string)
    | Whole(n: int)
    | Floating(bits: int)
    | Truth(b: bool)
    | Exactly(unscaled: int, scale: int)
    | Day(seconds: int)
    | Clock(seconds: int, nanos: int, zone: int)
    | Moment(seconds: int, nanos: int, zone: int)
    | Octets(bytes: seq<byte>)
    | BitString(count: nat, bytes: seq<byte>)
    | MonthCount(n: int)
    | Span(seconds: int, nanos: int)
    | Object(id: int)
    | Elements(cells: seq<Cell>)

  // ----- the layout

  /** The bytes after the null flag of a value that is not an array. */
  function EncPlain(t: ColumnType, x: Cell): seq<byte> {
    match (KindOf(t.code), x)
    case (Text, Chars(s)) => EncString(s)
    case (Integer(k), Whole(n)) => BigEndian(n, k)
    case (Float, Floating(bits)) => BigEndian(bits, 8)
    case (Boolean, Truth(b)) => [if b then 1 else 0]
    case (Exact, Exactly(u, scale)) => EncDecimal(u, scale)
    case (Date, Day(s)) => BigEndian(s, 8)
    case (TimeOfDay(zoned), Clock(s, n, zone)) => BigEndian(s, 4) + (BigEndian(n, 4) + EncZone(zoned, zone))
    case (Stamp(zoned), Moment(s, n, zone)) => BigEndian(s, 8) + (BigEndian(n, 4) + EncZone(zoned, zone))
    case (Binary, Octets(b)) => EncBytes(b)
    case (Bits, BitString(n, b)) => BigEndian(n, 4) + b
    case (Months(_), MonthCount(n)) => BigEndian(n, 8)
    case (Seconds(_), Span(s, n)) => BigEndian(s, 8) + BigEndian(n, 4)
    case (Large(_), Object(id)) => BigEndian(id, 8)
    case _ => []
  }

  function EncCell(t: ColumnType, x: Cell): seq<byte>
    decreases x
  {
    match x
    case Nothing => [0]
    case Elements(cells) => [1] + (BigEndian(|cells|, 4) + EncCells(ElemType(t.base), cells))
    case _ => [1] + EncPlain(t, x)
  }

  function EncCells(t: ColumnType, cells: seq<Cell>): seq<byte>
    decreases cells
  {
    if cells == [] then [] else EncCell(t, cells[0]) + EncCells(t, cells[1..])
  }

  // ----- what fits the layout

  predicate PlainFits(t: ColumnType, x: Cell) {
    match (KindOf(t.code), x)
    case (AllTypes, Untyped) => true
    case (Text, Chars(s)) => |ModifiedUtf8.Encode(s)| < INT32_LIMIT
    case (Integer(k), Whole(n)) => Fits(n, k)
    case (Float, Floating(bits)) => Fits(bits, 8)
    case (Boolean, Truth(_)) => true
    case (Exact, Exactly(u, scale)) => |TwosComplement.Encode(u)| < INT32_LIMIT && Fits(scale, 4)
    case (Date, Day(s)) => Fits(s, 8)
    case (TimeOfDay(zoned), Clock(s, n, zone)) => Fits(s, 4) && Fits(n, 4) && ZoneKept(zoned, zone)
    case (Stamp(zoned), Moment(s, n, zone)) => Fits(s, 8) && Fits(n, 4) && ZoneKept(zoned, zone)
    case (Binary, Octets(b)) => |b| < INT32_LIMIT
    case (Bits, BitString(n, b)) => n < INT32_LIMIT && |b| == (n + 7) / 8
    case (Months(_), MonthCount(n)) => Fits(n, 8)
    case (Seconds(_), Span(s, n)) => Fits(s, 8) && Fits(n, 4)
    case (Large(_), Object(id)) => Fits(id, 8)
    case _ => false
  }

  /** A value of the column type; the elements of an array are of its base code. */
  predicate CellFits(t: ColumnType, x: Cell)
    decreases x
  {
    match x
    case Nothing => true
    case Elements(cells) => t.code == SQL_ARRAY && |cells| < INT32_LIMIT && CellsFit(ElemType(t.base), cells)
    case _ => PlainFits(t, x)
  }

  predicate CellsFit(t: ColumnType, cells: seq<Cell>)
    decreases cells
  {
    cells != [] ==> CellFits(t, cells[0]) && CellsFit(t, cells[1..])
  }

  // ----- what the client shows

  function PlainShown(t: ColumnType, x: Cell): Value {
    match (KindOf(t.code), x)
    case (Text, Chars(s)) => Str(s)
    case (Integer(_), Whole(n)) => Int(n)
    case (Float, Floating(bits)) => Double(bits)
    case (Boolean, Truth(b)) => Bool(b)
    case (Exact, Exactly(u, scale)) => Str(Format(u, scale))
    case (Date, Day(s)) => Time(s, 0, 0)
    case (TimeOfDay(_), Clock(s, n, zone)) => UnixTime(s - zone, n, zone)
    case (Stamp(_), Moment(s, n, zone)) => UnixTime(s, n, zone)
    case (Binary, Octets(b)) => Raw(b)
    case (Bits, BitString(_, b)) => Raw(b)
    case (Months(form), MonthCount(n)) => Str(Interval.FormatMonths(form, n))
    case (Seconds(form), Span(s, n)) => Str(Interval.FormatSeconds(form, s, n))
    case (Large(isClob), Object(id)) => Lob(id, isClob)
    case _ => Null
  }

  function Shown(t: ColumnType, x: Cell): Value
    decreases x
  {
    match x
    case Nothing => Null
    case Elements(cells) => Arr(ShownAll(ElemType(t.base), cells), t.base)
    case _ => PlainShown(t, x)
  }

  function ShownAll(t: ColumnType, cells: seq<Cell>): (vs: seq<Value>)
    ensures |vs| == |cells|
    decreases cells
  {
    if cells == [] then [] else [Shown(t, cells[0])] + ShownAll(t, cells[1..])
  }

  // ----- every value is recovered, and every cut noticed

  lemma PlainReads(c: Cursor, t: ColumnType, x: Cell)
    requires PlainFits(t, x) && t.code != SQL_ARRAY && c.err.None?
    ensures ReadsAs(c, EncPlain(t, x), ReadScalar(c, t), PlainShown(t, x))
  {
    hide EncString, EncDecimal, EncBytes, BigEndian, EncZone, ReadFixed, ReadBytes, ReadString, ReadDecimal, ReadU8,
         ReadZone, ReadBits, Wrap, Fits, ModifiedUtf8.Encode, TwosComplement.Encode, Format, KindOf,
         Interval.FormatMonths, Interval.FormatSeconds, UnixTime;
    match (KindOf(t.code), x) {
      case (AllTypes, _) => assert !Cut(c, []);
      case (Text, Chars(s)) => StringCodec(c, s);
      case (Integer(k), Whole(n)) => FixedCodec(c, n, k);
      case (Float, Floating(bits)) => FixedCodec(c, bits, 8);
      case (Boolean, Truth(b)) => U8Codec(c, if b then 1 else 0);
      case (Exact, Exactly(u, scale)) => DecimalCodec(c, u, scale);
      case (Date, Day(s)) => FixedCodec(c, s, 8);
      case (TimeOfDay(zoned), Clock(s, n, zone)) =>
        TimeCodec(c, s, 4, n, zoned, zone);
        TimeInRange(s, 4, n, zoned, zone);
      case (Stamp(zoned), Moment(s, n, zone)) =>
        TimeCodec(c, s, 8, n, zoned, zone);
        TimeInRange(s, 8, n, zoned, zone);
      case (Binary, Octets(b)) => BytesCodec(c, b);
      case (Bits, BitString(n, b)) => BitsCodec(c, n, b);
      case (Months(_), MonthCount(n)) => FixedCodec(c, n, 8);
      case (Seconds(_), Span(s, n)) =>
        FixedReads(c, s, 8);
        FixedReads(ReadFixed(c, 8).1, n, 4);
        ThenRecovered(c, BigEndian(s, 8), s, ReadFixed(c, 8), BigEndian(n, 4), n, ReadFixed(ReadFixed(c, 8).1, 4));
      case (Large(_), Object(id)) => FixedCodec(c, id, 8);
      case _ =>
    }
  }

  lemma TimeInRange(s: int, k: nat, n: int, zoned: bool, zone: int)
    requires Fits(s, k) && Fits(n, 4) && ZoneKept(zoned, zone)
    ensures Wrap(s, k) == s && Wrap(n, 4) == n && ZoneBack(zoned, zone) == zone
  {
    hide Fits, Wrap;
    WrapFits(s, k);
    WrapFits(n, 4);
    if zoned {
      WrapFits(zone, 4);
    }
  }

  /** Whatever a server sends for a column is shown as it should be, and no cut goes unnoticed. */
  lemma {:induction false} CellReads(c: Cursor, t: ColumnType, x: Cell)
    requires CellFits(t, x)
    ensures ReadsAs(c, EncCell(t, x), ReadValue(c, t), Shown(t, x))
    decreases x, 0
  {
    hide EncPlain, PlainFits, PlainShown, ReadValue, EncCells, CellsFit, ShownAll, ReadsAs;
    match x {
      case Nothing => NothingReads(c, t);
      case Elements(cells) =>
        if c.err.None? && c.pos < |c.buf| {
          ElementsRead(Skip(c, 1), t, cells);
        }
        ArrayReads(c, t, cells);
      case _ => PresentReads(c, t, x);
    }
  }

  lemma NothingReads(c: Cursor, t: ColumnType)
    ensures ReadsAs(c, [0], ReadValue(c, t), Null)
  {
    hide ReadU8;
    U8Codec(c, 0);
  }

  lemma ReadValueScalar(c: Cursor, t: ColumnType)
    requires t.code != SQL_ARRAY
    ensures ReadValue(c, t) == if ReadU8(c).0 == 0 then (Null, ReadU8(c).1) else ReadScalar(ReadU8(c).1, t)
  {
    hide ReadU8, ReadScalar;
  }

  lemma PresentReads(c: Cursor, t: ColumnType, x: Cell)
    requires PlainFits(t, x)
    ensures ReadsAs(c, [1] + EncPlain(t, x), ReadValue(c, t), PlainShown(t, x))
  {
    assert t.code != SQL_ARRAY;
    hide EncPlain, PlainFits, PlainShown, ReadValue, ReadScalar, ReadU8;
    ReadValueScalar(c, t);
    FlagThen(c, EncPlain(t, x));
    if c.err.None? && c.pos < |c.buf| {
      PlainReads(Skip(c, 1), t, x);
    }
  }

  /** What is promised of the count of an array and its elements. */
  ghost predicate ElementsBack(c: Cursor, t: ColumnType, cells: seq<Cell>) {
    var bs := BigEndian(|cells|, 4) + EncCells(ElemType(t.base), cells);
    var (n, e) := ReadFixed(c, 4);
    && (At(c, bs) ==>
          && c.pos + |bs| <= |c.buf| && e.err.None? && n == |cells|
          && ReadElems(e, ElemType(t.base), n) == (ShownAll(ElemType(t.base), cells), Skip(c, |bs|)))
    && (Cut(c, bs) ==> e.err.Some? || (n == |cells| && ReadElems(e, ElemType(t.base), n).1.err.Some?))
  }

  lemma ArrayReads(c: Cursor, t: ColumnType, cells: seq<Cell>)
    requires t.code == SQL_ARRAY
    requires c.err.None? && c.pos < |c.buf| ==> ElementsBack(Skip(c, 1), t, cells)
    ensures ReadsAs(c, [1] + (BigEndian(|cells|, 4) + EncCells(ElemType(t.base), cells)), ReadValue(c, t),
                    Arr(ShownAll(ElemType(t.base), cells), t.base))
  {
    hide BigEndian, ReadFixed, ReadU8, EncCells, ShownAll, ReadElems, ReadScalar;
    FlagThen(c, BigEndian(|cells|, 4) + EncCells(ElemType(t.base), cells));
  }

  lemma {:induction false} ElementsRead(c: Cursor, t: ColumnType, cells: seq<Cell>)
    requires |cells| < INT32_LIMIT && CellsFit(ElemType(t.base), cells)
    ensures ElementsBack(c, t, cells)
    decreases cells, 1
  {
    hide BigEndian, ReadFixed, Wrap, ReadElems, EncCells, CellsFit, ShownAll;
    var len, elems := BigEndian(|cells|, 4), EncCells(ElemType(t.base), cells);
    Int32Range(|cells|);
    FixedCodec(c, |cells|, 4);
    if At(c, len + elems) {
      AtSplit(c, len, elems);
      CellsRead(Skip(c, 4), ElemType(t.base), cells);
    }
    if Cut(c, len + elems) {
      CutSplit(c, len, elems);
      if !Cut(c, len) {
        CellsRead(Skip(c, 4), ElemType(t.base), cells);
      }
    }
  }

  lemma {:induction false} CellsRead(c: Cursor, t: ColumnType, cells: seq<Cell>)
    requires CellsFit(t, cells)
    ensures ReadsAs(c, EncCells(t, cells), ReadElems(c, t, |cells|), ShownAll(t, cells))
    decreases cells, 0
  {
    hide EncCell, ReadValue, Shown, CellFits;
    if cells == [] {
      assert !Cut(c, []);
    } else {
      var a, b := EncCell(t, cells[0]), EncCells(t, cells[1..]);
      CellReads(c, t, cells[0]);
      var (v, d) := ReadValue(c, t);
      CellsRead(d, t, cells[1..]);
      if At(c, a + b) {
        AtSplit(c, a, b);
      }
      if Cut(c, a + b) {
        CutSplit(c, a, b);
      }
    }
  }

  // ----- rows

  function EncCellRow(ts: seq<ColumnType>, xs: seq<Cell>): seq<byte>
    requires |ts| == |xs|
  {
    if xs == [] then [] else EncCell(ts[0], xs[0]) + EncCellRow(ts[1..], xs[1..])
  }

  predicate RowFits(ts: seq<ColumnType>, xs: seq<Cell>)
    requires |ts| == |xs|
  {
    forall i | 0 <= i < |xs| :: CellFits(ts[i], xs[i])
  }

  function ShownRow(ts: seq<ColumnType>, xs: seq<Cell>): (r: seq<Value>)
    requires |ts| == |xs|
    ensures |r| == |xs|
  {
    seq(|xs|, i requires 0 <= i < |xs| => Shown(ts[i], xs[i]))
  }

  lemma {:induction false} CellRowReads(c: Cursor, ts: seq<ColumnType>, xs: seq<Cell>)
    requires |ts| == |xs| && RowFits(ts, xs)
    ensures ReadsAs(c, EncCellRow(ts, xs), ReadRow(c, ts), ShownRow(ts, xs))
    decreases |xs|
  {
    hide EncCell, ReadValue, Shown, CellFits;
    if xs == [] {
      assert !Cut(c, []);
    } else {
      CellReads(c, ts[0], xs[0]);
      var (v, d) := ReadValue(c, ts[0]);
      CellRowReads(d, ts[1..], xs[1..]);
      var a, b := EncCell(ts[0], xs[0]), EncCellRow(ts[1..], xs[1..]);
      var x, rest := Shown(ts[0], xs[0]), ShownRow(ts[1..], xs[1..]);
      ThenRecovered(c, a, x, (v, d), b, rest, ReadRow(d, ts[1..]));
      assert ShownRow(ts, xs) == [x] + rest;
    }
  }

  /** Every row has one value per type, hidden columns included. */
  predicate RowsFit(ts: seq<ColumnType>, rows: seq<seq<Cell>>) {
    forall xs | xs in rows :: |xs| == |ts| && RowFits(ts, xs)
  }

  function EncCellRows(ts: seq<ColumnType>, rows: seq<seq<Cell>>): seq<byte>
    requires forall xs | xs in rows :: |xs| == |ts|
  {
    if rows == [] then [] else EncCellRow(ts, rows[0]) + EncCellRows(ts, rows[1..])
  }

  function ShownRows(ts: seq<ColumnType>, rows: seq<seq<Cell>>): (r: seq<seq<Value>>)
    requires forall xs | xs in rows :: |xs| == |ts|
    ensures |r| == |rows|
  {
    seq(|rows|, i requires 0 <= i < |rows| => ShownRow(ts, rows[i]))
  }

  lemma {:induction false} CellRowsRead(c: Cursor, ts: seq<ColumnType>, rows: seq<seq<Cell>>)
    requires RowsFit(ts, rows)
    ensures ReadsAs(c, EncCellRows(ts, rows), ReadRows(c, ts, |rows|), ShownRows(ts, rows))
    decreases |rows|
  {
    hide EncCellRow, ReadRow, ShownRow, RowFits, ReadsAs;
    if rows == [] {
      PayloadLaws.NothingLeft(c);
    } else {
      assert rows[0] in rows && forall xs | xs in rows[1..] :: xs in rows;
      var d := ReadRow(c, ts).1;
      CellRowReads(c, ts, rows[0]);
      CellRowsRead(d, ts, rows[1..]);
      ThenRecovered(c, EncCellRow(ts, rows[0]), ShownRow(ts, rows[0]), ReadRow(c, ts),
                    EncCellRows(ts, rows[1..]), ShownRows(ts, rows[1..]), ReadRows(d, ts, |rows| - 1));
      var a, b := EncCellRow(ts, rows[0]), EncCellRows(ts, rows[1..]);
      var x, rest := ShownRow(ts, rows[0]), ShownRows(ts, rows[1..]);
      ReadRowsStep(c, ts, |rows|);
      ListRecovered(c, a + b, x, rest, ((ReadRow(c, ts).0, ReadRows(d, ts, |rows| - 1).0), ReadRows(d, ts, |rows| - 1).1),
                    ReadRows(c, ts, |rows|));
      assert ShownRows(ts, rows) == [x] + rest;
    }
  }

  // ----- intervals, from the wire to a reader of the text

  /** A YEAR/MONTH interval arrives as a text that reads as its months exactly when they are not the least int64. */
  lemma MonthsArrive(c: Cursor, t: ColumnType, form: Interval.MonthForm, n: int)
    requires KindOf(t.code) == Months(form) && Fits(n, 8)
    requires At(c, EncCell(t, MonthCount(n)))
    ensures ReadValue(c, t).0.Str?
    ensures n != IntervalLaws.LEAST
       <==> IntervalLaws.ReadMonths(form, ReadValue(c, t).0.s)
            == Some(if form == Interval.Year then Interval.Quot(n, 12) * 12 else n)
  {
    PowValues();
    hide ReadValue, EncCell, IntervalLaws.ReadMonths, Interval.FormatMonths, KindOf;
    CellReads(c, t, MonthCount(n));
    IntervalLaws.MonthsBackIff(form, n);
  }

  /** The same for a DAY/SECOND interval of one sign: its value to the last field. */
  lemma SecondsArrive(c: Cursor, t: ColumnType, form: Interval.SecondForm, s: int, n: int)
    requires KindOf(t.code) == Seconds(form) && Fits(s, 8)
    requires -Interval.NANOS < n < Interval.NANOS && ((s >= 0 && n >= 0) || (s <= 0 && n <= 0))
    requires At(c, EncCell(t, Span(s, n)))
    ensures ReadValue(c, t).0.Str?
    ensures s != IntervalLaws.LEAST
       <==> IntervalLaws.ReadSeconds(form, ReadValue(c, t).0.s)
            == Some((IntervalLaws.Shown(form, s), if IntervalLaws.ShowsNanos(form) then n else 0))
  {
    PowValues();
    hide ReadValue, EncCell, IntervalLaws.ReadSeconds, Interval.FormatSeconds, KindOf;
    CellReads(c, t, Span(s, n));
    IntervalLaws.SecondsBackIff(form, s, n);
  }
}

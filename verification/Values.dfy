/** internal/proto/types.go: the type-directed codec for column and parameter values. */
module Values {
  import opened Bytes
  import opened Wire
  import opened Decimal
  import Interval

  /** A type code with its array base code (0 when not an array), precision and scale. */
  datatype ColumnType = ColumnType(code: int, base: int, precision: int, scale: int) {
    predicate IsArray() { code == SQL_ARRAY }
  }

  const SQL_ALL_TYPES := 0
  const SQL_INTEGER := 4
  const SQL_VARCHAR := 12
  const SQL_BOOLEAN := 16
  const SQL_ARRAY := 50

  /** The cases the two switches over type codes distinguish. */
  datatype Kind =
    | AllTypes
    | Text
    | Integer(width: nat)
    | Float
    | Boolean
    | Exact
    | Date
    | TimeOfDay(zoned: bool)
    | Stamp(zoned: bool)
    | Binary
    | Bits
    | Months(monthForm: Interval.MonthForm)
    | Seconds(secondForm: Interval.SecondForm)
    | Array
    | Large(isClob: bool)
    | Unknown

  function KindOf(code: int): (k: Kind)
    ensures k.Integer? ==> k.width == 2 || k.width == 4 || k.width == 8
  {
    match code
    case 0 => AllTypes
    case 1 => Text case 12 => Text
    case -6 => Integer(2) case 5 => Integer(2)
    case 4 => Integer(4)
    case 25 => Integer(8)
    case 6 => Float case 7 => Float case 8 => Float
    case 16 => Boolean
    case 2 => Exact case 3 => Exact
    case 91 => Date
    case 92 => TimeOfDay(false) case 94 => TimeOfDay(true)
    case 93 => Stamp(false) case 95 => Stamp(true)
    case 60 => Binary case 61 => Binary case -11 => Binary case 1111 => Binary
    case 14 => Bits case 15 => Bits
    case 101 => Months(Interval.Year) case 102 => Months(Interval.Month) case 107 => Months(Interval.YearToMonth)
    case 103 => Seconds(Interval.Day) case 104 => Seconds(Interval.Hour)
    case 105 => Seconds(Interval.Minute) case 106 => Seconds(Interval.Second)
    case 108 => Seconds(Interval.DayToHour) case 109 => Seconds(Interval.DayToMinute)
    case 110 => Seconds(Interval.DayToSecond) case 111 => Seconds(Interval.HourToMinute)
    case 112 => Seconds(Interval.HourToSecond) case 113 => Seconds(Interval.MinuteToSecond)
    case 50 => Array
    case 30 => Large(false) case 40 => Large(true)
    case _ => Unknown
  }

  /**
   * A Go value: the driver's value types, Decimal, ArrayValue and LobRef. A double is its 64-bit
   * pattern read as a signed number. A time is seconds since the epoch, nanoseconds and the
   * offset of its zone.
   */
  datatype Value =
    | Null
    | Int(i: int)
    | Double(bits: int)
    | Bool(b: bool)
    | Str(s: string)
    | Raw(bytes: seq<byte>)
    | Time(unix: int, nanos: int, zone: int)
    | Number(dec: Dec)
    | Arr(values: seq<Value>, elemCode: int)
    | Lob(id: int, isClob: bool)

  /** Go library calls the coercions make on values that do not match their column type. */
  datatype Library = Library(
    sprint: Value -> string,
    truncateDouble: int -> int,
    doubleOf: int -> int,
    textOf: seq<byte> -> string,
    utf8Of: string -> seq<byte>)

  const DAY := 86400
  const YEAR_ONE := Time(-62135596800, 0, 0)

  function ElemType(base: int): ColumnType {
    ColumnType(base, 0, 0, 0)
  }

  /** How deep array types nest: the base type of a base type is never recorded. */
  function Rank(t: ColumnType): nat {
    if t.code != SQL_ARRAY then 0 else if t.base != SQL_ARRAY then 1 else 2
  }

  // ----- coercions

  function AsString(lib: Library, v: Value): string {
    match v
    case Str(s) => s
    case Raw(b) => lib.textOf(b)
    case _ => lib.sprint(v)
  }

  function AsInt64(lib: Library, v: Value): int {
    match v
    case Int(i) => i
    case Bool(b) => if b then 1 else 0
    case Double(bits) => lib.truncateDouble(bits)
    case _ => 0
  }

  function AsFloat64(lib: Library, v: Value): int {
    match v
    case Double(bits) => bits
    case Int(i) => lib.doubleOf(i)
    case _ => 0
  }

  function AsBool(v: Value): bool {
    match v
    case Bool(b) => b
    case Int(i) => i != 0
    case _ => false
  }

  function AsBytes(lib: Library, v: Value): seq<byte> {
    match v
    case Raw(b) => b
    case Str(s) => lib.utf8Of(s)
    case _ => []
  }

  function AsTime(v: Value): (t: Value)
    ensures t.Time?
  {
    if v.Time? then v else YEAR_ONE
  }

  function AsDecimal(lib: Library, v: Value, scale: int): Option<Dec> {
    match v
    case Number(d) => Some(d)
    case Str(s) => Parse(s, scale)
    case Raw(b) => Parse(lib.textOf(b), scale)
    case Int(i) => Some(Dec(ScaleUnscaled(i, scale), scale))
    case Double(_) => Parse(lib.sprint(v), scale)
    case _ => None
  }

  /** Midnight of the calendar day a time shows in its own zone, as if that day were in UTC. */
  function DateSeconds(t: Value): int
    requires t.Time?
  {
    (t.unix + t.zone) / DAY * DAY
  }

  function TimeOfDaySeconds(t: Value): int
    requires t.Time?
  {
    (t.unix + t.zone) % DAY
  }

  // ----- writing

  /** The bytes written, and whether the write ended without an error. */
  datatype Written = Written(bytes: seq<byte>, ok: bool)

  function EncScalar(lib: Library, t: ColumnType, v: Value): Written
    requires t.code != SQL_ARRAY
  {
    match KindOf(t.code)
    case AllTypes => Written([], true)
    case Text => Written(EncString(AsString(lib, v)), true)
    case Integer(k) => Written(BigEndian(AsInt64(lib, v), k), true)
    case Float => Written(BigEndian(AsFloat64(lib, v), 8), true)
    case Boolean => Written([if AsBool(v) then 1 else 0], true)
    case Exact =>
      (match AsDecimal(lib, v, t.scale)
       case None => Written([], false)
       case Some(d) => Written(EncDecimal(d.unscaled, d.scale), true))
    case Date => Written(BigEndian(DateSeconds(AsTime(v)), 8), true)
    case TimeOfDay(zoned) =>
      var x := AsTime(v);
      Written(BigEndian(TimeOfDaySeconds(x), 4) + (BigEndian(x.nanos, 4) + EncZone(zoned, x.zone)), true)
    case Stamp(zoned) =>
      var x := AsTime(v);
      Written(BigEndian(x.unix, 8) + (BigEndian(x.nanos, 4) + EncZone(zoned, x.zone)), true)
    case Binary => Written(EncBytes(AsBytes(lib, v)), true)
    case Bits =>
      var b := AsBytes(lib, v);
      Written(BigEndian(|b| * 8, 4) + b, true)
    case Large(_) => if v.Lob? then Written(BigEndian(v.id, 8), true) else Written([], false)
    case _ => Written([], false)
  }

  function EncZone(zoned: bool, zone: int): seq<byte> {
    if zoned then BigEndian(zone, 4) else []
  }

  /** WriteValue: the null flag, then the bytes of the type. */
  function EncValue(lib: Library, t: ColumnType, v: Value): Written
    decreases Rank(t), 1, 0
  {
    if v.Null? then Written([0], true)
    else if t.code == SQL_ARRAY then
      if !v.Arr? then Written([1], false)
      else
        var w := EncElems(lib, ElemType(t.base), v.values);
        Written([1] + (BigEndian(|v.values|, 4) + w.bytes), w.ok)
    else
      var w := EncScalar(lib, t, v);
      Written([1] + w.bytes, w.ok)
  }

  /** The elements of an array, up to and including the first that fails. */
  function EncElems(lib: Library, t: ColumnType, vs: seq<Value>): Written
    decreases Rank(t), 2, |vs|
  {
    if vs == [] then Written([], true)
    else
      var w := EncValue(lib, t, vs[0]);
      if !w.ok then w
      else
        var rest := EncElems(lib, t, vs[1..]);
        Written(w.bytes + rest.bytes, rest.ok)
  }

  // ----- reading

  /** time.Unix: nanoseconds beyond a second carry over. */
  function UnixTime(sec: int, nanos: int, zone: int): (t: Value)
    ensures t.Time?
  {
    Time(sec + nanos / Interval.NANOS, nanos % Interval.NANOS, zone)
  }

  function ReadZone(c: Cursor, zoned: bool): (r: (int, Cursor))
    ensures Follows(c, r.1)
  {
    if zoned then ReadFixed(c, 4) else (0, c)
  }

  function ReadBits(c: Cursor): (r: (Value, Cursor))
    ensures Follows(c, r.1)
  {
    var (bits, d) := ReadFixed(c, 4);
    var n := Interval.Quot(bits + 7, 8);
    if d.err.Some? || n < 0 then (Null, d)
    else
      match Take(d, n)
      case (None, e) => (Null, e)
      case (Some(b), e) => (Raw(b), e)
  }

  function ReadScalar(c: Cursor, t: ColumnType): (r: (Value, Cursor))
    requires t.code != SQL_ARRAY
    ensures c.err.None? ==> r.1.buf == c.buf && c.pos <= r.1.pos
    ensures c.err.Some? && KindOf(t.code) != Unknown ==> r.1 == c
  {
    match KindOf(t.code)
    case AllTypes => (Null, c)
    case Text => var (s, d) := ReadString(c); (Str(s), d)
    case Integer(k) => var (i, d) := ReadFixed(c, k); (Int(i), d)
    case Float => var (i, d) := ReadFixed(c, 8); (Double(i), d)
    case Boolean => var (b, d) := ReadU8(c); (Bool(b != 0), d)
    case Exact => var (u, scale, d) := ReadDecimal(c); (Str(Format(u, scale)), d)
    case Date => var (sec, d) := ReadFixed(c, 8); (Time(sec, 0, 0), d)
    case TimeOfDay(zoned) =>
      var (sec, d) := ReadFixed(c, 4);
      var (nanos, e) := ReadFixed(d, 4);
      var (zone, f) := ReadZone(e, zoned);
      (UnixTime(sec - zone, nanos, zone), f)
    case Stamp(zoned) =>
      var (sec, d) := ReadFixed(c, 8);
      var (nanos, e) := ReadFixed(d, 4);
      var (zone, f) := ReadZone(e, zoned);
      (UnixTime(sec, nanos, zone), f)
    case Binary => var (b, d) := ReadBytes(c); (Raw(b), d)
    case Bits => ReadBits(c)
    case Months(form) => var (m, d) := ReadFixed(c, 8); (Str(Interval.FormatMonths(form, m)), d)
    case Seconds(form) =>
      var (s, d) := ReadFixed(c, 8);
      var (n, e) := ReadFixed(d, 4);
      (Str(Interval.FormatSeconds(form, s, n)), e)
    case Large(isClob) => var (id, d) := ReadFixed(c, 8); (Lob(id, isClob), d)
    case Array => (Null, c)
    case Unknown => (Null, c.(err := Some(BadTypeCode(t.code))))
  }

  /** ReadValue. */
  function ReadValue(c: Cursor, t: ColumnType): (r: (Value, Cursor))
    ensures Follows(c, r.1)
    decreases Rank(t), 1, 0
  {
    var (flag, d) := ReadU8(c);
    if flag == 0 then (Null, d)
    else if t.code == SQL_ARRAY then
      var (n, e) := ReadFixed(d, 4);
      if e.err.Some? || n < 0 then (Arr([], 0), e)
      else
        var (vs, f) := ReadElems(e, ElemType(t.base), n);
        (Arr(vs, t.base), f)
    else ReadScalar(d, t)
  }

  function Nulls(n: nat): (vs: seq<Value>)
    ensures |vs| == n
  {
    seq(n, i => Null)
  }

  /** The loop of readArray: it stops at the first error and leaves the rest NULL. */
  function ReadElems(c: Cursor, t: ColumnType, n: nat): (r: (seq<Value>, Cursor))
    ensures |r.0| == n && Follows(c, r.1)
    decreases Rank(t), 2, n
  {
    if n == 0 then ([], c)
    else
      var (v, d) := ReadValue(c, t);
      if d.err.Some? then ([v] + Nulls(n - 1), d)
      else
        var (vs, e) := ReadElems(d, t, n - 1);
        ([v] + vs, e)
  }
}

/**
 * internal/proto/const.go and types.go, code by code: the bytes of a value of each column type and
 * what they are read as. The codes are numbers here, so that nothing depends on how the model
 * groups them.
 */
module TypeCodes {
  import opened Bytes
  import opened Wire
  import opened Decimal
  import opened Values
  import opened ServerValues
  import ValueLaws
  import ModifiedUtf8
  import TwosComplement
  import Interval

  /** The value is written as the flag of a value that is present, and these bytes. */
  predicate Writes(lib: Library, t: ColumnType, v: Value, bytes: seq<byte>) {
    EncValue(lib, t, v) == Written([1] + bytes, true)
  }

  /** Writing fails, with only the flag written. */
  predicate Refused(lib: Library, t: ColumnType, v: Value) {
    EncValue(lib, t, v) == Written([1], false)
  }

  /** The cursor is at a flag other than 0 and these bytes. */
  ghost predicate AtPresent(c: Cursor, bytes: seq<byte>) {
    c.err.None? && c.pos < |c.buf| && c.buf[c.pos] != 0 && At(Skip(c, 1), bytes)
  }

  /** A flag and these bytes are read as the value, and nothing beyond them is consumed. */
  predicate ReadsTo(c: Cursor, t: ColumnType, bytes: seq<byte>, v: Value) {
    c.pos + 1 + |bytes| <= |c.buf| && ReadValue(c, t) == (v, Skip(c, 1 + |bytes|))
  }

  /** The bytes of the value, behind any flag but 0. */
  ghost predicate Reads(t: ColumnType, bytes: seq<byte>, v: Value) {
    forall c: Cursor | AtPresent(c, bytes) :: ReadsTo(c, t, bytes, v)
  }

  lemma FlagRead(c: Cursor, t: ColumnType)
    requires c.err.None? && c.pos < |c.buf| && c.buf[c.pos] != 0 && t.code != SQL_ARRAY
    ensures ReadValue(c, t) == ReadScalar(Skip(c, 1), t)
  {
    hide ReadScalar;
  }

  lemma NoArray(t: ColumnType, x: Cell)
    requires PlainFits(t, x)
    ensures t.code != SQL_ARRAY
  {
  }

  lemma PlainReadsAt(c: Cursor, t: ColumnType, x: Cell)
    requires PlainFits(t, x) && AtPresent(c, EncPlain(t, x))
    ensures ReadsTo(c, t, EncPlain(t, x), PlainShown(t, x))
  {
    hide PlainFits, EncPlain, PlainShown, ReadScalar, ReadValue, At, KindOf;
    NoArray(t, x);
    FlagRead(c, t);
    ServerValues.PlainReads(Skip(c, 1), t, x);
  }

  lemma PlainReads(t: ColumnType, x: Cell)
    requires PlainFits(t, x)
    ensures Reads(t, EncPlain(t, x), PlainShown(t, x))
  {
    hide PlainFits, EncPlain, PlainShown, AtPresent, ReadsTo;
    forall c: Cursor | AtPresent(c, EncPlain(t, x))
      ensures ReadsTo(c, t, EncPlain(t, x), PlainShown(t, x))
    {
      PlainReadsAt(c, t, x);
    }
  }

  lemma PlainWrites(lib: Library, t: ColumnType, v: Value)
    requires t.code != SQL_ARRAY && !v.Null?
    ensures var w := EncScalar(lib, t, v); EncValue(lib, t, v) == Written([1] + w.bytes, w.ok)
  {
    hide EncScalar;
  }

  // ----- the layout of each kind

  lemma TextKind(lib: Library, t: ColumnType, s: string)
    requires KindOf(t.code) == Text
    ensures EncScalar(lib, t, Str(s)) == Written(EncString(s), true) && EncPlain(t, Chars(s)) == EncString(s)
    ensures (PlainFits(t, Chars(s)) <==> |ModifiedUtf8.Encode(s)| < INT32_LIMIT) && PlainShown(t, Chars(s)) == Str(s)
  {
    hide KindOf, EncString, ModifiedUtf8.Encode;
  }

  lemma IntegerKind(lib: Library, t: ColumnType, n: int, k: nat)
    requires KindOf(t.code) == Integer(k)
    ensures EncScalar(lib, t, Int(n)) == Written(BigEndian(n, k), true) && EncPlain(t, Whole(n)) == BigEndian(n, k)
    ensures (PlainFits(t, Whole(n)) <==> Fits(n, k)) && PlainShown(t, Whole(n)) == Int(n)
  {
    hide KindOf, BigEndian, Fits;
  }

  lemma FloatKind(lib: Library, t: ColumnType, bits: int)
    requires KindOf(t.code) == Float
    ensures EncScalar(lib, t, Double(bits)) == Written(BigEndian(bits, 8), true)
    ensures EncPlain(t, Floating(bits)) == BigEndian(bits, 8)
    ensures (PlainFits(t, Floating(bits)) <==> Fits(bits, 8)) && PlainShown(t, Floating(bits)) == Double(bits)
  {
    hide KindOf, BigEndian, Fits;
  }

  lemma ExactKind(lib: Library, t: ColumnType, u: int, scale: int)
    requires KindOf(t.code) == Exact
    ensures EncScalar(lib, t, Number(Dec(u, scale))) == Written(EncDecimal(u, scale), true)
    ensures EncPlain(t, Exactly(u, scale)) == EncDecimal(u, scale) && PlainShown(t, Exactly(u, scale)) == Str(Format(u, scale))
    ensures PlainFits(t, Exactly(u, scale)) <==> |TwosComplement.Encode(u)| < INT32_LIMIT && Fits(scale, 4)
  {
    hide KindOf, EncDecimal, Fits, TwosComplement.Encode, Format;
  }

  lemma DateKind(lib: Library, t: ColumnType, x: Value, s: int)
    requires KindOf(t.code) == Date && x.Time?
    ensures EncScalar(lib, t, x) == Written(BigEndian(DateSeconds(x), 8), true) && EncPlain(t, Day(s)) == BigEndian(s, 8)
    ensures (PlainFits(t, Day(s)) <==> Fits(s, 8)) && PlainShown(t, Day(s)) == Time(s, 0, 0)
  {
    hide KindOf, BigEndian, Fits, DateSeconds;
  }

  lemma ClockKind(lib: Library, t: ColumnType, x: Value, s: int, n: int, zone: int, zoned: bool)
    requires KindOf(t.code) == TimeOfDay(zoned) && x.Time?
    ensures EncScalar(lib, t, x)
         == Written(BigEndian(TimeOfDaySeconds(x), 4) + (BigEndian(x.nanos, 4) + EncZone(zoned, x.zone)), true)
    ensures EncPlain(t, Clock(s, n, zone)) == BigEndian(s, 4) + (BigEndian(n, 4) + EncZone(zoned, zone))
    ensures PlainFits(t, Clock(s, n, zone)) <==> Fits(s, 4) && Fits(n, 4) && ValueLaws.ZoneKept(zoned, zone)
    ensures PlainShown(t, Clock(s, n, zone)) == UnixTime(s - zone, n, zone)
  {
    hide KindOf, BigEndian, Fits, TimeOfDaySeconds, EncZone, ValueLaws.ZoneKept, UnixTime;
  }

  lemma StampKind(lib: Library, t: ColumnType, x: Value, s: int, n: int, zone: int, zoned: bool)
    requires KindOf(t.code) == Stamp(zoned) && x.Time?
    ensures EncScalar(lib, t, x) == Written(BigEndian(x.unix, 8) + (BigEndian(x.nanos, 4) + EncZone(zoned, x.zone)), true)
    ensures EncPlain(t, Moment(s, n, zone)) == BigEndian(s, 8) + (BigEndian(n, 4) + EncZone(zoned, zone))
    ensures PlainFits(t, Moment(s, n, zone)) <==> Fits(s, 8) && Fits(n, 4) && ValueLaws.ZoneKept(zoned, zone)
    ensures PlainShown(t, Moment(s, n, zone)) == UnixTime(s, n, zone)
  {
    hide KindOf, BigEndian, Fits, EncZone, ValueLaws.ZoneKept, UnixTime;
  }

  lemma BinaryKind(lib: Library, t: ColumnType, b: seq<byte>)
    requires KindOf(t.code) == Binary
    ensures EncScalar(lib, t, Raw(b)) == Written(EncBytes(b), true) && EncPlain(t, Octets(b)) == EncBytes(b)
    ensures (PlainFits(t, Octets(b)) <==> |b| < INT32_LIMIT) && PlainShown(t, Octets(b)) == Raw(b)
  {
    hide KindOf, EncBytes;
  }

  lemma BitsKind(lib: Library, t: ColumnType, b: seq<byte>, n: nat)
    requires KindOf(t.code) == Bits
    ensures EncScalar(lib, t, Raw(b)) == Written(BigEndian(|b| * 8, 4) + b, true)
    ensures EncPlain(t, BitString(n, b)) == BigEndian(n, 4) + b && PlainShown(t, BitString(n, b)) == Raw(b)
    ensures PlainFits(t, BitString(n, b)) <==> n < INT32_LIMIT && |b| == (n + 7) / 8
  {
    hide KindOf, BigEndian;
  }

  lemma LargeKind(lib: Library, t: ColumnType, v: Value, id: int, isClob: bool)
    requires KindOf(t.code) == Large(isClob)
    ensures EncScalar(lib, t, v) == if v.Lob? then Written(BigEndian(v.id, 8), true) else Written([], false)
    ensures EncPlain(t, Object(id)) == BigEndian(id, 8) && (PlainFits(t, Object(id)) <==> Fits(id, 8))
    ensures PlainShown(t, Object(id)) == Lob(id, isClob)
  {
    hide KindOf, BigEndian, Fits;
  }

  lemma MonthsKind(lib: Library, t: ColumnType, v: Value, n: int, form: Interval.MonthForm)
    requires KindOf(t.code) == Months(form)
    ensures EncScalar(lib, t, v) == Written([], false)
    ensures EncPlain(t, MonthCount(n)) == BigEndian(n, 8) && (PlainFits(t, MonthCount(n)) <==> Fits(n, 8))
    ensures PlainShown(t, MonthCount(n)) == Str(Interval.FormatMonths(form, n))
  {
    hide KindOf, BigEndian, Fits, Interval.FormatMonths;
  }

  lemma SecondsKind(lib: Library, t: ColumnType, v: Value, s: int, n: int, form: Interval.SecondForm)
    requires KindOf(t.code) == Seconds(form)
    ensures EncScalar(lib, t, v) == Written([], false)
    ensures EncPlain(t, Span(s, n)) == BigEndian(s, 8) + BigEndian(n, 4) && (PlainFits(t, Span(s, n)) <==> Fits(s, 8) && Fits(n, 4))
    ensures PlainShown(t, Span(s, n)) == Str(Interval.FormatSeconds(form, s, n))
  {
    hide KindOf, BigEndian, Fits, Interval.FormatSeconds;
  }

  // ----- the layout of each code

  /** NULL is one byte whatever the type. */
  lemma Nulls(lib: Library, t: ColumnType, c: Cursor)
    ensures EncValue(lib, t, Null) == Written([0], true)
    ensures At(c, [0]) ==> c.pos < |c.buf| && ReadValue(c, t) == (Null, Skip(c, 1))
  {
    hide ReadU8, ReadScalar, ReadFixed, ReadElems;
    U8Codec(c, 0);
  }

  /** ALL_TYPES: nothing follows the flag, and whatever was written is read as NULL. */
  lemma Untypeds(lib: Library, t: ColumnType, v: Value)
    requires t.code == 0 && !v.Null?
    ensures Writes(lib, t, v, []) && Reads(t, [], Null)
  {
    hide EncValue, Reads;
    PlainWrites(lib, t, v);
    PlainReads(t, Untyped);
  }

  /** CHAR and VARCHAR: the length of the modified UTF-8, and the modified UTF-8. */
  lemma Texts(lib: Library, t: ColumnType, s: string)
    requires t.code in {1, 12}
    ensures var utf := ModifiedUtf8.Encode(s);
            var bs := BigEndian(|utf|, 4) + utf;
            Writes(lib, t, Str(s), bs) && (|utf| < INT32_LIMIT ==> Reads(t, bs, Str(s)))
  {
    hide BigEndian, EncValue, Reads, EncScalar, EncPlain, PlainFits, PlainShown, ModifiedUtf8.Encode;
    TextKind(lib, t, s);
    PlainWrites(lib, t, Str(s));
    if |ModifiedUtf8.Encode(s)| < INT32_LIMIT {
      PlainReads(t, Chars(s));
    }
  }

  /** TINYINT and SMALLINT take two bytes, INTEGER four, BIGINT eight. */
  lemma Integers(lib: Library, t: ColumnType, n: int, width: nat)
    requires (t.code in {-6, 5} && width == 2) || (t.code == 4 && width == 4) || (t.code == 25 && width == 8)
    ensures Writes(lib, t, Int(n), BigEndian(n, width))
    ensures Fits(n, width) ==> Reads(t, BigEndian(n, width), Int(n))
  {
    hide BigEndian, EncValue, Reads, EncScalar, EncPlain, PlainFits, PlainShown, Fits;
    IntegerKind(lib, t, n, width);
    PlainWrites(lib, t, Int(n));
    if Fits(n, width) {
      PlainReads(t, Whole(n));
    }
  }

  /** REAL, FLOAT and DOUBLE: the 64 bits. */
  lemma Floats(lib: Library, t: ColumnType, bits: int)
    requires t.code in {6, 7, 8}
    ensures Writes(lib, t, Double(bits), BigEndian(bits, 8))
    ensures Fits(bits, 8) ==> Reads(t, BigEndian(bits, 8), Double(bits))
  {
    hide BigEndian, EncValue, Reads, EncScalar, EncPlain, PlainFits, PlainShown, Fits;
    FloatKind(lib, t, bits);
    PlainWrites(lib, t, Double(bits));
    if Fits(bits, 8) {
      PlainReads(t, Floating(bits));
    }
  }

  /** BOOLEAN: 1 or 0 is written, and any byte but 0 is read as true. */
  lemma Booleans(lib: Library, t: ColumnType, b: bool, x: byte)
    requires t.code == 16
    ensures Writes(lib, t, Bool(b), if b then [1] else [0])
    ensures Reads(t, [x], Bool(x != 0))
  {
    hide EncValue, AtPresent, ReadsTo;
    PlainWrites(lib, t, Bool(b));
    forall c: Cursor | AtPresent(c, [x])
      ensures ReadsTo(c, t, [x], Bool(x != 0))
    {
      BooleanRead(c, t, x);
    }
  }

  lemma BooleanRead(c: Cursor, t: ColumnType, x: byte)
    requires t.code == 16 && AtPresent(c, [x])
    ensures ReadsTo(c, t, [x], Bool(x != 0))
  {
    FlagRead(c, t);
    U8Codec(Skip(c, 1), x);
    hide ReadValue, ReadU8;
  }

  /** NUMERIC and DECIMAL: the length of the two's complement, the two's complement, the scale. */
  lemma Decimals(lib: Library, t: ColumnType, unscaled: int, scale: int)
    requires t.code in {2, 3}
    ensures var digits := TwosComplement.Encode(unscaled);
            var bs := BigEndian(|digits|, 4) + digits + BigEndian(scale, 4);
            && Writes(lib, t, Number(Dec(unscaled, scale)), bs)
            && (|digits| < INT32_LIMIT && Fits(scale, 4) ==> Reads(t, bs, Str(Format(unscaled, scale))))
  {
    hide BigEndian, EncValue, Reads, EncScalar, EncPlain, PlainFits, PlainShown, Fits, Format, TwosComplement.Encode;
    ExactKind(lib, t, unscaled, scale);
    PlainWrites(lib, t, Number(Dec(unscaled, scale)));
    if |TwosComplement.Encode(unscaled)| < INT32_LIMIT && Fits(scale, 4) {
      PlainReads(t, Exactly(unscaled, scale));
    }
  }

  /** DATE: the seconds of the midnight before the local time, as if it were in UTC. */
  lemma Dates(lib: Library, t: ColumnType, x: Value, midnight: int)
    requires t.code == 91 && x.Time? && midnight % 86400 == 0 && midnight <= x.unix + x.zone < midnight + 86400
    ensures Writes(lib, t, x, BigEndian(midnight, 8))
    ensures Fits(midnight, 8) ==> Reads(t, BigEndian(midnight, 8), Time(midnight, 0, 0))
  {
    hide BigEndian, EncValue, Reads, EncScalar, EncPlain, PlainFits, PlainShown, Fits;
    DateKind(lib, t, x, midnight);
    PlainWrites(lib, t, x);
    assert DateSeconds(x) == midnight;
    if Fits(midnight, 8) {
      PlainReads(t, Day(midnight));
    }
  }

  /** Times in range are taken for what they are. */
  lemma InRange(seconds: int, nanos: int, shown: int, zone: int)
    requires 0 <= seconds < 86400 && 0 <= nanos < 1_000_000_000
    ensures Fits(seconds, 4) && Fits(nanos, 4) && UnixTime(shown, nanos, zone) == Time(shown, nanos, zone)
  {
    PowValues();
    hide Pow256;
    ValueLaws.NanosKept(nanos);
  }

  /** TIME: the seconds since local midnight and the nanoseconds; with a zone (94), its offset after them. */
  lemma Clocks(lib: Library, t: ColumnType, x: Value, seconds: int)
    requires t.code in {92, 94} && x.Time? && 0 <= x.nanos < 1_000_000_000
    requires 0 <= seconds < 86400 && (x.unix + x.zone - seconds) % 86400 == 0
    ensures var bs := BigEndian(seconds, 4) + BigEndian(x.nanos, 4) + if t.code == 94 then BigEndian(x.zone, 4) else [];
            var zone := if t.code == 94 then x.zone else 0;
            Writes(lib, t, x, bs) && (Fits(zone, 4) ==> Reads(t, bs, Time(seconds - zone, x.nanos, zone)))
  {
    hide BigEndian, EncValue, Reads, EncScalar, EncPlain, PlainFits, PlainShown, Fits, UnixTime;
    var zone := if t.code == 94 then x.zone else 0;
    ClockKind(lib, t, x, seconds, x.nanos, zone, t.code == 94);
    InRange(seconds, x.nanos, seconds - zone, zone);
    assert TimeOfDaySeconds(x) == seconds;
    var a, b, z := BigEndian(seconds, 4), BigEndian(x.nanos, 4), EncZone(t.code == 94, x.zone);
    assert a + (b + z) == a + b + z;
    PlainWrites(lib, t, x);
    if Fits(zone, 4) {
      PlainReads(t, Clock(seconds, x.nanos, zone));
    }
  }

  /** TIMESTAMP: the seconds since the epoch and the nanoseconds; with a zone (95), its offset after them. */
  lemma Stamps(lib: Library, t: ColumnType, x: Value)
    requires t.code in {93, 95} && x.Time? && 0 <= x.nanos < 1_000_000_000
    ensures var bs := BigEndian(x.unix, 8) + BigEndian(x.nanos, 4) + if t.code == 95 then BigEndian(x.zone, 4) else [];
            var zone := if t.code == 95 then x.zone else 0;
            Writes(lib, t, x, bs) && (Fits(x.unix, 8) && Fits(zone, 4) ==> Reads(t, bs, Time(x.unix, x.nanos, zone)))
  {
    hide BigEndian, EncValue, Reads, EncScalar, EncPlain, PlainFits, PlainShown, Fits, UnixTime;
    var zone := if t.code == 95 then x.zone else 0;
    StampKind(lib, t, x, x.unix, x.nanos, zone, t.code == 95);
    InRange(0, x.nanos, x.unix, zone);
    var a, b, z := BigEndian(x.unix, 8), BigEndian(x.nanos, 4), EncZone(t.code == 95, x.zone);
    assert a + (b + z) == a + b + z;
    PlainWrites(lib, t, x);
    if Fits(x.unix, 8) && Fits(zone, 4) {
      PlainReads(t, Moment(x.unix, x.nanos, zone));
    }
  }

  /** BINARY, VARBINARY, UUID and OTHER: the length and the bytes. */
  lemma Binaries(lib: Library, t: ColumnType, b: seq<byte>)
    requires t.code in {60, 61, -11, 1111}
    ensures var bs := BigEndian(|b|, 4) + b;
            Writes(lib, t, Raw(b), bs) && (|b| < INT32_LIMIT ==> Reads(t, bs, Raw(b)))
  {
    hide BigEndian, EncValue, Reads, EncScalar, EncPlain, PlainFits, PlainShown;
    BinaryKind(lib, t, b);
    PlainWrites(lib, t, Raw(b));
    if |b| < INT32_LIMIT {
      PlainReads(t, Octets(b));
    }
  }

  /** BIT and BIT VARYING: the number of bits, and as many whole bytes as they need. */
  lemma BitStrings(lib: Library, t: ColumnType, b: seq<byte>, bits: nat)
    requires t.code in {14, 15}
    ensures Writes(lib, t, Raw(b), BigEndian(8 * |b|, 4) + b)
    ensures bits < INT32_LIMIT && 8 * |b| - 8 < bits <= 8 * |b| ==> Reads(t, BigEndian(bits, 4) + b, Raw(b))
  {
    hide BigEndian, EncValue, Reads, EncScalar, EncPlain, PlainFits, PlainShown;
    BitsKind(lib, t, b, bits);
    PlainWrites(lib, t, Raw(b));
    if bits < INT32_LIMIT && 8 * |b| - 8 < bits <= 8 * |b| {
      PlainReads(t, BitString(bits, b));
    }
  }

  /** BLOB and CLOB: the id of the object, and nothing but a reference is accepted. */
  lemma Objects(lib: Library, t: ColumnType, id: int, isClob: bool, v: Value)
    requires t.code in {30, 40} && !v.Null? && !v.Lob?
    ensures Writes(lib, t, Lob(id, isClob), BigEndian(id, 8)) && Refused(lib, t, v)
    ensures Fits(id, 8) ==> Reads(t, BigEndian(id, 8), Lob(id, t.code == 40))
  {
    hide BigEndian, EncValue, Reads, EncScalar, EncPlain, PlainFits, PlainShown, Fits;
    LargeKind(lib, t, Lob(id, isClob), id, t.code == 40);
    LargeKind(lib, t, v, id, t.code == 40);
    PlainWrites(lib, t, Lob(id, isClob));
    PlainWrites(lib, t, v);
    assert [1] + [] == [1];
    if Fits(id, 8) {
      PlainReads(t, Object(id));
    }
  }

  /** The form each code of a YEAR/MONTH interval is shown in. */
  const MONTH_FORMS := map[101 := Interval.Year, 102 := Interval.Month, 107 := Interval.YearToMonth]

  /** The form each code of a DAY/SECOND interval is shown in. */
  const SECOND_FORMS := map[
    103 := Interval.Day, 104 := Interval.Hour, 105 := Interval.Minute, 106 := Interval.Second,
    108 := Interval.DayToHour, 109 := Interval.DayToMinute, 110 := Interval.DayToSecond,
    111 := Interval.HourToMinute, 112 := Interval.HourToSecond, 113 := Interval.MinuteToSecond]

  /** YEAR/MONTH intervals are read as a count of months, and never written. */
  lemma MonthIntervals(lib: Library, t: ColumnType, n: int, v: Value)
    requires t.code in MONTH_FORMS && !v.Null?
    ensures Refused(lib, t, v)
    ensures Fits(n, 8) ==> Reads(t, BigEndian(n, 8), Str(Interval.FormatMonths(MONTH_FORMS[t.code], n)))
  {
    hide BigEndian, EncValue, Reads, EncScalar, EncPlain, PlainFits, PlainShown, Fits, Interval.FormatMonths;
    MonthsKind(lib, t, v, n, MONTH_FORMS[t.code]);
    PlainWrites(lib, t, v);
    assert [1] + [] == [1];
    if Fits(n, 8) {
      PlainReads(t, MonthCount(n));
    }
  }

  /** DAY/SECOND intervals are read as seconds and nanoseconds, and never written. */
  lemma SecondIntervals(lib: Library, t: ColumnType, s: int, n: int, v: Value)
    requires t.code in SECOND_FORMS && !v.Null?
    ensures Refused(lib, t, v)
    ensures Fits(s, 8) && Fits(n, 4) ==>
              Reads(t, BigEndian(s, 8) + BigEndian(n, 4), Str(Interval.FormatSeconds(SECOND_FORMS[t.code], s, n)))
  {
    hide BigEndian, EncValue, Reads, EncScalar, EncPlain, PlainFits, PlainShown, Fits, Interval.FormatSeconds;
    SecondsKind(lib, t, v, s, n, SECOND_FORMS[t.code]);
    PlainWrites(lib, t, v);
    assert [1] + [] == [1];
    if Fits(s, 8) && Fits(n, 4) {
      PlainReads(t, Span(s, n));
    }
  }

  // ----- every other code

  /** Any other code is refused by the writer, and by the reader with an error that names it. */
  lemma Others(lib: Library, t: ColumnType, v: Value, c: Cursor)
    requires t.code !in {0, 1, 12, -6, 5, 4, 25, 6, 7, 8, 16, 2, 3, 91, 92, 93, 94, 95, 60, 61, -11, 1111, 14, 15, 30, 40, 50}
    requires t.code !in MONTH_FORMS && t.code !in SECOND_FORMS && !v.Null?
    requires c.err.None? && c.pos < |c.buf| && c.buf[c.pos] != 0
    ensures Refused(lib, t, v) && ReadValue(c, t) == (Null, Skip(c, 1).(err := Some(BadTypeCode(t.code))))
  {
    hide EncValue, ReadValue, EncScalar, ReadScalar;
    UnknownKind(Skip(c, 1), lib, t, v);
    PlainWrites(lib, t, v);
    assert [1] + [] == [1];
    FlagRead(c, t);
  }

  lemma UnknownKind(c: Cursor, lib: Library, t: ColumnType, v: Value)
    requires KindOf(t.code) == Unknown && t.code != SQL_ARRAY
    ensures EncScalar(lib, t, v) == Written([], false) && ReadScalar(c, t) == (Null, c.(err := Some(BadTypeCode(t.code))))
  {
    hide KindOf;
  }
}

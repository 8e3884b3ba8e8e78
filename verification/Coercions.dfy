/** internal/proto/types.go: what becomes of a value of another Go type than its column has. */
module Coercions {
  import opened Bytes
  import opened Wire
  import opened Values
  import opened Decimal
  import opened TypeCodes

  /** The two values are written alike. */
  predicate Alike(lib: Library, t: ColumnType, v: Value, w: Value) {
    EncValue(lib, t, v) == EncValue(lib, t, w)
  }

  lemma SameScalar(lib: Library, t: ColumnType, v: Value, w: Value)
    requires t.code != SQL_ARRAY && !v.Null? && !w.Null? && EncScalar(lib, t, v) == EncScalar(lib, t, w)
    ensures Alike(lib, t, v, w)
  {
    hide EncScalar;
  }

  /** In an integer column true counts as 1, false as 0, a double is cut, and anything else is 0. */
  lemma IntegersFrom(lib: Library, t: ColumnType, v: Value)
    requires t.code in {-6, 5, 4, 25} && !v.Null? && !v.Int?
    ensures v == Bool(true) ==> Alike(lib, t, v, Int(1))
    ensures v.Double? ==> Alike(lib, t, v, Int(lib.truncateDouble(v.bits)))
    ensures v != Bool(true) && !v.Double? ==> Alike(lib, t, v, Int(0))
  {
    assert KindOf(t.code).Integer?;
    hide KindOf, BigEndian, Alike;
    SameScalar(lib, t, v, if v == Bool(true) then Int(1) else if v.Double? then Int(lib.truncateDouble(v.bits)) else Int(0));
  }

  /** In a text column bytes are taken as text, and anything else as Go prints it. */
  lemma TextsFrom(lib: Library, t: ColumnType, v: Value)
    requires t.code in {1, 12} && !v.Null? && !v.Str?
    ensures Alike(lib, t, v, Str(if v.Raw? then lib.textOf(v.bytes) else lib.sprint(v)))
  {
    assert KindOf(t.code) == Text;
    hide KindOf, EncString, Alike;
    SameScalar(lib, t, v, Str(if v.Raw? then lib.textOf(v.bytes) else lib.sprint(v)));
  }

  /** In a floating-point column an integer is converted, and anything else is 0. */
  lemma FloatsFrom(lib: Library, t: ColumnType, v: Value)
    requires t.code in {6, 7, 8} && !v.Null? && !v.Double?
    ensures Alike(lib, t, v, Double(if v.Int? then lib.doubleOf(v.i) else 0))
  {
    assert KindOf(t.code) == Float;
    hide KindOf, BigEndian, Alike;
    SameScalar(lib, t, v, Double(if v.Int? then lib.doubleOf(v.i) else 0));
  }

  /** In a BOOLEAN column an integer is true unless it is 0, and anything else is false. */
  lemma BooleansFrom(lib: Library, t: ColumnType, v: Value)
    requires t.code == 16 && !v.Null? && !v.Bool?
    ensures Alike(lib, t, v, Bool(v.Int? && v.i != 0))
  {
    assert KindOf(t.code) == Boolean;
    hide KindOf, Alike;
    SameScalar(lib, t, v, Bool(v.Int? && v.i != 0));
  }

  /** In a decimal column an integer is that number at the scale of the column; a negative scale leaves it unscaled. */
  lemma DecimalsFromIntegers(lib: Library, t: ColumnType, i: int)
    requires t.code in {2, 3}
    ensures Alike(lib, t, Int(i), Number(Dec(if t.scale >= 0 then i * Pow10(t.scale) else i, t.scale)))
  {
    hide *;
    ExactCodes(t);
    IntegerScaled(lib, i, t.scale);
    ExactFrom(lib, t, Int(i), if t.scale >= 0 then i * Pow10(t.scale) else i, t.scale);
  }

  lemma IntegerScaled(lib: Library, i: int, scale: int)
    ensures AsDecimal(lib, Int(i), scale) == Some(Dec(if scale >= 0 then i * Pow10(scale) else i, scale))
  {
    assert Pow10(0) == 1;
    hide Pow10, Parse;
  }

  /** Bytes and doubles count as their text, and a text as what it is parsed to at the scale of the column. */
  lemma DecimalsFromTexts(lib: Library, t: ColumnType, v: Value)
    requires t.code in {2, 3} && (v.Str? || v.Raw? || v.Double?)
    ensures var text := if v.Str? then v.s else if v.Raw? then lib.textOf(v.bytes) else lib.sprint(v);
            match Parse(text, t.scale)
            case Some(d) => Alike(lib, t, v, Number(d))
            case None => Refused(lib, t, v)
  {
    hide *;
    ExactCodes(t);
    var text := if v.Str? then v.s else if v.Raw? then lib.textOf(v.bytes) else lib.sprint(v);
    assert AsDecimal(lib, v, t.scale) == Parse(text, t.scale) by { TextParsed(lib, v, t.scale); }
    match Parse(text, t.scale) {
      case Some(d) => ExactFrom(lib, t, v, d.unscaled, d.scale);
      case None => ExactRefused(lib, t, v);
    }
  }

  lemma TextParsed(lib: Library, v: Value, scale: int)
    requires v.Str? || v.Raw? || v.Double?
    ensures AsDecimal(lib, v, scale)
         == Parse(if v.Str? then v.s else if v.Raw? then lib.textOf(v.bytes) else lib.sprint(v), scale)
  {
    hide Parse;
  }

  /** Truth values, times, arrays and references are no decimals. */
  lemma NoDecimals(lib: Library, t: ColumnType, v: Value)
    requires t.code in {2, 3} && (v.Bool? || v.Time? || v.Arr? || v.Lob?)
    ensures Refused(lib, t, v)
  {
    hide Parse, KindOf, EncValue;
    ExactCodes(t);
    ExactRefused(lib, t, v);
  }

  lemma ExactCodes(t: ColumnType)
    requires t.code in {2, 3}
    ensures KindOf(t.code) == Exact
  {
  }

  /** What is written depends on the decimal a value stands for only. */
  lemma ExactScalar(lib: Library, t: ColumnType, v: Value)
    requires KindOf(t.code) == Exact
    ensures t.code != SQL_ARRAY
    ensures EncScalar(lib, t, v) == match AsDecimal(lib, v, t.scale)
                                    case None => Written([], false)
                                    case Some(d) => Written(EncDecimal(d.unscaled, d.scale), true)
  {
    hide EncDecimal, AsDecimal;
  }

  lemma ExactFrom(lib: Library, t: ColumnType, v: Value, unscaled: int, scale: int)
    requires KindOf(t.code) == Exact && !v.Null? && AsDecimal(lib, v, t.scale) == Some(Dec(unscaled, scale))
    ensures Alike(lib, t, v, Number(Dec(unscaled, scale)))
  {
    hide *;
    var w := Number(Dec(unscaled, scale));
    assert AsDecimal(lib, w, t.scale) == Some(Dec(unscaled, scale)) by { NumberItself(lib, Dec(unscaled, scale), t.scale); }
    ExactScalar(lib, t, v);
    ExactScalar(lib, t, w);
    SameScalar(lib, t, v, w);
  }

  lemma NumberItself(lib: Library, d: Dec, scale: int)
    ensures AsDecimal(lib, Number(d), scale) == Some(d)
  {
    hide Parse;
  }

  lemma ExactRefused(lib: Library, t: ColumnType, v: Value)
    requires KindOf(t.code) == Exact && !v.Null? && AsDecimal(lib, v, t.scale) == None
    ensures Refused(lib, t, v)
  {
    hide EncValue, EncScalar, KindOf, AsDecimal;
    ExactScalar(lib, t, v);
    PlainWrites(lib, t, v);
    assert [1] + [] == [1];
  }

  /** In a binary or bit column a string counts as its UTF-8 bytes, and anything else as none. */
  lemma BytesFrom(lib: Library, t: ColumnType, v: Value)
    requires t.code in {60, 61, -11, 1111, 14, 15} && !v.Null? && !v.Raw?
    ensures Alike(lib, t, v, Raw(if v.Str? then lib.utf8Of(v.s) else []))
  {
    assert KindOf(t.code) == Binary || KindOf(t.code) == Bits;
    hide KindOf, EncBytes, BigEndian, Alike;
    SameScalar(lib, t, v, Raw(if v.Str? then lib.utf8Of(v.s) else []));
  }

  /** In a date or time column anything but a time counts as the first instant of the year 1. */
  lemma TimesFrom(lib: Library, t: ColumnType, v: Value)
    requires t.code in {91, 92, 93, 94, 95} && !v.Null? && !v.Time?
    ensures Alike(lib, t, v, Time(-62135596800, 0, 0))
  {
    assert KindOf(t.code).Date? || KindOf(t.code).TimeOfDay? || KindOf(t.code).Stamp?;
    hide KindOf, BigEndian, EncZone, DateSeconds, TimeOfDaySeconds, Alike;
    SameScalar(lib, t, v, Time(-62135596800, 0, 0));
  }
}

/** What a value written by WriteValue becomes when ReadValue reads it back. */
module ValueLaws {
  import opened Bytes
  import opened Wire
  import opened Decimal
  import opened DecimalLaws
  import opened Values
  import ModifiedUtf8
  import TwosComplement
  import Interval

  // ----- the value that comes back

  function ZoneBack(zoned: bool, zone: int): int {
    if zoned then Wrap(zone, 4) else 0
  }

  function NormalScalar(lib: Library, t: ColumnType, v: Value): Value {
    match KindOf(t.code)
    case Text => Str(AsString(lib, v))
    case Integer(k) => Int(Wrap(AsInt64(lib, v), k))
    case Float => Double(Wrap(AsFloat64(lib, v), 8))
    case Boolean => Bool(AsBool(v))
    case Exact =>
      (match AsDecimal(lib, v, t.scale)
       case None => Null
       case Some(d) => Str(Format(d.unscaled, d.scale)))
    case Date => Time(Wrap(DateSeconds(AsTime(v)), 8), 0, 0)
    case TimeOfDay(zoned) =>
      var x := AsTime(v);
      var zone := ZoneBack(zoned, x.zone);
      UnixTime(TimeOfDaySeconds(x) - zone, Wrap(x.nanos, 4), zone)
    case Stamp(zoned) =>
      var x := AsTime(v);
      UnixTime(Wrap(x.unix, 8), Wrap(x.nanos, 4), ZoneBack(zoned, x.zone))
    case Binary => Raw(AsBytes(lib, v))
    case Bits => Raw(AsBytes(lib, v))
    case Large(isClob) => if v.Lob? then Lob(Wrap(v.id, 8), isClob) else Null
    case _ => Null
  }

  function Normal(lib: Library, t: ColumnType, v: Value): Value
    decreases Rank(t), 1, 0
  {
    if v.Null? then Null
    else if t.code != SQL_ARRAY then NormalScalar(lib, t, v)
    else if v.Arr? then Arr(NormalElems(lib, ElemType(t.base), v.values), t.base)
    else Null
  }

  function NormalElems(lib: Library, t: ColumnType, vs: seq<Value>): (r: seq<Value>)
    ensures |r| == |vs|
    decreases Rank(t), 2, |vs|
  {
    if vs == [] then [] else [Normal(lib, t, vs[0])] + NormalElems(lib, t, vs[1..])
  }

  // ----- the int32 lengths of the format

  predicate SizedScalar(lib: Library, t: ColumnType, v: Value) {
    match KindOf(t.code)
    case Text => |ModifiedUtf8.Encode(AsString(lib, v))| < INT32_LIMIT
    case Exact =>
      (match AsDecimal(lib, v, t.scale)
       case None => true
       case Some(d) => |TwosComplement.Encode(d.unscaled)| < INT32_LIMIT && Fits(d.scale, 4))
    case Binary => |AsBytes(lib, v)| < INT32_LIMIT
    case Bits => |AsBytes(lib, v)| * 8 < INT32_LIMIT
    case _ => true
  }

  /** Every length and count the format stores as an int32 fits in one. */
  predicate Sized(lib: Library, t: ColumnType, v: Value)
    decreases Rank(t), 1, 0
  {
    if v.Null? then true
    else if t.code != SQL_ARRAY then SizedScalar(lib, t, v)
    else v.Arr? ==> |v.values| < INT32_LIMIT && SizedElems(lib, ElemType(t.base), v.values)
  }

  predicate SizedElems(lib: Library, t: ColumnType, vs: seq<Value>)
    decreases Rank(t), 2, |vs|
  {
    vs != [] ==> Sized(lib, t, vs[0]) && SizedElems(lib, t, vs[1..])
  }

  // ----- scalars

  lemma ZoneCodec(c: Cursor, zoned: bool, zone: int)
    requires c.err.None?
    ensures At(c, EncZone(zoned, zone)) ==>
              && c.pos + |EncZone(zoned, zone)| <= |c.buf|
              && ReadZone(c, zoned) == (ZoneBack(zoned, zone), Skip(c, |EncZone(zoned, zone)|))
    ensures Cut(c, EncZone(zoned, zone)) ==> ReadZone(c, zoned).1.err.Some?
  {
    hide BigEndian, ReadFixed, Wrap;
    if zoned {
      FixedCodec(c, zone, 4);
    }
  }

  /** A number, nanoseconds and a zone: the shape of the two time encodings. */
  lemma TimeCodec(c: Cursor, sec: int, k: nat, nanos: int, zoned: bool, zone: int)
    ensures var bs := BigEndian(sec, k) + (BigEndian(nanos, 4) + EncZone(zoned, zone));
            var (s, d) := ReadFixed(c, k);
            var (n, e) := ReadFixed(d, 4);
            var (z, f) := ReadZone(e, zoned);
            && (At(c, bs) ==>
                  && c.pos + |bs| <= |c.buf|
                  && (s, n, z, f) == (Wrap(sec, k), Wrap(nanos, 4), ZoneBack(zoned, zone), Skip(c, |bs|)))
            && (Cut(c, bs) ==> f.err.Some?)
  {
    hide BigEndian, ReadFixed, Wrap, EncZone, ReadZone, ZoneBack;
    var a, b, z := BigEndian(sec, k), BigEndian(nanos, 4), EncZone(zoned, zone);
    FixedCodec(c, sec, k);
    if At(c, a + (b + z)) {
      AtSplit(c, a, b + z);
      var d := Skip(c, |a|);
      AtSplit(d, b, z);
      FixedCodec(d, nanos, 4);
      ZoneCodec(Skip(d, |b|), zoned, zone);
    }
    if Cut(c, a + (b + z)) {
      CutSplit(c, a, b + z);
      if !Cut(c, a) {
        var d := Skip(c, |a|);
        CutSplit(d, b, z);
        FixedCodec(d, nanos, 4);
        if !Cut(d, b) {
          ZoneCodec(Skip(d, |b|), zoned, zone);
        }
      }
    }
  }

  /** A bit string: the count of bits, and bytes enough for them. */
  lemma BitsCodec(c: Cursor, bits: nat, b: seq<byte>)
    requires bits < INT32_LIMIT && |b| == (bits + 7) / 8
    ensures var bs := BigEndian(bits, 4) + b;
            && (At(c, bs) ==> c.pos + |bs| <= |c.buf| && ReadBits(c) == (Raw(b), Skip(c, |bs|)))
            && (Cut(c, bs) ==> ReadBits(c).1.err.Some?)
  {
    hide BigEndian, ReadFixed, Wrap;
    var len := BigEndian(bits, 4);
    Int32Range(bits);
    FixedCodec(c, bits, 4);
    assert Interval.Quot(bits + 7, 8) == |b|;
    if At(c, len + b) {
      AtSplit(c, len, b);
      TakeAt(Skip(c, 4), b);
    }
    if Cut(c, len + b) {
      CutSplit(c, len, b);
      if !Cut(c, len) {
        TakeAt(Skip(c, 4), b);
      }
    }
  }

  lemma TimeOfDayRange(x: Value)
    requires x.Time?
    ensures Wrap(TimeOfDaySeconds(x), 4) == TimeOfDaySeconds(x)
  {
  }

  lemma ScalarCodec(c: Cursor, lib: Library, t: ColumnType, v: Value)
    requires t.code != SQL_ARRAY && !v.Null? && c.err.None?
    requires EncScalar(lib, t, v).ok && SizedScalar(lib, t, v)
    ensures var bs := EncScalar(lib, t, v).bytes;
            && (At(c, bs) ==> c.pos + |bs| <= |c.buf| && ReadScalar(c, t) == (NormalScalar(lib, t, v), Skip(c, |bs|)))
            && (Cut(c, bs) ==> ReadScalar(c, t).1.err.Some?)
  {
    hide EncString, EncDecimal, EncBytes, BigEndian, EncZone, ReadFixed, ReadBytes, ReadString,
         ReadDecimal, ReadU8, ReadZone, ReadBits, Wrap, ModifiedUtf8.Encode, TwosComplement.Encode, Format,
         KindOf, AsString, AsInt64, AsFloat64, AsBool, AsBytes, AsDecimal, AsTime, UnixTime, TimeOfDaySeconds, DateSeconds;
    match KindOf(t.code) {
      case AllTypes =>
      case Text => StringCodec(c, AsString(lib, v));
      case Integer(k) => FixedCodec(c, AsInt64(lib, v), k);
      case Float => FixedCodec(c, AsFloat64(lib, v), 8);
      case Boolean => U8Codec(c, if AsBool(v) then 1 else 0);
      case Exact =>
        var d := AsDecimal(lib, v, t.scale).value;
        DecimalCodec(c, d.unscaled, d.scale);
      case Date => FixedCodec(c, DateSeconds(AsTime(v)), 8);
      case TimeOfDay(zoned) =>
        var x := AsTime(v);
        TimeOfDayRange(x);
        TimeCodec(c, TimeOfDaySeconds(x), 4, x.nanos, zoned, x.zone);
      case Stamp(zoned) =>
        var x := AsTime(v);
        TimeCodec(c, x.unix, 8, x.nanos, zoned, x.zone);
      case Binary => BytesCodec(c, AsBytes(lib, v));
      case Bits => BitsCodec(c, |AsBytes(lib, v)| * 8, AsBytes(lib, v));
      case Large(_) => FixedCodec(c, v.id, 8);
      case _ =>
    }
  }

  // ----- whole values, arrays included

  /**
   * Whatever was written without an error is read back from any position in any buffer: exactly
   * those bytes are consumed, and the value is the normal form of the one written. When the
   * input ends inside those bytes, the read ends with the error set.
   */
  lemma {:induction false} ReadBack(c: Cursor, lib: Library, t: ColumnType, v: Value)
    requires EncValue(lib, t, v).ok && Sized(lib, t, v)
    ensures var bs := EncValue(lib, t, v).bytes;
            && (At(c, bs) ==> c.pos + |bs| <= |c.buf| && ReadValue(c, t) == (Normal(lib, t, v), Skip(c, |bs|)))
            && (Cut(c, bs) ==> ReadValue(c, t).1.err.Some?)
    decreases Rank(t), 1, 0
  {
    if v.Null? {
      U8Codec(c, 0);
    } else if t.code == SQL_ARRAY {
      var rest := BigEndian(|v.values|, 4) + EncElems(lib, ElemType(t.base), v.values).bytes;
      FlagThen(c, rest);
      if At(c, [1] + rest) {
        ArrayReadBack(Skip(c, 1), lib, t, v);
      } else if Cut(c, [1] + rest) && !Cut(c, [1]) {
        ArrayReadBack(Skip(c, 1), lib, t, v);
      }
    } else {
      hide EncScalar, ReadScalar, NormalScalar, SizedScalar, ReadU8;
      var rest := EncScalar(lib, t, v).bytes;
      FlagThen(c, rest);
      if At(c, [1] + rest) {
        ScalarCodec(Skip(c, 1), lib, t, v);
      } else if Cut(c, [1] + rest) && !Cut(c, [1]) {
        ScalarCodec(Skip(c, 1), lib, t, v);
      }
    }
  }

  /** The flag of a value that is present, and what follows it. */
  lemma FlagThen(c: Cursor, rest: seq<byte>)
    ensures At(c, [1] + rest) ==>
              && c.pos + |[1] + rest| <= |c.buf| && ReadU8(c) == (1, Skip(c, 1)) && At(Skip(c, 1), rest)
              && Skip(c, |[1] + rest|) == Skip(Skip(c, 1), |rest|)
    ensures Cut(c, [1] + rest) ==>
              if Cut(c, [1]) then ReadU8(c).1.err.Some?
              else c.pos < |c.buf| && ReadU8(c) == (1, Skip(c, 1)) && Cut(Skip(c, 1), rest)
  {
  }

  lemma {:induction false} ArrayReadBack(c: Cursor, lib: Library, t: ColumnType, v: Value)
    requires t.code == SQL_ARRAY && v.Arr? && EncValue(lib, t, v).ok && Sized(lib, t, v)
    ensures var bs := BigEndian(|v.values|, 4) + EncElems(lib, ElemType(t.base), v.values).bytes;
            var (n, e) := ReadFixed(c, 4);
            && (At(c, bs) ==>
                  && c.pos + |bs| <= |c.buf| && e.err.None? && n == |v.values|
                  && ReadElems(e, ElemType(t.base), n)
                     == (NormalElems(lib, ElemType(t.base), v.values), Skip(c, |bs|)))
            && (Cut(c, bs) ==> e.err.Some? || (n == |v.values| && ReadElems(e, ElemType(t.base), n).1.err.Some?))
    decreases Rank(t), 0, 0
  {
    hide BigEndian, ReadFixed, Wrap, ReadElems, EncElems, NormalElems;
    var n := |v.values|;
    var len, elems := BigEndian(n, 4), EncElems(lib, ElemType(t.base), v.values).bytes;
    Int32Range(n);
    FixedCodec(c, n, 4);
    if At(c, len + elems) {
      AtSplit(c, len, elems);
      ElemsReadBack(Skip(c, 4), lib, ElemType(t.base), v.values);
    }
    if Cut(c, len + elems) {
      CutSplit(c, len, elems);
      if !Cut(c, len) {
        ElemsReadBack(Skip(c, 4), lib, ElemType(t.base), v.values);
      }
    }
  }

  lemma {:induction false} ElemsReadBack(c: Cursor, lib: Library, t: ColumnType, vs: seq<Value>)
    requires EncElems(lib, t, vs).ok && SizedElems(lib, t, vs)
    ensures var bs := EncElems(lib, t, vs).bytes;
            && (At(c, bs) ==> c.pos + |bs| <= |c.buf| && ReadElems(c, t, |vs|) == (NormalElems(lib, t, vs), Skip(c, |bs|)))
            && (Cut(c, bs) ==> ReadElems(c, t, |vs|).1.err.Some?)
    decreases Rank(t), 2, |vs|
  {
    hide EncValue, ReadValue, Normal, Sized;
    if vs != [] {
      var head, tail := EncValue(lib, t, vs[0]).bytes, EncElems(lib, t, vs[1..]).bytes;
      assert EncElems(lib, t, vs).bytes == head + tail;
      ReadBack(c, lib, t, vs[0]);
      if At(c, head + tail) {
        AtSplit(c, head, tail);
        ElemsReadBack(Skip(c, |head|), lib, t, vs[1..]);
      }
      if Cut(c, head + tail) {
        CutSplit(c, head, tail);
        if !Cut(c, head) {
          ElemsReadBack(Skip(c, |head|), lib, t, vs[1..]);
        }
      }
    }
  }

  // ----- which values survive

  predicate CanonicalScalar(t: ColumnType, v: Value) {
    match KindOf(t.code)
    case Text => v.Str?
    case Integer(k) => v.Int? && Fits(v.i, k)
    case Float => v.Double? && Fits(v.bits, 8)
    case Boolean => v.Bool?
    case Exact => v.Str? && CanonicalText(v.s, t.scale)
    case Date => v.Time? && v.zone == 0 && v.nanos == 0 && v.unix % DAY == 0 && Fits(v.unix, 8)
    case TimeOfDay(zoned) => v.Time? && ZoneKept(zoned, v.zone) && 0 <= v.unix + v.zone < DAY
    case Stamp(zoned) => v.Time? && ZoneKept(zoned, v.zone) && Fits(v.unix, 8)
    case Binary => v.Raw?
    case Bits => v.Raw?
    case Large(isClob) => v.Lob? && v.isClob == isClob && Fits(v.id, 8)
    case _ => false
  }

  predicate ZoneKept(zoned: bool, zone: int) {
    if zoned then Fits(zone, 4) else zone == 0
  }

  /** The values of a column type that its encoding can carry without loss. */
  predicate Canonical(t: ColumnType, v: Value)
    decreases Rank(t), 1, 0
  {
    if v.Null? then true
    else if t.code != SQL_ARRAY then CanonicalScalar(t, v)
    else v.Arr? && v.elemCode == t.base && CanonicalElems(ElemType(t.base), v.values)
  }

  predicate CanonicalElems(t: ColumnType, vs: seq<Value>)
    decreases Rank(t), 2, |vs|
  {
    vs != [] ==> Canonical(t, vs[0]) && CanonicalElems(t, vs[1..])
  }

  /** Go keeps the nanoseconds of a time below a second. */
  predicate GoTimes(v: Value) {
    match v
    case Time(_, n, _) => 0 <= n < Interval.NANOS
    case Arr(vs, _) => forall x | x in vs :: GoTimes(x)
    case _ => true
  }

  lemma WrapIff(n: int, k: nat)
    ensures Wrap(n, k) == n <==> Fits(n, k)
    ensures Fits(Wrap(n, k), k)
  {
    if Fits(n, k) {
      WrapFits(n, k);
    }
  }

  /** Wrapping moves by whole multiples of the range, never by less than a day. */
  lemma WrapNear(n: int, r: int)
    requires 0 <= r < DAY
    ensures Wrap(n, 8) == n + r ==> r == 0
  {
  }

  lemma NanosKept(n: int)
    requires 0 <= n < Interval.NANOS
    ensures Wrap(n, 4) == n && n / Interval.NANOS == 0 && n % Interval.NANOS == n
  {
  }

  lemma ScalarKeptIff(lib: Library, t: ColumnType, v: Value)
    requires t.code != SQL_ARRAY && !v.Null? && GoTimes(v)
    ensures EncScalar(lib, t, v).ok && NormalScalar(lib, t, v) == v <==> CanonicalScalar(t, v)
  {
    hide EncString, EncDecimal, EncBytes, BigEndian, EncZone, Wrap, Fits, KindOf, Parse, Format, ScaleUnscaled, CanonicalText;
    match KindOf(t.code) {
      case Integer(k) => WrapIff(AsInt64(lib, v), k);
      case Float => WrapIff(AsFloat64(lib, v), 8);
      case Exact =>
        if v.Str? {
          FixedTextIff(v.s, t.scale);
          ParsedScale(v.s, t.scale);
        }
      case Date =>
        WrapIff(DateSeconds(AsTime(v)), 8);
        if v.Time? && v.zone == 0 {
          WrapNear(DateSeconds(v), v.unix % DAY);
        }
      case TimeOfDay(_) =>
        var x := AsTime(v);
        WrapIff(x.zone, 4);
        if v.Time? {
          NanosKept(x.nanos);
        }
      case Stamp(_) =>
        var x := AsTime(v);
        WrapIff(x.zone, 4);
        WrapIff(x.unix, 8);
        if v.Time? {
          NanosKept(x.nanos);
        }
      case Large(_) => if v.Lob? { WrapIff(v.id, 8); }
      case _ =>
    }
  }

  /** A double that Go prints with an exponent can reach the server as a number ten million times as large. */
  lemma DoubleMisread(lib: Library, t: ColumnType, bits: int)
    requires KindOf(t.code) == Exact && t.scale == 1 && lib.sprint(Double(bits)) == "1.5e-07"
    ensures EncScalar(lib, t, Double(bits)) == Written(EncDecimal(15, 1), true)
  {
    hide EncDecimal, KindOf, Parse, CutValue, ReadNumeral;
    FloatTextMisread();
  }

  lemma {:induction false} KeptIff(lib: Library, t: ColumnType, v: Value)
    requires GoTimes(v)
    ensures EncValue(lib, t, v).ok && Normal(lib, t, v) == v <==> Canonical(t, v)
    decreases Rank(t), 1, 0
  {
    if v.Null? {
    } else if t.code != SQL_ARRAY {
      ScalarKeptIff(lib, t, v);
      hide EncScalar, NormalScalar, CanonicalScalar;
    } else if v.Arr? {
      ElemsKeptIff(lib, ElemType(t.base), v.values);
      hide EncElems, NormalElems, CanonicalElems;
    }
  }

  lemma {:induction false} ElemsKeptIff(lib: Library, t: ColumnType, vs: seq<Value>)
    requires forall x | x in vs :: GoTimes(x)
    ensures EncElems(lib, t, vs).ok && NormalElems(lib, t, vs) == vs <==> CanonicalElems(t, vs)
    decreases Rank(t), 2, |vs|
  {
    hide EncValue, Normal, Canonical;
    if vs != [] {
      KeptIff(lib, t, vs[0]);
      ElemsKeptIff(lib, t, vs[1..]);
      assert vs == [vs[0]] + vs[1..];
      assert NormalElems(lib, t, vs)[1..] == NormalElems(lib, t, vs[1..]);
    }
  }

  /**
   * The round trip, exactly: a value within the int32 lengths is written without an error and
   * read back unchanged, with every following byte left alone, if and only if it is canonical
   * for its column type.
   */
  lemma RoundTripIff(c: Cursor, lib: Library, t: ColumnType, v: Value)
    requires Sized(lib, t, v) && GoTimes(v)
    requires At(c, EncValue(lib, t, v).bytes)
    ensures var w := EncValue(lib, t, v);
            Canonical(t, v) <==>
            w.ok && c.pos + |w.bytes| <= |c.buf| && ReadValue(c, t) == (v, Skip(c, |w.bytes|))
  {
    hide EncValue, ReadValue, Normal, Canonical, Sized, GoTimes;
    KeptIff(lib, t, v);
    if EncValue(lib, t, v).ok {
      ReadBack(c, lib, t, v);
    }
  }

  /** A read that starts in a strict prefix of an encoded value always reports it. */
  lemma TruncationNoticed(lib: Library, t: ColumnType, v: Value, prefix: seq<byte>)
    requires EncValue(lib, t, v).ok && Sized(lib, t, v)
    requires prefix < EncValue(lib, t, v).bytes
    ensures ReadValue(Cursor(prefix, 0, None), t).1.err.Some?
  {
    hide EncValue, ReadValue, Sized;
    assert prefix[0..] == prefix;
    ReadBack(Cursor(prefix, 0, None), lib, t, v);
  }
}

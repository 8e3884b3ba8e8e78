/** internal/proto/types.go: WriteValue, ReadValue and readArray on the writer and the reader. */
module ValueIO {
  import opened Bytes
  import opened Wire
  import opened Decimal
  import opened Values
  import Interval

  method WriteDataTypeSimple(w: RowOutput, t: ColumnType)
    modifies w
    ensures w.buf == old(w.buf) + EncTypeSimple(t)
  {
    hide BigEndian;
    w.WriteShort(t.code);
    if t.IsArray() {
      w.WriteShort(t.base);
    }
  }

  method WriteDataType(w: RowOutput, t: ColumnType)
    modifies w
    ensures w.buf == old(w.buf) + EncType(t)
  {
    hide BigEndian, EncTypeSimple;
    WriteDataTypeSimple(w, t);
    w.WriteLong(t.precision);
    w.WriteInt(t.scale);
  }

  /** writeDataTypeCodes: the code, and the base code of an array. */
  function EncTypeSimple(t: ColumnType): seq<byte> {
    BigEndian(t.code, 2) + (if t.IsArray() then BigEndian(t.base, 2) else [])
  }

  /** The full descriptor, with precision and scale. */
  function EncType(t: ColumnType): seq<byte> {
    EncTypeSimple(t) + (BigEndian(t.precision, 8) + BigEndian(t.scale, 4))
  }

  function ReadTypeSimple(c: Cursor): (r: (ColumnType, Cursor))
    ensures Follows(c, r.1)
  {
    var (code, d) := ReadFixed(c, 2);
    if code == SQL_ARRAY then
      var (base, e) := ReadFixed(d, 2);
      (ColumnType(code, base, 0, 0), e)
    else (ColumnType(code, 0, 0, 0), d)
  }

  function ReadType(c: Cursor): (r: (ColumnType, Cursor))
    ensures Follows(c, r.1)
  {
    var (t, d) := ReadTypeSimple(c);
    var (precision, e) := ReadFixed(d, 8);
    var (scale, f) := ReadFixed(e, 4);
    (t.(precision := precision, scale := scale), f)
  }

  method ReadDataTypeSimple(r: RowInput) returns (t: ColumnType)
    requires r.Valid()
    modifies r
    ensures r.Valid() && (t, r.Cur()) == ReadTypeSimple(old(r.Cur()))
  {
    hide ReadFixed;
    var code := r.Short();
    t := ColumnType(code, 0, 0, 0);
    if t.IsArray() {
      var base := r.Short();
      t := t.(base := base);
    }
  }

  method ReadDataType(r: RowInput) returns (t: ColumnType)
    requires r.Valid()
    modifies r
    ensures r.Valid() && (t, r.Cur()) == ReadType(old(r.Cur()))
  {
    hide ReadFixed, ReadTypeSimple;
    t := ReadDataTypeSimple(r);
    var precision := r.Long();
    var scale := r.Int();
    t := t.(precision := precision, scale := scale);
  }

  /** The cases of WriteValue's switch other than arrays. */
  method WriteScalar(w: RowOutput, lib: Library, t: ColumnType, v: Value) returns (ok: bool)
    requires t.code != SQL_ARRAY
    modifies w
    ensures var e := EncScalar(lib, t, v); w.buf == old(w.buf) + e.bytes && ok == e.ok
  {
    hide EncString, EncDecimal, EncBytes, BigEndian, KindOf, AsString, AsInt64, AsFloat64, AsBool, AsBytes,
         AsDecimal, TimeOfDaySeconds, DateSeconds;
    ok := true;
    match KindOf(t.code) {
      case AllTypes =>
      case Text => w.WriteString(AsString(lib, v));
      case Integer(k) => WriteInteger(w, AsInt64(lib, v), k);
      case Float => w.WriteLong(AsFloat64(lib, v));
      case Boolean => w.WriteBool(AsBool(v));
      case Exact =>
        match AsDecimal(lib, v, t.scale) {
          case None => ok := false;
          case Some(d) => w.WriteDecimal(d.unscaled, d.scale);
        }
      case Date => w.WriteLong(DateSeconds(AsTime(v)));
      case TimeOfDay(zoned) =>
        var x := AsTime(v);
        w.WriteInt(TimeOfDaySeconds(x));
        w.WriteInt(x.nanos);
        if zoned {
          w.WriteInt(x.zone);
        }
      case Stamp(zoned) =>
        var x := AsTime(v);
        w.WriteLong(x.unix);
        w.WriteInt(x.nanos);
        if zoned {
          w.WriteInt(x.zone);
        }
      case Binary => w.WriteBytes(AsBytes(lib, v));
      case Bits =>
        var b := AsBytes(lib, v);
        w.WriteInt(|b| * 8);
        w.WriteRaw(b);
      case Large(_) =>
        if v.Lob? {
          w.WriteLong(v.id);
        } else {
          ok := false;
        }
      case _ => ok := false;
    }
  }

  method WriteInteger(w: RowOutput, n: int, k: nat)
    requires k == 2 || k == 4 || k == 8
    modifies w
    ensures w.buf == old(w.buf) + BigEndian(n, k)
  {
    hide BigEndian;
    if k == 2 {
      w.WriteShort(n);
    } else if k == 4 {
      w.WriteInt(n);
    } else {
      w.WriteLong(n);
    }
  }

  lemma Append3(a: seq<byte>, b: seq<byte>, c: seq<byte>, d: seq<byte>)
    ensures a + b + c + d == a + (b + (c + d)) && a + b + c == a + (b + c)
  {
  }

  /** WriteValue. */
  method WriteValue(w: RowOutput, lib: Library, t: ColumnType, v: Value) returns (ok: bool)
    modifies w
    ensures var e := EncValue(lib, t, v); w.buf == old(w.buf) + e.bytes && ok == e.ok
    decreases Rank(t), 1
  {
    if v.Null? {
      w.WriteU8(0);
      return true;
    }
    hide EncElems, BigEndian, EncScalar;
    w.WriteU8(1);
    if t.code == SQL_ARRAY {
      if !v.Arr? {
        return false;
      }
      w.WriteInt(|v.values|);
      ok := WriteElems(w, lib, ElemType(t.base), v.values);
      Append3(old(w.buf), [1], BigEndian(|v.values|, 4), EncElems(lib, ElemType(t.base), v.values).bytes);
    } else {
      ok := WriteScalar(w, lib, t, v);
      Append3(old(w.buf), [1], EncScalar(lib, t, v).bytes, []);
    }
  }

  /** The element loop of WriteValue, which returns at the first error. */
  method WriteElems(w: RowOutput, lib: Library, t: ColumnType, vs: seq<Value>) returns (ok: bool)
    modifies w
    ensures var e := EncElems(lib, t, vs); w.buf == old(w.buf) + e.bytes && ok == e.ok
    decreases Rank(t), 2
  {
    hide EncValue;
    ghost var sofar: seq<byte> := [];
    for i := 0 to |vs|
      invariant w.buf == old(w.buf) + sofar
      invariant EncElems(lib, t, vs)
             == Written(sofar + EncElems(lib, t, vs[i..]).bytes, EncElems(lib, t, vs[i..]).ok)
    {
      assert vs[i..][1..] == vs[i + 1..];
      ok := WriteValue(w, lib, t, vs[i]);
      sofar := sofar + EncValue(lib, t, vs[i]).bytes;
      if !ok {
        return;
      }
    }
    assert sofar + [] == sofar;
    ok := true;
  }

  /** The cases of ReadValue's switch other than arrays. */
  method ReadScalarValue(r: RowInput, t: ColumnType) returns (v: Value)
    requires t.code != SQL_ARRAY && r.Valid() && r.err.None?
    modifies r
    ensures r.Valid() && (v, r.Cur()) == ReadScalar(old(r.Cur()), t)
  {
    hide ReadFixed, ReadBytes, ReadString, ReadDecimal, ReadU8, KindOf, Format, Interval.FormatMonths,
         Interval.FormatSeconds;
    match KindOf(t.code) {
      case AllTypes => v := Null;
      case Text =>
        var s := r.String();
        v := Str(s);
      case Integer(k) =>
        var i := ReadInteger(r, k);
        v := Int(i);
      case Float =>
        var i := r.Long();
        v := Double(i);
      case Boolean =>
        var b := r.U8();
        v := Bool(b != 0);
      case Exact =>
        var unscaled, scale := r.Decimal();
        var text := FormatDecimal(unscaled, scale);
        v := Str(text);
      case Date =>
        var sec := r.Long();
        v := Time(sec, 0, 0);
      case TimeOfDay(zoned) =>
        var sec := r.Int();
        var nanos := r.Int();
        var zone := 0;
        if zoned {
          zone := r.Int();
        }
        v := UnixTime(sec - zone, nanos, zone);
      case Stamp(zoned) =>
        var sec := r.Long();
        var nanos := r.Int();
        var zone := 0;
        if zoned {
          zone := r.Int();
        }
        v := UnixTime(sec, nanos, zone);
      case Binary =>
        var b := r.Bytes();
        v := Raw(b);
      case Bits => v := ReadBitString(r);
      case Months(form) =>
        var m := r.Long();
        v := Str(Interval.FormatMonths(form, m));
      case Seconds(form) =>
        var s := r.Long();
        var n := r.Int();
        v := Str(Interval.FormatSeconds(form, s, n));
      case Large(isClob) =>
        var id := r.Long();
        v := Lob(id, isClob);
      case Array => v := Null;
      case Unknown =>
        r.err := Some(BadTypeCode(t.code));
        v := Null;
    }
  }

  method ReadInteger(r: RowInput, k: nat) returns (i: int)
    requires r.Valid() && (k == 2 || k == 4 || k == 8)
    modifies r
    ensures r.Valid() && (i, r.Cur()) == ReadFixed(old(r.Cur()), k)
  {
    if k == 2 {
      i := r.Short();
    } else if k == 4 {
      i := r.Int();
    } else {
      i := r.Long();
    }
  }

  method ReadBitString(r: RowInput) returns (v: Value)
    requires r.Valid()
    modifies r
    ensures r.Valid() && (v, r.Cur()) == ReadBits(old(r.Cur()))
  {
    hide ReadFixed;
    var bits := r.Int();
    var n := Interval.Quot(bits + 7, 8);
    if r.err.Some? || n < 0 {
      return Null;
    }
    var ok := r.Need(n);
    if !ok {
      return Null;
    }
    v := Raw(r.buf[r.pos..r.pos + n]);
    r.pos := r.pos + n;
  }

  /** ReadValue. */
  method ReadValueFrom(r: RowInput, t: ColumnType) returns (v: Value)
    requires r.Valid()
    modifies r
    ensures r.Valid() && (v, r.Cur()) == ReadValue(old(r.Cur()), t)
    decreases Rank(t), 1
  {
    hide ReadU8, ReadFixed, ReadScalar, ReadElems;
    var flag := r.U8();
    if flag == 0 {
      return Null;
    }
    if t.code == SQL_ARRAY {
      v := ReadArray(r, t);
    } else {
      v := ReadScalarValue(r, t);
    }
  }

  /** readArray. */
  method ReadArray(r: RowInput, t: ColumnType) returns (v: Value)
    requires r.Valid() && t.code == SQL_ARRAY
    modifies r
    ensures var (n, e) := ReadFixed(old(r.Cur()), 4);
            && r.Valid()
            && if e.err.Some? || n < 0 then v == Arr([], 0) && r.Cur() == e
               else (v, r.Cur()) == (Arr(ReadElems(e, ElemType(t.base), n).0, t.base),
                                     ReadElems(e, ElemType(t.base), n).1)
    decreases Rank(t), 0
  {
    hide ReadFixed, ReadValue;
    var n := r.Int();
    if r.err.Some? || n < 0 {
      return Arr([], 0);
    }
    var et := ElemType(t.base);
    ghost var start := r.Cur();
    var values := Nulls(n);
    var i := 0;
    while i < n
      invariant 0 <= i <= n && |values| == n && r.Valid() && r.err.None?
      invariant values[i..] == Nulls(n - i)
      invariant ReadElems(start, et, n).0 == values[..i] + ReadElems(r.Cur(), et, n - i).0
      invariant ReadElems(start, et, n).1 == ReadElems(r.Cur(), et, n - i).1
    {
      ghost var before := values;
      var x := ReadValueFrom(r, et);
      values := values[i := x];
      assert values[..i + 1] == before[..i] + [x];
      assert values[i + 1..] == before[i..][1..];
      assert Nulls(n - i)[1..] == Nulls(n - i - 1);
      if r.err.Some? {
        assert values == before[..i] + ([x] + Nulls(n - i - 1));
        break;
      }
      i := i + 1;
    }
    assert r.err.None? ==> values[..n] + [] == values;
    v := Arr(values, t.base);
  }
}

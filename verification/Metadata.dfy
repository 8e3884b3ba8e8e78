/** internal/proto/result.go: the six layouts of result metadata, written and read. */
module Metadata {
  import opened Bytes
  import opened Wire
  import opened Repeat
  import opened Values
  import opened ValueIO

  const META_RESULT := 1
  const META_SIMPLE_RESULT := 2
  const META_UPDATE_RESULT := 3
  const META_PARAM := 4
  const META_GENERATED_IDX := 5
  const META_GENERATED_NAME := 6

  datatype Column = Column(
    typ: ColumnType, caption: string, catalog: string, schema: string, table: string, name: string, attrs: byte)

  datatype Meta = Meta(
    metaType: int, columnCount: int, extendedCount: int,
    types: seq<ColumnType>, columns: seq<Column>, labels: seq<string>, colIndexes: seq<int>)

  /** A Go run-time panic (a negative length or an index out of range) is an outcome of its own. */
  datatype MetaRead = Read(meta: Meta, cur: Cursor) | Panic

  const NO_TYPE := ColumnType(0, 0, 0, 0)

  function Count(n: int): nat {
    if n < 0 then 0 else n
  }

  // ----- one item of each layout

  function EncInt(n: int): seq<byte> {
    BigEndian(n, 4)
  }

  function ReadInt(c: Cursor): (int, Cursor) {
    ReadFixed(c, 4)
  }

  /** A parameter's type, caption and attributes. */
  datatype Param = Param(typ: ColumnType, caption: string, attrs: byte)

  function EncParam(p: Param): seq<byte> {
    EncType(p.typ) + (EncString(p.caption) + [p.attrs])
  }

  function ReadParam(c: Cursor): (Param, Cursor) {
    var (t, d) := ReadType(c);
    var (caption, e) := ReadString(d);
    var (attrs, f) := ReadU8(e);
    (Param(t, caption, attrs), f)
  }

  /** A visible column; its type is stored elsewhere. */
  function EncColumn(c: Column): seq<byte> {
    EncString(c.caption) + (EncString(c.catalog) + (EncString(c.schema)
      + (EncString(c.table) + (EncString(c.name) + [c.attrs]))))
  }

  function ReadColumn(c: Cursor): (Column, Cursor) {
    var (caption, c1) := ReadString(c);
    var (catalog, c2) := ReadString(c1);
    var (schema, c3) := ReadString(c2);
    var (table, c4) := ReadString(c3);
    var (name, c5) := ReadString(c4);
    var (attrs, c6) := ReadU8(c5);
    (Column(NO_TYPE, caption, catalog, schema, table, name, attrs), c6)
  }

  // ----- writeMetadata

  function Params(m: Meta, n: nat): (ps: seq<Param>)
    requires n <= |m.types| && n <= |m.columns|
    ensures |ps| == n
  {
    seq(n, i requires 0 <= i < n => Param(m.types[i], m.columns[i].caption, m.columns[i].attrs))
  }

  /** Whether writeMetadata stays within the slices it indexes. */
  predicate Writable(m: Meta) {
    && (m.metaType == META_PARAM ==> m.columnCount <= |m.types| && m.columnCount <= |m.columns|)
    && (m.metaType == META_RESULT ==> m.extendedCount <= |m.types| && m.columnCount <= |m.columns|)
  }

  function EncBody(m: Meta): seq<byte>
    requires Writable(m)
  {
    if m.metaType == META_SIMPLE_RESULT || m.metaType == META_UPDATE_RESULT then EncAll(EncTypeSimple, m.types)
    else if m.metaType == META_GENERATED_IDX then EncAll(EncInt, m.colIndexes)
    else if m.metaType == META_GENERATED_NAME then EncAll(EncString, m.labels)
    else if m.metaType == META_PARAM then EncAll(EncParam, Params(m, Count(m.columnCount)))
    else if m.metaType == META_RESULT then
      BigEndian(m.extendedCount, 4)
        + (EncAll(EncType, m.types[..Count(m.extendedCount)])
        + (EncAll(EncColumn, m.columns[..Count(m.columnCount)])
        + (if m.columnCount != m.extendedCount then EncAll(EncInt, m.colIndexes) else [])))
    else []
  }

  /** The bytes of writeMetadata; nil metadata is written as an empty simple result. */
  function EncMeta(m: Option<Meta>): seq<byte>
    requires m.Some? ==> Writable(m.value)
  {
    match m
    case None => BigEndian(META_SIMPLE_RESULT, 4) + BigEndian(0, 4)
    case Some(m) => BigEndian(m.metaType, 4) + (BigEndian(m.columnCount, 4) + EncBody(m))
  }

  // ----- readMetadata

  function Typed(columns: seq<Column>, types: seq<ColumnType>): (r: seq<Column>)
    requires |columns| <= |types|
    ensures |r| == |columns|
  {
    seq(|columns|, i requires 0 <= i < |columns| => columns[i].(typ := types[i]))
  }

  function ParamTypes(ps: seq<Param>): (r: seq<ColumnType>)
    ensures |r| == |ps|
  {
    seq(|ps|, i requires 0 <= i < |ps| => ps[i].typ)
  }

  function ParamColumns(ps: seq<Param>): (r: seq<Column>)
    ensures |r| == |ps|
  {
    seq(|ps|, i requires 0 <= i < |ps| => Column(ps[i].typ, ps[i].caption, "", "", "", "", ps[i].attrs))
  }

  /** The RESULT branch, after the two leading integers. */
  function ReadResultMeta(c: Cursor, m: Meta): MetaRead {
    var (ext, d) := ReadFixed(c, 4);
    if ext < 0 || m.columnCount < 0 || m.columnCount > ext then Panic
    else
      var (types, e) := ReadMany(ReadType, d, ext);
      var (columns, f) := ReadMany(ReadColumn, e, m.columnCount);
      var m' := m.(extendedCount := ext, types := types, columns := Typed(columns, types));
      if m.columnCount == ext then Read(m', f)
      else
        var (idx, g) := ReadMany(ReadInt, f, m.columnCount);
        Read(m'.(colIndexes := idx), g)
  }

  function ReadBody(c: Cursor, m: Meta): MetaRead {
    var n := m.columnCount;
    if m.metaType == META_RESULT then ReadResultMeta(c, m)
    else if m.metaType < META_RESULT || m.metaType > META_GENERATED_NAME then
      Read(m, c.(err := Some(BadMetaType(m.metaType))))
    else if n < 0 then Panic
    else if m.metaType == META_GENERATED_IDX then
      var (idx, d) := ReadMany(ReadInt, c, n);
      Read(m.(colIndexes := idx), d)
    else if m.metaType == META_GENERATED_NAME then
      var (labels, d) := ReadMany(ReadString, c, n);
      Read(m.(labels := labels), d)
    else if m.metaType == META_PARAM then
      var (ps, d) := ReadMany(ReadParam, c, n);
      Read(m.(types := ParamTypes(ps), columns := ParamColumns(ps)), d)
    else
      var (types, d) := ReadMany(ReadTypeSimple, c, n);
      Read(m.(types := types), d)
  }

  /** readMetadata. */
  function ReadMeta(c: Cursor): MetaRead {
    var (metaType, d) := ReadFixed(c, 4);
    var (columnCount, e) := ReadFixed(d, 4);
    var m := Meta(metaType, columnCount, 0, [], [], [], []);
    if e.err.Some? then Read(m, e) else ReadBody(e, m)
  }

  // ----- the writer's loops

  method WriteMetadata(w: RowOutput, m: Option<Meta>)
    requires m.Some? ==> Writable(m.value)
    modifies w
    ensures w.buf == old(w.buf) + EncMeta(m)
  {
    hide BigEndian, EncBody;
    match m {
      case None =>
        w.WriteInt(META_SIMPLE_RESULT);
        w.WriteInt(0);
      case Some(m) =>
        w.WriteInt(m.metaType);
        w.WriteInt(m.columnCount);
        WriteBody(w, m);
        assert w.buf == old(w.buf) + (BigEndian(m.metaType, 4) + (BigEndian(m.columnCount, 4) + EncBody(m)));
    }
  }

  method WriteBody(w: RowOutput, m: Meta)
    requires Writable(m)
    modifies w
    ensures w.buf == old(w.buf) + EncBody(m)
  {
    hide BigEndian, EncTypeSimple, EncType, EncString, EncParam, EncColumn, EncAll;
    if m.metaType == META_SIMPLE_RESULT || m.metaType == META_UPDATE_RESULT {
      WriteTypesSimple(w, m.types);
    } else if m.metaType == META_GENERATED_IDX {
      WriteInts(w, m.colIndexes);
    } else if m.metaType == META_GENERATED_NAME {
      WriteStrings(w, m.labels);
    } else if m.metaType == META_PARAM {
      WriteParams(w, m);
    } else if m.metaType == META_RESULT {
      w.WriteInt(m.extendedCount);
      WriteTypes(w, m.types[..Count(m.extendedCount)]);
      WriteColumns(w, m.columns[..Count(m.columnCount)]);
      if m.columnCount != m.extendedCount {
        WriteInts(w, m.colIndexes);
      }
      assert w.buf == old(w.buf) + EncBody(m);
    }
  }

  method WriteTypesSimple(w: RowOutput, ts: seq<ColumnType>)
    modifies w
    ensures w.buf == old(w.buf) + EncAll(EncTypeSimple, ts)
  {
    hide EncTypeSimple;
    for i := 0 to |ts|
      invariant w.buf == old(w.buf) + EncAll(EncTypeSimple, ts[..i])
    {
      WriteDataTypeSimple(w, ts[i]);
      EncAllLast(EncTypeSimple, ts[..i], ts[i]);
      assert ts[..i + 1] == ts[..i] + [ts[i]];
    }
    assert ts[..|ts|] == ts;
  }

  method WriteTypes(w: RowOutput, ts: seq<ColumnType>)
    modifies w
    ensures w.buf == old(w.buf) + EncAll(EncType, ts)
  {
    hide EncType;
    for i := 0 to |ts|
      invariant w.buf == old(w.buf) + EncAll(EncType, ts[..i])
    {
      WriteDataType(w, ts[i]);
      EncAllLast(EncType, ts[..i], ts[i]);
      assert ts[..i + 1] == ts[..i] + [ts[i]];
    }
    assert ts[..|ts|] == ts;
  }

  method WriteInts(w: RowOutput, ns: seq<int>)
    modifies w
    ensures w.buf == old(w.buf) + EncAll(EncInt, ns)
  {
    hide BigEndian;
    for i := 0 to |ns|
      invariant w.buf == old(w.buf) + EncAll(EncInt, ns[..i])
    {
      w.WriteInt(ns[i]);
      EncAllLast(EncInt, ns[..i], ns[i]);
      assert ns[..i + 1] == ns[..i] + [ns[i]];
    }
    assert ns[..|ns|] == ns;
  }

  method WriteStrings(w: RowOutput, ss: seq<string>)
    modifies w
    ensures w.buf == old(w.buf) + EncAll(EncString, ss)
  {
    hide EncString;
    for i := 0 to |ss|
      invariant w.buf == old(w.buf) + EncAll(EncString, ss[..i])
    {
      w.WriteString(ss[i]);
      EncAllLast(EncString, ss[..i], ss[i]);
      assert ss[..i + 1] == ss[..i] + [ss[i]];
    }
    assert ss[..|ss|] == ss;
  }

  method WriteParams(w: RowOutput, m: Meta)
    requires m.columnCount <= |m.types| && m.columnCount <= |m.columns|
    modifies w
    ensures w.buf == old(w.buf) + EncAll(EncParam, Params(m, Count(m.columnCount)))
  {
    hide EncType, EncString;
    var n := Count(m.columnCount);
    ghost var ps := Params(m, n);
    for i := 0 to n
      invariant w.buf == old(w.buf) + EncAll(EncParam, ps[..i])
    {
      ghost var before := w.buf;
      WriteDataType(w, m.types[i]);
      w.WriteString(m.columns[i].caption);
      w.WriteU8(m.columns[i].attrs);
      assert w.buf == before + EncParam(ps[i]);
      EncAllLast(EncParam, ps[..i], ps[i]);
      assert ps[..i + 1] == ps[..i] + [ps[i]];
    }
    assert ps[..n] == ps;
  }

  method WriteColumn(w: RowOutput, c: Column)
    modifies w
    ensures w.buf == old(w.buf) + EncColumn(c)
  {
    hide EncString;
    w.WriteString(c.caption);
    w.WriteString(c.catalog);
    w.WriteString(c.schema);
    w.WriteString(c.table);
    w.WriteString(c.name);
    w.WriteU8(c.attrs);
    assert w.buf == old(w.buf) + EncColumn(c);
  }

  method WriteColumns(w: RowOutput, cs: seq<Column>)
    modifies w
    ensures w.buf == old(w.buf) + EncAll(EncColumn, cs)
  {
    hide EncColumn;
    for i := 0 to |cs|
      invariant w.buf == old(w.buf) + EncAll(EncColumn, cs[..i])
    {
      WriteColumn(w, cs[i]);
      EncAllLast(EncColumn, cs[..i], cs[i]);
      assert cs[..i + 1] == cs[..i] + [cs[i]];
    }
    assert cs[..|cs|] == cs;
  }

  // ----- the reader's loops

  method ReadTypesSimple(r: RowInput, n: nat) returns (ts: seq<ColumnType>)
    requires r.Valid()
    modifies r
    ensures r.Valid() && (ts, r.Cur()) == ReadMany(ReadTypeSimple, old(r.Cur()), n)
  {
    hide ReadTypeSimple;
    ts := [];
    for i := 0 to n
      invariant r.Valid() && (ts, r.Cur()) == ReadMany(ReadTypeSimple, old(r.Cur()), i)
    {
      ReadManyLast(ReadTypeSimple, old(r.Cur()), i);
      var t := ReadDataTypeSimple(r);
      ts := ts + [t];
    }
  }

  method ReadTypes(r: RowInput, n: nat) returns (ts: seq<ColumnType>)
    requires r.Valid()
    modifies r
    ensures r.Valid() && (ts, r.Cur()) == ReadMany(ReadType, old(r.Cur()), n)
  {
    hide ReadType;
    ts := [];
    for i := 0 to n
      invariant r.Valid() && (ts, r.Cur()) == ReadMany(ReadType, old(r.Cur()), i)
    {
      ReadManyLast(ReadType, old(r.Cur()), i);
      var t := ReadDataType(r);
      ts := ts + [t];
    }
  }

  method ReadInts(r: RowInput, n: nat) returns (ns: seq<int>)
    requires r.Valid()
    modifies r
    ensures r.Valid() && (ns, r.Cur()) == ReadMany(ReadInt, old(r.Cur()), n)
  {
    hide ReadFixed;
    ns := [];
    for i := 0 to n
      invariant r.Valid() && (ns, r.Cur()) == ReadMany(ReadInt, old(r.Cur()), i)
    {
      ReadManyLast(ReadInt, old(r.Cur()), i);
      var x := r.Int();
      ns := ns + [x];
    }
  }

  method ReadStrings(r: RowInput, n: nat) returns (ss: seq<string>)
    requires r.Valid()
    modifies r
    ensures r.Valid() && (ss, r.Cur()) == ReadMany(ReadString, old(r.Cur()), n)
  {
    hide ReadString;
    ss := [];
    for i := 0 to n
      invariant r.Valid() && (ss, r.Cur()) == ReadMany(ReadString, old(r.Cur()), i)
    {
      ReadManyLast(ReadString, old(r.Cur()), i);
      var s := r.String();
      ss := ss + [s];
    }
  }

  method ReadParams(r: RowInput, n: nat) returns (ps: seq<Param>)
    requires r.Valid()
    modifies r
    ensures r.Valid() && (ps, r.Cur()) == ReadMany(ReadParam, old(r.Cur()), n)
  {
    hide ReadType, ReadString, ReadU8;
    ps := [];
    for i := 0 to n
      invariant r.Valid() && (ps, r.Cur()) == ReadMany(ReadParam, old(r.Cur()), i)
    {
      ReadManyLast(ReadParam, old(r.Cur()), i);
      var t := ReadDataType(r);
      var caption := r.String();
      var attrs := r.U8();
      ps := ps + [Param(t, caption, attrs)];
    }
  }

  method ReadColumns(r: RowInput, n: nat) returns (cs: seq<Column>)
    requires r.Valid()
    modifies r
    ensures r.Valid() && (cs, r.Cur()) == ReadMany(ReadColumn, old(r.Cur()), n)
  {
    hide ReadString, ReadU8;
    cs := [];
    for i := 0 to n
      invariant r.Valid() && (cs, r.Cur()) == ReadMany(ReadColumn, old(r.Cur()), i)
    {
      ReadManyLast(ReadColumn, old(r.Cur()), i);
      var caption := r.String();
      var catalog := r.String();
      var schema := r.String();
      var table := r.String();
      var name := r.String();
      var attrs := r.U8();
      cs := cs + [Column(NO_TYPE, caption, catalog, schema, table, name, attrs)];
    }
  }

  /** readMetadata; `None` stands for the panic. */
  method ReadMetadata(r: RowInput) returns (m: Option<Meta>)
    requires r.Valid()
    modifies r
    ensures r.Valid()
    ensures match ReadMeta(old(r.Cur()))
            case Panic => m == None
            case Read(x, c) => m == Some(x) && r.Cur() == c
  {
    hide ReadFixed, ReadMany, ReadTypeSimple, ReadType, ReadString, ReadParam, ReadColumn;
    var metaType := r.Int();
    var n := r.Int();
    var x := Meta(metaType, n, 0, [], [], [], []);
    if r.err.Some? {
      return Some(x);
    }
    if metaType == META_RESULT {
      m := ReadResultMetadata(r, x);
      return;
    }
    if metaType < META_RESULT || metaType > META_GENERATED_NAME {
      r.err := Some(BadMetaType(metaType));
      return Some(x);
    }
    if n < 0 {
      return None;
    }
    if metaType == META_GENERATED_IDX {
      var idx := ReadInts(r, n);
      x := x.(colIndexes := idx);
    } else if metaType == META_GENERATED_NAME {
      var labels := ReadStrings(r, n);
      x := x.(labels := labels);
    } else if metaType == META_PARAM {
      var ps := ReadParams(r, n);
      x := x.(types := ParamTypes(ps), columns := ParamColumns(ps));
    } else {
      var types := ReadTypesSimple(r, n);
      x := x.(types := types);
    }
    return Some(x);
  }

  method ReadResultMetadata(r: RowInput, m: Meta) returns (out: Option<Meta>)
    requires r.Valid()
    modifies r
    ensures r.Valid()
    ensures match ReadResultMeta(old(r.Cur()), m)
            case Panic => out == None
            case Read(x, c) => out == Some(x) && r.Cur() == c
  {
    hide ReadFixed, ReadMany, ReadType, ReadColumn;
    var ext := r.Int();
    if ext < 0 || m.columnCount < 0 || m.columnCount > ext {
      return None;
    }
    var types := ReadTypes(r, ext);
    var columns := ReadColumns(r, m.columnCount);
    var x := m.(extendedCount := ext, types := types, columns := Typed(columns, types));
    if m.columnCount != ext {
      var idx := ReadInts(r, m.columnCount);
      x := x.(colIndexes := idx);
    }
    return Some(x);
  }
}

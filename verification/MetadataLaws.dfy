/** readMetadata undoes writeMetadata, and what it does when the input is cut. */
module MetadataLaws {
  import opened Bytes
  import opened Wire
  import opened Repeat
  import opened Values
  import opened ValueIO
  import opened Metadata
  import ModifiedUtf8

  predicate SizedText(s: string) {
    |ModifiedUtf8.Encode(s)| < INT32_LIMIT
  }

  /** A descriptor without precision and scale; only arrays have a base code. */
  predicate SimpleType(t: ColumnType) {
    && Fits(t.code, 2) && (if t.IsArray() then Fits(t.base, 2) else t.base == 0)
    && t.precision == 0 && t.scale == 0
  }

  predicate FullType(t: ColumnType) {
    SimpleType(t.(precision := 0, scale := 0)) && Fits(t.precision, 8) && Fits(t.scale, 4)
  }

  predicate SizedColumn(c: Column) {
    SizedText(c.caption) && SizedText(c.catalog) && SizedText(c.schema) && SizedText(c.table) && SizedText(c.name)
  }

  /** Every slice the layout does not use is empty. */
  predicate OnlyUses(m: Meta, types: bool, columns: bool, labels: bool, indexes: bool) {
    && (types || m.types == []) && (columns || m.columns == [])
    && (labels || m.labels == []) && (indexes || m.colIndexes == [])
  }

  predicate WellFormedTypes(m: Meta) {
    && m.columnCount == |m.types| && m.extendedCount == 0 && OnlyUses(m, true, false, false, false)
    && forall t | t in m.types :: SimpleType(t)
  }

  predicate WellFormedParam(m: Meta) {
    && m.columnCount == |m.types| == |m.columns| && m.extendedCount == 0 && OnlyUses(m, true, true, false, false)
    && (forall t | t in m.types :: FullType(t))
    && forall i | 0 <= i < |m.columns| ::
         && SizedText(m.columns[i].caption)
         && m.columns[i] == Column(m.types[i], m.columns[i].caption, "", "", "", "", m.columns[i].attrs)
  }

  predicate WellFormedResult(m: Meta) {
    && m.columnCount == |m.columns| <= |m.types| == m.extendedCount && OnlyUses(m, true, true, false, true)
    && |m.colIndexes| == (if m.columnCount == m.extendedCount then 0 else m.columnCount)
    && (forall n | n in m.colIndexes :: Fits(n, 4))
    && (forall t | t in m.types :: FullType(t))
    && forall i | 0 <= i < |m.columns| :: SizedColumn(m.columns[i]) && m.columns[i].typ == m.types[i]
  }

  /** Metadata of one of the six kinds, its slices as long as its counts say. */
  predicate WellFormed(m: Meta) {
    && Fits(m.columnCount, 4) && Fits(m.extendedCount, 4)
    && if m.metaType == META_SIMPLE_RESULT || m.metaType == META_UPDATE_RESULT then WellFormedTypes(m)
       else if m.metaType == META_GENERATED_IDX then
         && m.columnCount == |m.colIndexes| && m.extendedCount == 0 && OnlyUses(m, false, false, false, true)
         && forall n | n in m.colIndexes :: Fits(n, 4)
       else if m.metaType == META_GENERATED_NAME then
         && m.columnCount == |m.labels| && m.extendedCount == 0 && OnlyUses(m, false, false, true, false)
         && forall s | s in m.labels :: SizedText(s)
       else if m.metaType == META_PARAM then WellFormedParam(m)
       else m.metaType == META_RESULT && WellFormedResult(m)
  }

  // ----- each kind of item is recovered

  lemma TypeSimpleReads(c: Cursor, t: ColumnType)
    requires SimpleType(t)
    ensures ReadsAs(c, EncTypeSimple(t), ReadTypeSimple(c), t)
  {
    hide BigEndian, ReadFixed, Fits;
    FixedReads(c, t.code, 2);
    var (code, d) := ReadFixed(c, 2);
    if t.IsArray() {
      FixedReads(d, t.base, 2);
      ThenRecovered(c, BigEndian(t.code, 2), t.code, ReadFixed(c, 2), BigEndian(t.base, 2), t.base, ReadFixed(d, 2));
      if Cut(c, EncTypeSimple(t)) && d.err.None? {
        CutSplit(c, BigEndian(t.code, 2), BigEndian(t.base, 2));
        FixedCodec(c, t.code, 2);
      }
    } else {
      assert BigEndian(t.code, 2) + [] == BigEndian(t.code, 2);
    }
  }

  lemma TypeReads(c: Cursor, t: ColumnType)
    requires FullType(t)
    ensures ReadsAs(c, EncType(t), ReadType(c), t)
  {
    var s := t.(precision := 0, scale := 0);
    TypeSimpleReads(c, s);
    hide BigEndian, ReadFixed, Fits, ReadTypeSimple, SimpleType;
    assert EncTypeSimple(s) == EncTypeSimple(t);
    hide EncTypeSimple;
    var (u, d) := ReadTypeSimple(c);
    var (p, e) := ReadFixed(d, 8);
    FixedReads(d, t.precision, 8);
    FixedReads(e, t.scale, 4);
    var tail := ((p, ReadFixed(e, 4).0), ReadFixed(e, 4).1);
    var tailBytes := BigEndian(t.precision, 8) + BigEndian(t.scale, 4);
    ThenRecovered(d, BigEndian(t.precision, 8), t.precision, ReadFixed(d, 8),
                  BigEndian(t.scale, 4), t.scale, ReadFixed(e, 4));
    ThenRecovered(c, EncTypeSimple(t), s, ReadTypeSimple(c), tailBytes, (t.precision, t.scale), tail);
  }

  lemma StringReads(c: Cursor, s: string)
    requires SizedText(s)
    ensures ReadsAs(c, EncString(s), ReadString(c), s)
  {
    hide EncString, ReadString;
    StringCodec(c, s);
  }

  lemma U8Reads(c: Cursor, b: byte)
    ensures ReadsAs(c, [b], ReadU8(c), b)
  {
  }

  lemma ParamReads(c: Cursor, p: Param)
    requires FullType(p.typ) && SizedText(p.caption)
    ensures ReadsAs(c, EncParam(p), ReadParam(c), p)
  {
    hide EncType, EncString, ReadType, ReadString, ReadU8, FullType, SizedText;
    TypeReads(c, p.typ);
    var d := ReadType(c).1;
    StringReads(d, p.caption);
    var e := ReadString(d).1;
    U8Reads(e, p.attrs);
    ThenRecovered(d, EncString(p.caption), p.caption, ReadString(d), [p.attrs], p.attrs, ReadU8(e));
    var tail := ((ReadString(d).0, ReadU8(e).0), ReadU8(e).1);
    ThenRecovered(c, EncType(p.typ), p.typ, ReadType(c), EncString(p.caption) + [p.attrs], (p.caption, p.attrs), tail);
  }

  /** The tail of a column, last string and attributes first, one string longer at each step. */
  lemma ColumnReads(c: Cursor, x: Column)
    requires SizedColumn(x) && x.typ == NO_TYPE
    ensures ReadsAs(c, EncColumn(x), ReadColumn(c), x)
  {
    hide EncString, ReadString, ReadU8, SizedText;
    var (s1, c1) := ReadString(c);
    var (s2, c2) := ReadString(c1);
    var (s3, c3) := ReadString(c2);
    var (s4, c4) := ReadString(c3);
    var (s5, c5) := ReadString(c4);
    var (a, c6) := ReadU8(c5);
    StringReads(c, x.caption);
    StringReads(c1, x.catalog);
    StringReads(c2, x.schema);
    StringReads(c3, x.table);
    StringReads(c4, x.name);
    U8Reads(c5, x.attrs);
    var b5 := EncString(x.name) + [x.attrs];
    ThenRecovered(c4, EncString(x.name), x.name, ReadString(c4), [x.attrs], x.attrs, ReadU8(c5));
    var b4 := EncString(x.table) + b5;
    ThenRecovered(c3, EncString(x.table), x.table, ReadString(c3), b5, (x.name, x.attrs), ((s5, a), c6));
    var b3 := EncString(x.schema) + b4;
    ThenRecovered(c2, EncString(x.schema), x.schema, ReadString(c2), b4, (x.table, (x.name, x.attrs)), ((s4, (s5, a)), c6));
    var b2 := EncString(x.catalog) + b3;
    ThenRecovered(c1, EncString(x.catalog), x.catalog, ReadString(c1), b3,
                  (x.schema, (x.table, (x.name, x.attrs))), ((s3, (s4, (s5, a))), c6));
    ThenRecovered(c, EncString(x.caption), x.caption, ReadString(c), b2,
                  (x.catalog, (x.schema, (x.table, (x.name, x.attrs)))), ((s2, (s3, (s4, (s5, a)))), c6));
    assert EncColumn(x) == EncString(x.caption) + b2;
  }

  // ----- sequences of items

  lemma TypesSimpleRecovered(c: Cursor, ts: seq<ColumnType>)
    requires forall t | t in ts :: SimpleType(t)
    ensures ReadsAs(c, EncAll(EncTypeSimple, ts), ReadMany(ReadTypeSimple, c, |ts|), ts)
  {
    hide SimpleType, EncTypeSimple, ReadTypeSimple, ReadsAs;
    forall t, d: Cursor | t in ts ensures ReadsAs(d, EncTypeSimple(t), ReadTypeSimple(d), t) {
      TypeSimpleReads(d, t);
    }
    ManyRecovered(EncTypeSimple, ReadTypeSimple, ts, c);
  }

  lemma TypesRecovered(c: Cursor, ts: seq<ColumnType>)
    requires forall t | t in ts :: FullType(t)
    ensures ReadsAs(c, EncAll(EncType, ts), ReadMany(ReadType, c, |ts|), ts)
    ensures Follows(c, ReadMany(ReadType, c, |ts|).1)
  {
    hide FullType, EncType, ReadType, ReadsAs;
    forall t, d: Cursor | t in ts ensures ReadsAs(d, EncType(t), ReadType(d), t) {
      TypeReads(d, t);
    }
    ManyRecovered(EncType, ReadType, ts, c);
    ReadManyFollows(ReadType, c, |ts|);
  }

  lemma IntsRecovered(c: Cursor, ns: seq<int>)
    requires forall n | n in ns :: Fits(n, 4)
    ensures ReadsAs(c, EncAll(EncInt, ns), ReadMany(ReadInt, c, |ns|), ns)
    ensures Follows(c, ReadMany(ReadInt, c, |ns|).1)
  {
    hide ReadFixed, ReadsAs, BigEndian, Fits;
    forall n, d: Cursor | n in ns ensures ReadsAs(d, EncInt(n), ReadInt(d), n) {
      FixedReads(d, n, 4);
    }
    ManyRecovered(EncInt, ReadInt, ns, c);
    ReadManyFollows(ReadInt, c, |ns|);
  }

  lemma StringsRecovered(c: Cursor, ss: seq<string>)
    requires forall s | s in ss :: SizedText(s)
    ensures ReadsAs(c, EncAll(EncString, ss), ReadMany(ReadString, c, |ss|), ss)
  {
    hide SizedText, EncString, ReadString, ReadsAs;
    forall s, d: Cursor | s in ss ensures ReadsAs(d, EncString(s), ReadString(d), s) {
      StringReads(d, s);
    }
    ManyRecovered(EncString, ReadString, ss, c);
  }

  lemma ParamReader()
    ensures Reader(ReadParam)
  {
  }

  lemma ParamsRecovered(c: Cursor, ps: seq<Param>)
    requires forall p | p in ps :: FullType(p.typ) && SizedText(p.caption)
    ensures ReadsAs(c, EncAll(EncParam, ps), ReadMany(ReadParam, c, |ps|), ps)
  {
    ParamReader();
    hide FullType, SizedText, EncParam, ReadParam, ReadsAs;
    forall p, d: Cursor | p in ps ensures ReadsAs(d, EncParam(p), ReadParam(d), p) {
      ParamReads(d, p);
    }
    ManyRecovered(EncParam, ReadParam, ps, c);
  }

  function Untyped(cs: seq<Column>): (r: seq<Column>)
    ensures |r| == |cs|
  {
    seq(|cs|, i requires 0 <= i < |cs| => cs[i].(typ := NO_TYPE))
  }

  lemma {:induction false} EncUntyped(cs: seq<Column>)
    ensures EncAll(EncColumn, Untyped(cs)) == EncAll(EncColumn, cs)
  {
    hide EncString;
    if cs != [] {
      assert Untyped(cs)[1..] == Untyped(cs[1..]);
      EncUntyped(cs[1..]);
    }
  }

  lemma ColumnReader()
    ensures Reader(ReadColumn)
  {
  }

  lemma ColumnsRecovered(c: Cursor, cs: seq<Column>)
    requires forall i | 0 <= i < |cs| :: SizedColumn(cs[i])
    ensures ReadsAs(c, EncAll(EncColumn, cs), ReadMany(ReadColumn, c, |cs|), Untyped(cs))
    ensures Follows(c, ReadMany(ReadColumn, c, |cs|).1)
  {
    ColumnReader();
    EncUntyped(cs);
    var us := Untyped(cs);
    hide SizedText, EncColumn, ReadColumn, ReadsAs;
    forall u, d: Cursor | u in us ensures ReadsAs(d, EncColumn(u), ReadColumn(d), u) {
      ColumnReads(d, u);
    }
    ManyRecovered(EncColumn, ReadColumn, us, c);
    ReadManyFollows(ReadColumn, c, |cs|);
  }

  // ----- whole metadata

  /** What is promised of reading the body `bs` of well-formed metadata. */
  ghost predicate BodyReadsAs(c: Cursor, bs: seq<byte>, got: MetaRead, m: Meta) {
    && (At(c, bs) ==> c.pos + |bs| <= |c.buf| && got == Read(m, Skip(c, |bs|)))
    && (Cut(c, bs) ==> got.Panic? || got.cur.err.Some?)
  }

  function Head(m: Meta): Meta {
    Meta(m.metaType, m.columnCount, 0, [], [], [], [])
  }

  lemma ParamBody(c: Cursor, m: Meta)
    requires WellFormed(m) && m.metaType == META_PARAM
    ensures BodyReadsAs(c, EncBody(m), ReadBody(c, Head(m)), m)
  {
    hide EncParam, ReadParam, FullType, SizedText, Fits, EncAll, ReadMany;
    var ps := Params(m, m.columnCount);
    ParamsRecovered(c, ps);
    assert ParamTypes(ps) == m.types;
    assert ParamColumns(ps) == m.columns;
  }

  lemma NoReads<T(!new)>(read: Cursor -> (T, Cursor), c: Cursor)
    ensures ReadMany(read, c, 0) == ([], c)
  {
  }

  lemma ResultBody(c: Cursor, m: Meta)
    requires WellFormed(m) && m.metaType == META_RESULT
    requires At(c, EncBody(m)) || Cut(c, EncBody(m))
    ensures BodyReadsAs(c, EncBody(m), ReadBody(c, Head(m)), m)
    ensures ReadBody(c, Head(m)).Panic? <==> m.columnCount > 0 && |c.buf| - c.pos < 4
  {
    hide EncType, ReadType, EncColumn, ReadColumn, FullType, SizedText, SizedColumn, Fits, EncAll, ReadMany,
         BigEndian, ReadFixed;
    var idxBytes := if m.columnCount != m.extendedCount then EncAll(EncInt, m.colIndexes) else [];
    var a, b, cols := BigEndian(m.extendedCount, 4), EncAll(EncType, m.types), EncAll(EncColumn, m.columns);
    assert m.types[..m.extendedCount] == m.types && m.columns[..m.columnCount] == m.columns;
    assert EncBody(m) == a + (b + (cols + idxBytes));
    FixedReads(c, m.extendedCount, 4);
    var (ext, d) := ReadFixed(c, 4);
    if Cut(c, EncBody(m)) {
      CutSplit(c, a, b + (cols + idxBytes));
    } else {
      AtSplit(c, a, b + (cols + idxBytes));
    }
    if d.err.Some? {
      assert Cut(c, a);
      assert ext == 0;
      NoReads(ReadType, d);
      NoReads(ReadColumn, d);
    } else {
      assert At(c, a);
      assert ext == m.extendedCount;
      ResultTail(d, m);
    }
  }

  /** After the extended count: types, columns and the index map. */
  lemma ResultTail(d: Cursor, m: Meta)
    requires WellFormed(m) && m.metaType == META_RESULT
    ensures var idxBytes := if m.columnCount != m.extendedCount then EncAll(EncInt, m.colIndexes) else [];
            var bs := EncAll(EncType, m.types) + (EncAll(EncColumn, m.columns) + idxBytes);
            var (types, e) := ReadMany(ReadType, d, m.extendedCount);
            var (columns, f) := ReadMany(ReadColumn, e, m.columnCount);
            var (idx, g) := if m.columnCount == m.extendedCount then ([], f) else ReadMany(ReadInt, f, m.columnCount);
            && (At(d, bs) ==> d.pos + |bs| <= |d.buf| && types == m.types && columns == Untyped(m.columns)
                              && Typed(columns, types) == m.columns && idx == m.colIndexes && g == Skip(d, |bs|))
            && (Cut(d, bs) ==> g.err.Some?)
  {
    hide EncType, ReadType, EncColumn, ReadColumn, FullType, SizedText, SizedColumn, Fits, EncAll, ReadMany;
    TypesRecovered(d, m.types);
    var e := ReadMany(ReadType, d, m.extendedCount).1;
    ColumnsRecovered(e, m.columns);
    var f := ReadMany(ReadColumn, e, m.columnCount).1;
    var idxBytes := if m.columnCount != m.extendedCount then EncAll(EncInt, m.colIndexes) else [];
    var (idx, g) := if m.columnCount == m.extendedCount then ([], f) else ReadMany(ReadInt, f, m.columnCount);
    IntsRecovered(f, m.colIndexes);
    assert ReadsAs(f, idxBytes, (idx, g), m.colIndexes);
    var cols := EncAll(EncColumn, m.columns);
    ThenRecovered(e, cols, Untyped(m.columns), ReadMany(ReadColumn, e, m.columnCount), idxBytes, m.colIndexes, (idx, g));
    var tail := ((ReadMany(ReadColumn, e, m.columnCount).0, idx), g);
    ThenRecovered(d, EncAll(EncType, m.types), m.types, ReadMany(ReadType, d, m.extendedCount),
                  cols + idxBytes, (Untyped(m.columns), m.colIndexes), tail);
    assert Typed(Untyped(m.columns), m.types) == m.columns;
  }

  lemma BodyReads(c: Cursor, m: Meta)
    requires WellFormed(m)
    requires At(c, EncBody(m)) || Cut(c, EncBody(m))
    ensures BodyReadsAs(c, EncBody(m), ReadBody(c, Head(m)), m)
    ensures ReadBody(c, Head(m)).Panic? <==>
              m.metaType == META_RESULT && m.columnCount > 0 && |c.buf| - c.pos < 4
  {
    hide FullType, SimpleType, SizedText, SizedColumn, Fits, EncAll, ReadMany, ReadFixed;
    if m.metaType == META_RESULT {
      ResultBody(c, m);
    } else if m.metaType == META_PARAM {
      ParamBody(c, m);
    } else if m.metaType == META_GENERATED_IDX {
      IntsRecovered(c, m.colIndexes);
    } else if m.metaType == META_GENERATED_NAME {
      StringsRecovered(c, m.labels);
    } else {
      TypesSimpleRecovered(c, m.types);
    }
  }

  lemma WellFormedWritable(m: Meta)
    requires WellFormed(m)
    ensures Writable(m)
  {
  }

  /** The two leading integers, whole or cut. */
  lemma WellFormedReads(c: Cursor, m: Meta)
    requires WellFormed(m)
    requires At(c, EncMeta(Some(m))) || Cut(c, EncMeta(Some(m)))
    ensures At(c, EncMeta(Some(m))) ==>
              && c.pos + |EncMeta(Some(m))| <= |c.buf|
              && ReadMeta(c) == Read(m, Skip(c, |EncMeta(Some(m))|))
    ensures Cut(c, EncMeta(Some(m))) ==> ReadMeta(c).Panic? || ReadMeta(c).cur.err.Some?
    ensures ReadMeta(c).Panic? <==>
              m.metaType == META_RESULT && m.columnCount > 0 && 8 <= |c.buf| - c.pos < 12
  {
    hide BigEndian, ReadFixed, EncBody, ReadBody, WellFormedTypes, WellFormedParam, WellFormedResult, SizedText;
    WellFormedWritable(m);
    var a, b, body := BigEndian(m.metaType, 4), BigEndian(m.columnCount, 4), EncBody(m);
    Int32Range(m.metaType);
    FixedReads(c, m.metaType, 4);
    var d := ReadFixed(c, 4).1;
    FixedReads(d, m.columnCount, 4);
    var e := ReadFixed(d, 4).1;
    if At(c, a + (b + body)) {
      AtSplit(c, a, b + body);
      AtSplit(d, b, body);
      BodyReads(e, m);
    } else {
      CutSplit(c, a, b + body);
      if At(c, a) {
        CutSplit(d, b, body);
        if At(d, b) {
          BodyReads(e, m);
        }
      }
    }
  }

  // ----- what the layouts store of any metadata

  /** A descriptor of the layouts that carry no precision and scale; only arrays have a base code. */
  function SimpleOf(t: ColumnType): ColumnType {
    ColumnType(t.code, if t.IsArray() then t.base else 0, 0, 0)
  }

  function FullOf(t: ColumnType): ColumnType {
    t.(base := if t.IsArray() then t.base else 0)
  }

  function SimpleOnes(ts: seq<ColumnType>): (r: seq<ColumnType>)
    ensures |r| == |ts|
  {
    seq(|ts|, i requires 0 <= i < |ts| => SimpleOf(ts[i]))
  }

  function FullOnes(ts: seq<ColumnType>): (r: seq<ColumnType>)
    ensures |r| == |ts|
  {
    seq(|ts|, i requires 0 <= i < |ts| => FullOf(ts[i]))
  }

  function CaptionsOnly(cs: seq<Column>, ts: seq<ColumnType>): (r: seq<Column>)
    requires |cs| == |ts|
    ensures |r| == |cs|
  {
    seq(|cs|, i requires 0 <= i < |cs| => Column(ts[i], cs[i].caption, "", "", "", "", cs[i].attrs))
  }

  predicate CodesFit(t: ColumnType) {
    Fits(t.code, 2) && (t.IsArray() ==> Fits(t.base, 2))
  }

  predicate DescriptorFits(t: ColumnType) {
    CodesFit(t) && Fits(t.precision, 8) && Fits(t.scale, 4)
  }

  predicate ParamFits(m: Meta) {
    && 0 <= m.columnCount <= |m.types| && m.columnCount <= |m.columns|
    && forall i | 0 <= i < m.columnCount :: DescriptorFits(m.types[i]) && SizedText(m.columns[i].caption)
  }

  predicate ResultFits(m: Meta) {
    && Fits(m.extendedCount, 4) && 0 <= m.columnCount <= m.extendedCount <= |m.types| && m.columnCount <= |m.columns|
    && (forall i | 0 <= i < m.extendedCount :: DescriptorFits(m.types[i]))
    && (forall i | 0 <= i < m.columnCount :: SizedColumn(m.columns[i]))
    && (m.columnCount != m.extendedCount ==> |m.colIndexes| == m.columnCount && forall n | n in m.colIndexes :: Fits(n, 4))
  }

  /** The counts say how much the layout writes, and everything it writes is in range. */
  predicate Storable(m: Meta) {
    && Fits(m.columnCount, 4)
    && if m.metaType == META_SIMPLE_RESULT || m.metaType == META_UPDATE_RESULT then
         m.columnCount == |m.types| && forall t | t in m.types :: CodesFit(t)
       else if m.metaType == META_GENERATED_IDX then
         m.columnCount == |m.colIndexes| && forall n | n in m.colIndexes :: Fits(n, 4)
       else if m.metaType == META_GENERATED_NAME then
         m.columnCount == |m.labels| && forall s | s in m.labels :: SizedText(s)
       else if m.metaType == META_PARAM then ParamFits(m)
       else m.metaType == META_RESULT && ResultFits(m)
  }

  /** What is left of metadata on the wire: the layout's own fields, and nothing else. */
  function Stored(m: Meta): Meta
    requires Storable(m)
  {
    var blank := Head(m);
    if m.metaType == META_SIMPLE_RESULT || m.metaType == META_UPDATE_RESULT then blank.(types := SimpleOnes(m.types))
    else if m.metaType == META_GENERATED_IDX then blank.(colIndexes := m.colIndexes)
    else if m.metaType == META_GENERATED_NAME then blank.(labels := m.labels)
    else if m.metaType == META_PARAM then
      var ts := FullOnes(m.types[..m.columnCount]);
      blank.(types := ts, columns := CaptionsOnly(m.columns[..m.columnCount], ts))
    else
      var ts := FullOnes(m.types[..m.extendedCount]);
      blank.(extendedCount := m.extendedCount, types := ts, columns := Typed(m.columns[..m.columnCount], ts),
             colIndexes := if m.columnCount == m.extendedCount then [] else m.colIndexes)
  }

  lemma SimpleOnesEncoded(ts: seq<ColumnType>)
    ensures EncAll(EncTypeSimple, SimpleOnes(ts)) == EncAll(EncTypeSimple, ts)
  {
    EncAllSame(EncTypeSimple, SimpleOnes(ts), ts);
  }

  lemma FullOnesEncoded(ts: seq<ColumnType>)
    ensures EncAll(EncType, FullOnes(ts)) == EncAll(EncType, ts)
  {
    EncAllSame(EncType, FullOnes(ts), ts);
  }

  lemma TypedEncoded(cs: seq<Column>, ts: seq<ColumnType>)
    requires |cs| <= |ts|
    ensures EncAll(EncColumn, Typed(cs, ts)) == EncAll(EncColumn, cs)
  {
    hide EncString;
    EncAllSame(EncColumn, Typed(cs, ts), cs);
  }

  lemma ParamsEncoded(m: Meta)
    requires Storable(m) && m.metaType == META_PARAM
    ensures Writable(Stored(m))
    ensures EncAll(EncParam, Params(Stored(m), m.columnCount)) == EncAll(EncParam, Params(m, m.columnCount))
  {
    hide EncString, BigEndian, SizedText, DescriptorFits;
    EncAllSame(EncParam, Params(Stored(m), m.columnCount), Params(m, m.columnCount));
  }

  lemma ResultEncoded(m: Meta)
    requires Storable(m) && m.metaType == META_RESULT && Writable(m) && Writable(Stored(m))
    ensures EncBody(Stored(m)) == EncBody(m)
  {
    hide EncAll, EncType, EncColumn, BigEndian, SizedColumn, Fits, FullOf, DescriptorFits, Typed, FullOnes;
    var s := Stored(m);
    var ts, cs := m.types[..m.extendedCount], m.columns[..m.columnCount];
    FullOnesEncoded(ts);
    TypedEncoded(cs, FullOnes(ts));
    assert s.types[..m.extendedCount] == FullOnes(ts) && s.columns[..m.columnCount] == Typed(cs, FullOnes(ts));
  }

  lemma StoredWritable(m: Meta)
    requires Storable(m)
    ensures Writable(m) && Writable(Stored(m))
  {
    hide Fits, DescriptorFits, CodesFit, SizedColumn, SizedText;
  }

  lemma BodyEncoded(m: Meta)
    requires Storable(m) && Writable(m) && Writable(Stored(m))
    ensures EncBody(Stored(m)) == EncBody(m)
  {
    hide EncAll, EncTypeSimple, EncType, EncColumn, EncParam, BigEndian, Fits, SimpleOnes, FullOnes,
         DescriptorFits, CodesFit, SizedColumn, SizedText, Params, Typed, CaptionsOnly;
    if m.metaType == META_RESULT {
      ResultEncoded(m);
    } else if m.metaType == META_PARAM {
      ParamsEncoded(m);
    } else {
      SimpleOnesEncoded(m.types);
    }
  }

  /** What is stored is well-formed and has the same bytes. */
  lemma StoredWellFormed(m: Meta)
    requires Storable(m)
    ensures Writable(m) && WellFormed(Stored(m)) && EncMeta(Some(Stored(m))) == EncMeta(Some(m))
  {
    hide Storable, Stored, WellFormed, EncBody, BigEndian;
    StoredRange(m);
    StoredWritable(m);
    BodyEncoded(m);
    StoredHead(m);
  }

  lemma StoredRange(m: Meta)
    requires Storable(m)
    ensures WellFormed(Stored(m))
  {
    hide SizedText, Fits;
    PowValues();
    assert Fits(0, 8) && Fits(0, 4) by { ZeroFits(); }
    forall t: ColumnType | CodesFit(t) ensures SimpleType(SimpleOf(t)) {
    }
    forall t: ColumnType | DescriptorFits(t) ensures FullType(FullOf(t)) {
    }
    hide SimpleType, SimpleOf, FullType, FullOf, CodesFit, DescriptorFits;
  }

  lemma ZeroFits()
    ensures Fits(0, 8) && Fits(0, 4) && Fits(0, 2)
  {
    PowValues();
  }

  /** Nothing is lost exactly when the metadata is well-formed. */
  lemma StoredIff(m: Meta)
    requires Storable(m)
    ensures Stored(m) == m <==> WellFormed(m)
  {
    StoredRange(m);
    hide SizedText, Fits;
    assert forall t: ColumnType :: SimpleType(t) ==> SimpleOf(t) == t;
    assert forall t: ColumnType :: FullType(t) ==> FullOf(t) == t;
    hide SimpleType, SimpleOf, FullType, FullOf, CodesFit, DescriptorFits, SizedColumn;
    if WellFormed(m) {
      assert m.types[..|m.types|] == m.types && m.columns[..|m.columns|] == m.columns;
    }
  }

  lemma WellFormedStorable(m: Meta)
    requires WellFormed(m)
    ensures Storable(m)
  {
    hide SizedText, Fits;
    assert forall t: ColumnType :: SimpleType(t) ==> CodesFit(t);
    assert forall t: ColumnType :: FullType(t) ==> DescriptorFits(t);
    hide SimpleType, FullType, CodesFit, DescriptorFits, SizedColumn;
  }

  /** Metadata in range, whole or cut. */
  lemma HeadReads(c: Cursor, m: Meta)
    requires Storable(m) && Writable(m)
    requires At(c, EncMeta(Some(m))) || Cut(c, EncMeta(Some(m)))
    ensures At(c, EncMeta(Some(m))) ==>
              && c.pos + |EncMeta(Some(m))| <= |c.buf|
              && ReadMeta(c) == Read(Stored(m), Skip(c, |EncMeta(Some(m))|))
    ensures Cut(c, EncMeta(Some(m))) ==> ReadMeta(c).Panic? || ReadMeta(c).cur.err.Some?
    ensures ReadMeta(c).Panic? <==>
              m.metaType == META_RESULT && m.columnCount > 0 && 8 <= |c.buf| - c.pos < 12
  {
    hide EncMeta, ReadMeta, WellFormed, Storable;
    StoredWellFormed(m);
    WellFormedReads(c, Stored(m));
    StoredHead(m);
  }

  lemma StoredHead(m: Meta)
    requires Storable(m)
    ensures Stored(m).metaType == m.metaType && Stored(m).columnCount == m.columnCount
  {
  }

  /**
   * For all six kinds, from any position and leaving what follows, readMetadata gives back what
   * the layout stores, which is the metadata written if and only if that was well-formed: it used
   * nothing the layout does not carry, such as precision and scale in a simple layout.
   */
  lemma RoundTrip(c: Cursor, m: Meta)
    requires Storable(m) && Writable(m) && At(c, EncMeta(Some(m)))
    ensures c.pos + |EncMeta(Some(m))| <= |c.buf|
    ensures ReadMeta(c) == Read(Stored(m), Skip(c, |EncMeta(Some(m))|))
    ensures ReadMeta(c) == Read(m, Skip(c, |EncMeta(Some(m))|)) <==> WellFormed(m)
  {
    hide EncMeta, ReadMeta, Stored, WellFormed, Storable;
    HeadReads(c, m);
    StoredIff(m);
  }

  /**
   * Metadata cut anywhere is reported as an error, with one exception: result metadata with
   * columns, cut inside the extended count, makes the reader index an empty slice.
   */
  lemma TruncatedMetadata(m: Meta, prefix: seq<byte>)
    requires Storable(m) && Writable(m) && prefix < EncMeta(Some(m))
    ensures var got := ReadMeta(Cursor(prefix, 0, None));
            if m.metaType == META_RESULT && m.columnCount > 0 && 8 <= |prefix| < 12 then got.Panic?
            else got.Read? && got.cur.err.Some?
  {
    hide EncMeta, ReadMeta, Storable;
    assert prefix[0..] == prefix;
    HeadReads(Cursor(prefix, 0, None), m);
  }
}

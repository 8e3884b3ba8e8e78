/** Row blocks and whole payloads: what is decoded from what was encoded. */
module PayloadLaws {
  import opened Bytes
  import opened Wire
  import opened Repeat
  import opened Values
  import opened ValueLaws
  import opened Metadata
  import opened MetadataLaws
  import opened Payload

  // ----- rows

  predicate SizedRow(lib: Library, ts: seq<ColumnType>, vs: seq<Value>)
    requires |ts| == |vs|
  {
    forall i | 0 <= i < |vs| :: Sized(lib, ts[i], vs[i])
  }

  /** Every row, filled up or cut to the column types, is within the int32 lengths of the format. */
  predicate SizedRows(lib: Library, ts: seq<ColumnType>, rows: seq<seq<Value>>) {
    forall row | row in rows :: SizedRow(lib, ts, PadRow(row, |ts|))
  }

  predicate CanonicalRow(ts: seq<ColumnType>, vs: seq<Value>)
    requires |ts| == |vs|
  {
    forall i | 0 <= i < |vs| :: Canonical(ts[i], vs[i])
  }

  predicate CanonicalRows(ts: seq<ColumnType>, rows: seq<seq<Value>>) {
    forall row | row in rows :: CanonicalRow(ts, PadRow(row, |ts|))
  }

  /** Times as Go keeps them. */
  predicate GoRows(rows: seq<seq<Value>>) {
    forall row, v | row in rows && v in row :: GoTimes(v)
  }

  /** What a row becomes: every value in its normal form. */
  function NormalRow(lib: Library, ts: seq<ColumnType>, vs: seq<Value>): (r: seq<Value>)
    requires |ts| == |vs|
    ensures |r| == |vs|
  {
    seq(|vs|, i requires 0 <= i < |vs| => Normal(lib, ts[i], vs[i]))
  }

  function NormalRows(lib: Library, ts: seq<ColumnType>, rows: seq<seq<Value>>): (r: seq<seq<Value>>)
    ensures |r| == |rows|
    ensures forall row | row in r :: |row| == |ts|
  {
    seq(|rows|, i requires 0 <= i < |rows| => NormalRow(lib, ts, PadRow(rows[i], |ts|)))
  }

  lemma {:induction false} RowReads(c: Cursor, lib: Library, ts: seq<ColumnType>, vs: seq<Value>)
    requires |ts| == |vs| && SizedRow(lib, ts, vs) && EncRow(lib, ts, vs).ok
    ensures ReadsAs(c, EncRow(lib, ts, vs).bytes, ReadRow(c, ts), NormalRow(lib, ts, vs))
    decreases |vs|
  {
    hide EncValue, ReadValue, Sized, Normal;
    if vs == [] {
      assert !Cut(c, []);
    } else {
      ReadBack(c, lib, ts[0], vs[0]);
      var (v, d) := ReadValue(c, ts[0]);
      RowReads(d, lib, ts[1..], vs[1..]);
      var a, b := EncValue(lib, ts[0], vs[0]).bytes, EncRow(lib, ts[1..], vs[1..]).bytes;
      var x, rest := Normal(lib, ts[0], vs[0]), NormalRow(lib, ts[1..], vs[1..]);
      ThenRecovered(c, a, x, (v, d), b, rest, ReadRow(d, ts[1..]));
      assert NormalRow(lib, ts, vs) == [x] + rest;
    }
  }

  /** The rows come back in normal form; a block that is cut anywhere leaves the error set. */
  lemma {:induction false} RowsRead(c: Cursor, lib: Library, ts: seq<ColumnType>, rows: seq<seq<Value>>)
    requires SizedRows(lib, ts, rows) && EncRows(lib, ts, rows).ok
    ensures ReadsAs(c, EncRows(lib, ts, rows).bytes, ReadRows(c, ts, |rows|), NormalRows(lib, ts, rows))
    decreases |rows|
  {
    hide EncRow, ReadRow, SizedRow, NormalRow, PadRow, ReadsAs;
    if rows == [] {
      NothingLeft(c);
    } else {
      var vs := PadRow(rows[0], |ts|);
      assert rows[0] in rows;
      var d := ReadRow(c, ts).1;
      RowReads(c, lib, ts, vs);
      RowsRead(d, lib, ts, rows[1..]);
      var a, b := EncRow(lib, ts, vs).bytes, EncRows(lib, ts, rows[1..]).bytes;
      var x, rest := NormalRow(lib, ts, vs), NormalRows(lib, ts, rows[1..]);
      var tail := ReadRows(d, ts, |rows| - 1);
      ThenRecovered(c, a, x, ReadRow(c, ts), b, rest, tail);
      ReadRowsStep(c, ts, |rows|);
      ListRecovered(c, a + b, x, rest, ((ReadRow(c, ts).0, tail.0), tail.1), ReadRows(c, ts, |rows|));
      assert NormalRows(lib, ts, rows) == [x] + rest;
    }
  }

  lemma NothingLeft(c: Cursor)
    ensures ReadsAs<seq<seq<Value>>>(c, [], ([], c), [])
  {
    assert !Cut(c, []);
  }

  lemma BlockReads(c: Cursor, lib: Library, ts: seq<ColumnType>, rows: seq<seq<Value>>)
    requires SizedRows(lib, ts, rows) && EncRows(lib, ts, rows).ok && |rows| < INT32_LIMIT
    ensures var bs := BigEndian(|rows|, 4) + EncRows(lib, ts, rows).bytes;
            ReadsAs(c, bs, ReadRowBlock(c, ts), NormalRows(lib, ts, rows))
  {
    hide EncRows, ReadRows, BigEndian, ReadFixed, SizedRows, NormalRows;
    Int32Range(|rows|);
    FixedCodec(c, |rows|, 4);
    RowsRead(ReadFixed(c, 4).1, lib, ts, rows);
    var bs := EncRows(lib, ts, rows).bytes;
    if At(c, BigEndian(|rows|, 4) + bs) {
      AtSplit(c, BigEndian(|rows|, 4), bs);
    }
    if Cut(c, BigEndian(|rows|, 4) + bs) {
      CutSplit(c, BigEndian(|rows|, 4), bs);
    }
  }

  /** A row block written without an error, cut anywhere, is always reported by the reader. */
  lemma TruncatedBlock(lib: Library, ts: seq<ColumnType>, rows: seq<seq<Value>>, prefix: seq<byte>)
    requires SizedRows(lib, ts, rows) && EncRows(lib, ts, rows).ok && |rows| < INT32_LIMIT
    requires prefix < BigEndian(|rows|, 4) + EncRows(lib, ts, rows).bytes
    ensures ReadRowBlock(Cursor(prefix, 0, None), ts).1.err.Some?
  {
    hide EncRows, ReadRowBlock, BigEndian, SizedRows;
    assert prefix[0..] == prefix;
    BlockReads(Cursor(prefix, 0, None), lib, ts, rows);
  }

  // ----- which rows survive

  lemma {:induction false} RowKeptIff(lib: Library, ts: seq<ColumnType>, vs: seq<Value>)
    requires |ts| == |vs| && forall v | v in vs :: GoTimes(v)
    ensures EncRow(lib, ts, vs).ok && NormalRow(lib, ts, vs) == vs <==> CanonicalRow(ts, vs)
    decreases |vs|
  {
    hide EncValue, Normal, Canonical, GoTimes;
    if vs != [] {
      KeptIff(lib, ts[0], vs[0]);
      RowKeptIff(lib, ts[1..], vs[1..]);
      RowHead(lib, ts, vs);
    }
  }

  /** Normal form and canonicality of a row by its first value and the rest. */
  lemma RowHead(lib: Library, ts: seq<ColumnType>, vs: seq<Value>)
    requires |ts| == |vs| && vs != []
    ensures NormalRow(lib, ts, vs) == vs <==> Normal(lib, ts[0], vs[0]) == vs[0] && NormalRow(lib, ts[1..], vs[1..]) == vs[1..]
    ensures CanonicalRow(ts, vs) <==> Canonical(ts[0], vs[0]) && CanonicalRow(ts[1..], vs[1..])
  {
    hide Normal, Canonical;
    assert NormalRow(lib, ts, vs) == [Normal(lib, ts[0], vs[0])] + NormalRow(lib, ts[1..], vs[1..]);
    assert vs == [vs[0]] + vs[1..];
    if CanonicalRow(ts[1..], vs[1..]) {
      assert forall i | 1 <= i < |vs| :: ts[i] == ts[1..][i - 1] && vs[i] == vs[1..][i - 1];
    }
  }

  lemma {:induction false} RowsKeptIff(lib: Library, ts: seq<ColumnType>, rows: seq<seq<Value>>)
    requires GoRows(rows)
    ensures EncRows(lib, ts, rows).ok && NormalRows(lib, ts, rows) == PadRows(rows, |ts|) <==> CanonicalRows(ts, rows)
    decreases |rows|
  {
    hide EncRow, NormalRow, CanonicalRow, PadRow, GoTimes;
    if rows != [] {
      assert rows[0] in rows;
      var vs := PadRow(rows[0], |ts|);
      PaddedTimes(rows[0], |ts|);
      RowKeptIff(lib, ts, vs);
      RowsKeptIff(lib, ts, rows[1..]);
      RowsHead(lib, ts, rows);
    }
  }

  lemma RowsHead(lib: Library, ts: seq<ColumnType>, rows: seq<seq<Value>>)
    requires rows != []
    ensures var vs := PadRow(rows[0], |ts|);
            && (NormalRows(lib, ts, rows) == PadRows(rows, |ts|) <==>
                NormalRow(lib, ts, vs) == vs && NormalRows(lib, ts, rows[1..]) == PadRows(rows[1..], |ts|))
            && (CanonicalRows(ts, rows) <==> CanonicalRow(ts, vs) && CanonicalRows(ts, rows[1..]))
  {
    hide NormalRow, CanonicalRow, PadRow;
    var vs := PadRow(rows[0], |ts|);
    assert NormalRows(lib, ts, rows) == [NormalRow(lib, ts, vs)] + NormalRows(lib, ts, rows[1..]);
    assert PadRows(rows, |ts|) == [vs] + PadRows(rows[1..], |ts|);
    var x, y := NormalRows(lib, ts, rows), PadRows(rows, |ts|);
    assert x == [x[0]] + x[1..] && y == [y[0]] + y[1..];
    assert rows == [rows[0]] + rows[1..];
    assert forall row :: row in rows <==> row == rows[0] || row in rows[1..];
  }

  lemma PaddedTimes(row: seq<Value>, n: nat)
    requires forall v | v in row :: GoTimes(v)
    ensures forall v | v in PadRow(row, n) :: GoTimes(v)
  {
  }

  // ----- whole payloads

  predicate HeaderInRange(h: Header) {
    Fits(h.updateCount, 4) && Fits(h.fetchSize, 4) && Fits(h.statementID, 8) && Fits(h.queryTimeout, 2)
  }

  lemma HeaderReads(c: Cursor, h: Header)
    requires HeaderInRange(h)
    ensures ReadsAs(c, EncHeader(h), ReadHeader(c), h)
  {
    hide BigEndian, ReadFixed, Fits;
    var (n1, c1) := ReadFixed(c, 4);
    var (n2, c2) := ReadFixed(c1, 4);
    var (n3, c3) := ReadFixed(c2, 8);
    var (n4, c4) := ReadFixed(c3, 2);
    FixedReads(c, h.updateCount, 4);
    FixedReads(c1, h.fetchSize, 4);
    FixedReads(c2, h.statementID, 8);
    FixedReads(c3, h.queryTimeout, 2);
    var b3 := BigEndian(h.statementID, 8) + BigEndian(h.queryTimeout, 2);
    ThenRecovered(c2, BigEndian(h.statementID, 8), h.statementID, (n3, c3), BigEndian(h.queryTimeout, 2), h.queryTimeout, (n4, c4));
    var b2 := BigEndian(h.fetchSize, 4) + b3;
    ThenRecovered(c1, BigEndian(h.fetchSize, 4), h.fetchSize, (n2, c2), b3, (h.statementID, h.queryTimeout), ((n3, n4), c4));
    ThenRecovered(c, BigEndian(h.updateCount, 4), h.updateCount, (n1, c1), b2,
                  (h.fetchSize, (h.statementID, h.queryTimeout)), ((n2, (n3, n4)), c4));
    assert EncHeader(h) == BigEndian(h.updateCount, 4) + b2;
  }

  /** Reading looks at the code of a type, and at the base code of an array, only. */
  predicate ReadAlike(t: ColumnType, u: ColumnType) {
    t.code == u.code && (t.IsArray() ==> t.base == u.base)
  }

  lemma ReadValueAlike(c: Cursor, t: ColumnType, u: ColumnType)
    requires ReadAlike(t, u)
    ensures ReadValue(c, t) == ReadValue(c, u)
  {
    hide ReadU8, ReadFixed, ReadScalar, ReadElems;
    ReadScalarAlike(ReadU8(c).1, t, u);
  }

  lemma ReadScalarAlike(c: Cursor, t: ColumnType, u: ColumnType)
    requires t.code == u.code
    ensures t.code != SQL_ARRAY ==> ReadScalar(c, t) == ReadScalar(c, u)
  {
  }

  lemma {:induction false} ReadRowAlike(c: Cursor, ts: seq<ColumnType>, us: seq<ColumnType>)
    requires |ts| == |us| && forall i | 0 <= i < |ts| :: ReadAlike(ts[i], us[i])
    ensures ReadRow(c, ts) == ReadRow(c, us)
    decreases |ts|
  {
    hide ReadValue, ReadAlike;
    if ts != [] {
      ReadValueAlike(c, ts[0], us[0]);
      ReadRowAlike(ReadValue(c, ts[0]).1, ts[1..], us[1..]);
    }
  }

  lemma {:induction false} ReadRowsAlike(c: Cursor, ts: seq<ColumnType>, us: seq<ColumnType>, n: nat)
    requires |ts| == |us| && forall i | 0 <= i < |ts| :: ReadAlike(ts[i], us[i])
    ensures ReadRows(c, ts, n) == ReadRows(c, us, n)
    decreases n
  {
    hide ReadRow, ReadAlike;
    if n > 0 {
      ReadRowAlike(c, ts, us);
      ReadRowsAlike(ReadRow(c, ts).1, ts, us, n - 1);
    }
  }

  /** What the rows written under some metadata become. */
  function RowsBack(lib: Library, m: Meta, rows: seq<seq<Value>>): (r: seq<seq<Value>>)
    requires RowsWritable(m, rows)
    ensures |r| == |rows|
  {
    if rows == [] then [] else NormalRows(lib, RowTypes(m), rows)
  }

  predicate RowsSized(lib: Library, m: Meta, rows: seq<seq<Value>>)
    requires RowsWritable(m, rows)
  {
    |rows| < INT32_LIMIT && (rows != [] ==> SizedRows(lib, RowTypes(m), rows))
  }

  /** Whether a row is read with as many types as it was written with. */
  predicate TypePerColumn(m: Meta, rows: seq<seq<Value>>)
    requires Storable(m)
  {
    rows == [] || |Stored(m).types| == m.columnCount
  }

  lemma TypesAlike(m: Meta)
    requires Storable(m) && |Stored(m).types| == m.columnCount <= |m.types|
    ensures |RowTypes(m)| == |Stored(m).types|
    ensures forall i | 0 <= i < |Stored(m).types| :: ReadAlike(RowTypes(m)[i], Stored(m).types[i])
  {
    hide Fits, DescriptorFits, CodesFit, SizedText, SizedColumn;
  }

  /** The row block under the types that were stored. */
  lemma BlockBack(e: Cursor, lib: Library, m: Meta, rows: seq<seq<Value>>)
    requires Storable(m) && RowsWritable(m, rows) && RowsSized(lib, m, rows) && TypePerColumn(m, rows)
    requires EncRowBlock(lib, Some(m), rows).ok
    ensures ReadsAs(e, EncRowBlock(lib, Some(m), rows).bytes, ReadRowBlock(e, Stored(m).types), RowsBack(lib, m, rows))
  {
    hide Storable, Stored, BigEndian, EncRows, ReadRows, SizedRows, ReadFixed, ReadAlike, NormalRows, ReadsAs;
    var us := Stored(m).types;
    if rows == [] {
      NoRows(lib, us);
      assert BigEndian(0, 4) + [] == BigEndian(0, 4);
      BlockReads(e, lib, us, []);
    } else {
      var ts := RowTypes(m);
      TypesAlike(m);
      BlockReads(e, lib, ts, rows);
      ReadRowsAlike(ReadFixed(e, 4).1, ts, us, Count(ReadFixed(e, 4).0));
      assert ReadRowBlock(e, ts) == ReadRowBlock(e, us);
    }
  }

  /**
   * Whatever was encoded without an error decodes, when there is one type per column or there are
   * no rows, to the same header, to what the layout stores of the metadata, and to the rows in
   * normal form, whatever follows.
   */
  lemma PayloadReadBack(lib: Library, ack: bool, h: Header, m: Meta, rows: seq<seq<Value>>, extra: seq<byte>)
    requires HeaderInRange(h) && Storable(m) && Writable(m) && RowsWritable(m, rows) && RowsSized(lib, m, rows)
    requires TypePerColumn(m, rows) && EncPayload(lib, h, Some(m), rows).ok
    ensures DecPayload(ack, EncPayload(lib, h, Some(m), rows).bytes + extra) == Rows(h, Stored(m), RowsBack(lib, m, rows))
  {
    hide EncHeader, ReadHeader, EncRows, ReadRowBlock, EncRowBlock, EncMeta, ReadMeta, HeaderInRange, Storable, Stored,
         RowsSized, RowsBack, TypePerColumn, BigEndian, DecPayload;
    var e := HeadRead(lib, ack, h, m, rows, extra);
    BlockBack(e, lib, m, rows);
  }

  /** What each row is decoded to, value by value: the normal form of what was given, and NULL where nothing was. */
  lemma DecodedRows(lib: Library, ack: bool, h: Header, m: Meta, rows: seq<seq<Value>>, extra: seq<byte>)
    requires HeaderInRange(h) && Storable(m) && Writable(m) && RowsWritable(m, rows) && RowsSized(lib, m, rows)
    requires TypePerColumn(m, rows) && EncPayload(lib, h, Some(m), rows).ok
    ensures var got := DecPayload(ack, EncPayload(lib, h, Some(m), rows).bytes + extra);
            && got.Rows? && |got.rows| == |rows| && (rows != [] ==> m.columnCount <= |m.types|)
            && forall k | 0 <= k < |rows| ::
                 && |got.rows[k]| == m.columnCount
                 && forall i | 0 <= i < m.columnCount ::
                      got.rows[k][i] == if i < |rows[k]| then Normal(lib, m.types[i], rows[k][i]) else Null
  {
    assert rows != [] ==> m.columnCount <= |m.types|;
    hide *;
    PayloadReadBack(lib, ack, h, m, rows, extra);
    CountNatural(m);
    forall k | 0 <= k < |rows|
      ensures |RowsBack(lib, m, rows)[k]| == m.columnCount
      ensures forall i | 0 <= i < m.columnCount ::
                RowsBack(lib, m, rows)[k][i] == if i < |rows[k]| then Normal(lib, m.types[i], rows[k][i]) else Null
    {
      RowBackAt(lib, m, rows, k);
    }
  }

  lemma RowBackAt(lib: Library, m: Meta, rows: seq<seq<Value>>, k: nat)
    requires RowsWritable(m, rows) && k < |rows| && m.columnCount >= 0
    ensures var row := RowsBack(lib, m, rows)[k];
            && m.columnCount <= |m.types| && |row| == m.columnCount
            && forall i | 0 <= i < m.columnCount ::
                 row[i] == if i < |rows[k]| then Normal(lib, m.types[i], rows[k][i]) else Null
  {
    var ts, padded := RowTypes(m), PadRow(rows[k], m.columnCount);
    assert RowsBack(lib, m, rows)[k] == NormalRow(lib, ts, padded);
    forall i | 0 <= i < m.columnCount
      ensures NormalRow(lib, ts, padded)[i] == if i < |rows[k]| then Normal(lib, m.types[i], rows[k][i]) else Null
    {
      NullNormal(lib, ts[i]);
      hide Normal;
    }
  }

  lemma NullNormal(lib: Library, t: ColumnType)
    ensures Normal(lib, t, Null) == Null
  {
  }

  /** Header and metadata are always recovered, and the row block is next. */
  lemma HeadRead(lib: Library, ack: bool, h: Header, m: Meta, rows: seq<seq<Value>>, extra: seq<byte>) returns (e: Cursor)
    requires HeaderInRange(h) && Storable(m) && Writable(m) && RowsWritable(m, rows)
    ensures At(e, EncRowBlock(lib, Some(m), rows).bytes)
    ensures DecPayload(ack, EncPayload(lib, h, Some(m), rows).bytes + extra)
         == var (got, f) := ReadRowBlock(e, Stored(m).types);
            if f.err.Some? then Failed(f.err.value) else Rows(h, Stored(m), got)
  {
    hide EncHeader, ReadHeader, EncRowBlock, ReadRowBlock, EncMeta, ReadMeta, HeaderInRange, WellFormed, Storable, Stored;
    var a, b, block := EncHeader(h), EncMeta(Some(m)), EncRowBlock(lib, Some(m), rows).bytes;
    var payload := EncPayload(lib, h, Some(m), rows).bytes + extra;
    var c := Cursor(payload, 0, None);
    assert payload == a + (b + (block + extra));
    assert payload[0..] == a + (b + (block + extra));
    HeaderReads(c, h);
    AtSplit(c, a, b + (block + extra));
    var d := Skip(c, |a|);
    AtSplit(d, b, block + extra);
    MetadataLaws.RoundTrip(d, m);
    e := Skip(d, |b|);
    AtSplit(e, block, extra);
    assert payload != [] by { HeaderNotEmpty(h); }
  }

  /**
   * Header and rows, filled up or cut to the column count, are encoded without an error and
   * decoded unchanged if and only if there are no rows, or there is one type per column and every
   * value is canonical for its column; of the metadata comes back what the layout stores.
   */
  lemma RowsSurviveIff(lib: Library, ack: bool, h: Header, m: Meta, rows: seq<seq<Value>>, extra: seq<byte>)
    requires HeaderInRange(h) && Storable(m) && Writable(m) && RowsWritable(m, rows) && RowsSized(lib, m, rows) && GoRows(rows)
    ensures (TypePerColumn(m, rows) && (rows == [] || CanonicalRows(RowTypes(m), rows))) <==>
            (var w := EncPayload(lib, h, Some(m), rows);
             w.ok && DecPayload(ack, w.bytes + extra) == Rows(h, Stored(m), PadRows(rows, Count(m.columnCount))))
  {
    hide EncHeader, ReadHeader, EncRows, ReadRowBlock, EncMeta, ReadMeta, HeaderInRange, Storable, Stored,
         RowsSized, CanonicalRows, NormalRows, PadRows, GoRows, BigEndian, DecPayload;
    if rows == [] {
      PayloadReadBack(lib, ack, h, m, rows, extra);
      assert PadRows(rows, Count(m.columnCount)) == [];
    } else if TypePerColumn(m, rows) {
      RowsKeptIff(lib, RowTypes(m), rows);
      if EncRows(lib, RowTypes(m), rows).ok {
        PayloadReadBack(lib, ack, h, m, rows, extra);
      }
    } else {
      var us := Stored(m).types;
      var e := HeadRead(lib, ack, h, m, rows, extra);
      CountNatural(m);
      if ReadRowBlock(e, us).0 == PadRows(rows, Count(m.columnCount)) {
        RowLengths(e, us, rows, Count(m.columnCount));
        assert false;
      }
    }
  }

  /**
   * The payload round trip, exactly: header, metadata and rows all come back unchanged if and only
   * if the metadata is well-formed, which is that its layout stores all of it, and the rows survive.
   */
  lemma PayloadRoundTripIff(lib: Library, ack: bool, h: Header, m: Meta, rows: seq<seq<Value>>, extra: seq<byte>)
    requires HeaderInRange(h) && Storable(m) && RowsWritable(m, rows) && RowsSized(lib, m, rows) && GoRows(rows)
    ensures Writable(m)
    ensures (WellFormed(m) && (rows == [] || (|m.types| == m.columnCount && CanonicalRows(m.types, rows)))) <==>
            (var w := EncPayload(lib, h, Some(m), rows);
             w.ok && DecPayload(ack, w.bytes + extra) == Rows(h, m, PadRows(rows, Count(m.columnCount))))
  {
    hide EncHeader, ReadHeader, EncRows, ReadRowBlock, EncMeta, ReadMeta, HeaderInRange, Storable, Stored, WellFormed,
         RowsSized, CanonicalRows, PadRows, GoRows, BigEndian, DecPayload, EncRowBlock, EncPayload;
    StoredWritable(m);
    StoredIff(m);
    RowsSurviveIff(lib, ack, h, m, rows, extra);
    if WellFormed(m) && rows != [] && |m.types| == m.columnCount {
      assert RowTypes(m) == m.types;
    }
    var w := EncPayload(lib, h, Some(m), rows);
    if w.ok && DecPayload(ack, w.bytes + extra) == Rows(h, m, PadRows(rows, Count(m.columnCount))) {
      var e := HeadRead(lib, ack, h, m, rows, extra);
    }
  }

  /** Metadata that is not given is sent as that of a result without columns, whatever the rows. */
  lemma NoMetadata(lib: Library, ack: bool, h: Header, rows: seq<seq<Value>>, extra: seq<byte>)
    requires HeaderInRange(h)
    ensures EncPayload(lib, h, None, rows).ok
    ensures DecPayload(ack, EncPayload(lib, h, None, rows).bytes + extra)
         == Rows(h, Meta(META_SIMPLE_RESULT, 0, 0, [], [], [], []), [])
  {
    var m := Meta(META_SIMPLE_RESULT, 0, 0, [], [], [], []);
    assert Storable(m) && Stored(m) == m by { PowValues(); }
    assert EncMeta(Some(m)) == EncMeta(None) by { NoTypes(); }
    hide EncHeader, EncMeta, DecPayload, Storable, Stored, HeaderInRange, BigEndian;
    PayloadReadBack(lib, ack, h, m, [], extra);
  }

  lemma NoTypes()
    ensures EncMeta(Some(Meta(META_SIMPLE_RESULT, 0, 0, [], [], [], []))) == EncMeta(None)
  {
    assert BigEndian(0, 4) + [] == BigEndian(0, 4);
  }

  lemma HeaderNotEmpty(h: Header)
    ensures |EncHeader(h)| == 18
  {
  }

  /** Every row read has one value per type. */
  lemma RowLengths(e: Cursor, ts: seq<ColumnType>, rows: seq<seq<Value>>, n: nat)
    requires rows != [] && ReadRowBlock(e, ts).0 == PadRows(rows, n)
    ensures |ts| == n
  {
    assert PadRows(rows, n)[0] in PadRows(rows, n);
  }

  lemma CountNatural(m: Meta)
    requires Storable(m)
    ensures m.columnCount >= 0
  {
  }

  lemma NoRows(lib: Library, ts: seq<ColumnType>)
    ensures EncRows(lib, ts, []) == Written([], true) && SizedRows(lib, ts, [])
  {
  }

  // ----- the session attribute request

  function AttrColumn(t: ColumnType): Column {
    Column(t, "", "", "", "", "", 0)
  }

  /** SessionAttrMetadata: four unnamed columns. */
  function AttrMeta(): Meta {
    var i, b, s := ElemType(SQL_INTEGER), ElemType(SQL_BOOLEAN), ElemType(SQL_VARCHAR);
    Meta(META_RESULT, 4, 4, [i, i, b, s], [AttrColumn(i), AttrColumn(i), AttrColumn(b), AttrColumn(s)], [], [])
  }

  /** The one row of NewSessionAttrRequest. */
  function AttrRow(id: int, intVal: Option<int>, boolVal: Option<bool>, strVal: Option<string>): seq<Value> {
    [Int(id), if intVal.Some? then Int(intVal.value) else Null,
     if boolVal.Some? then Bool(boolVal.value) else Null,
     if strVal.Some? then Str(strVal.value) else Null]
  }

  /** Any attribute request in range decodes to exactly the values put into it. */
  lemma SessionAttrRequest(lib: Library, id: int, intVal: Option<int>, boolVal: Option<bool>, strVal: Option<string>)
    requires Fits(id, 4) && (intVal.Some? ==> Fits(intVal.value, 4)) && (strVal.Some? ==> SizedText(strVal.value))
    ensures var h, m, row := Header(0, 0, 0, 0), AttrMeta(), AttrRow(id, intVal, boolVal, strVal);
            && Writable(m) && EncPayload(lib, h, Some(m), [row]).ok
            && DecPayload(true, EncPayload(lib, h, Some(m), [row]).bytes) == Rows(h, m, [row])
            && |row| == 4 && row[0] == Int(id)
            && (if intVal.Some? then row[1] == Int(intVal.value) else row[1].Null?)
            && (if boolVal.Some? then row[2] == Bool(boolVal.value) else row[2].Null?)
            && (if strVal.Some? then row[3] == Str(strVal.value) else row[3].Null?)
            && m.metaType == 1 && m.columnCount == m.extendedCount == 4
            && m.types == [ElemType(4), ElemType(4), ElemType(16), ElemType(12)]
  {
    hide EncPayload, DecPayload;
    var h, m, row := Header(0, 0, 0, 0), AttrMeta(), AttrRow(id, intVal, boolVal, strVal);
    AttrMetaWellFormed();
    WellFormedStorable(m);
    assert HeaderInRange(h) by { PowValues(); }
    assert RowTypes(m) == m.types;
    assert PadRow(row, 4) == row;
    AttrRowCarried(lib, id, intVal, boolVal, strVal);
    PayloadRoundTripIff(lib, true, h, m, [row], []);
    assert PadRows([row], 4) == [row];
    assert EncPayload(lib, h, Some(m), [row]).bytes + [] == EncPayload(lib, h, Some(m), [row]).bytes;
  }

  lemma AttrMetaWellFormed()
    ensures WellFormed(AttrMeta())
  {
    PowValues();
    assert SizedText("");
  }

  lemma AttrRowCarried(lib: Library, id: int, intVal: Option<int>, boolVal: Option<bool>, strVal: Option<string>)
    requires Fits(id, 4) && (intVal.Some? ==> Fits(intVal.value, 4)) && (strVal.Some? ==> SizedText(strVal.value))
    ensures var row := AttrRow(id, intVal, boolVal, strVal);
            SizedRow(lib, AttrMeta().types, row) && CanonicalRow(AttrMeta().types, row) && GoRows([row])
  {
    hide Fits;
    var ts, row := AttrMeta().types, AttrRow(id, intVal, boolVal, strVal);
    assert KindOf(ts[0].code) == Integer(4) && KindOf(ts[2].code) == Boolean && KindOf(ts[3].code) == Text;
    assert Canonical(ts[0], row[0]) && Canonical(ts[1], row[1]) && Canonical(ts[2], row[2]) && Canonical(ts[3], row[3]);
    assert Sized(lib, ts[3], row[3]);
  }
}

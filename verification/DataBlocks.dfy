/**
 * internal/proto/result.go: the answers that carry a block of a result set (DATA, DATAHEAD,
 * GENERATED and DATAROWS), and what decoding makes of a payload that was cut.
 */
module DataBlocks {
  import opened Bytes
  import opened Wire
  import opened Repeat
  import opened Values
  import opened Metadata
  import opened MetadataLaws
  import opened Payload
  import opened PayloadLaws
  import opened ReaderRuns
  import opened ServerValues

  datatype RowSet = RowSet(id: int, size: int, offset: int, rows: seq<seq<Value>>)

  /** The fields in front of the metadata; DATAROWS has none of them. */
  datatype DataHeader = DataHeader(id: int, updateCount: int, fetchSize: int, properties: byte)

  datatype Answer = Data(header: Option<DataHeader>, meta: Meta, rowSet: RowSet) | Unreadable(err: Error) | Panicked

  /** readRowSet: four integers, then the rows, read with every type of the metadata. */
  function ReadFullBlock(c: Cursor, ts: seq<ColumnType>): (r: (RowSet, Cursor))
    ensures Follows(c, r.1)
  {
    var (id, c1) := ReadFixed(c, 8);
    var (size, c2) := ReadFixed(c1, 4);
    var (offset, c3) := ReadFixed(c2, 4);
    var (rows, c4) := ReadRowBlock(c3, ts);
    (RowSet(id, size, offset, rows), c4)
  }

  function ReadDataHeader(c: Cursor): (r: (DataHeader, Cursor))
    ensures Follows(c, r.1)
  {
    var (id, c1) := ReadFixed(c, 8);
    var (updateCount, c2) := ReadFixed(c1, 4);
    var (fetchSize, c3) := ReadFixed(c2, 4);
    var (properties, c4) := ReadU8(c3);
    (DataHeader(id, updateCount, fetchSize, properties), c4)
  }

  function ReadDataBody(c: Cursor, h: Option<DataHeader>): Answer {
    match ReadMeta(c)
    case Panic => Panicked
    case Read(m, d) =>
      var (rowSet, e) := ReadFullBlock(d, m.types);
      if e.err.Some? then Unreadable(e.err.value) else Data(h, m, rowSet)
  }

  /** DecodeResult for the four modes. */
  function DecData(headed: bool, payload: seq<byte>): Answer {
    var c := Cursor(payload, 0, None);
    if headed then
      var (h, d) := ReadDataHeader(c);
      ReadDataBody(d, Some(h))
    else ReadDataBody(c, None)
  }

  method ReadRowSet(r: RowInput, ts: seq<ColumnType>) returns (rs: RowSet)
    requires r.Valid()
    modifies r
    ensures r.Valid() && (rs, r.Cur()) == ReadFullBlock(old(r.Cur()), ts)
  {
    hide ReadFixed, ReadRows, Follows;
    var id := r.Long();
    var size := r.Int();
    var offset := r.Int();
    var n := r.Int();
    if r.err.Some? || n < 0 {
      return RowSet(id, size, offset, []);
    }
    var rows := ReadRowLoop(r, ts, n);
    rs := RowSet(id, size, offset, rows);
  }

  method DecodeData(headed: bool, payload: seq<byte>) returns (out: Answer)
    ensures out == DecData(headed, payload)
  {
    hide ReadFixed, ReadU8, ReadMeta, ReadFullBlock, Follows;
    var r := new RowInput(payload);
    var h: Option<DataHeader> := None;
    if headed {
      var id := r.Long();
      var updateCount := r.Int();
      var fetchSize := r.Int();
      var properties := r.U8();
      h := Some(DataHeader(id, updateCount, fetchSize, properties));
    }
    var m := ReadMetadata(r);
    if m.None? {
      return Panicked;
    }
    var rs := ReadRowSet(r, m.value.types);
    if r.err.Some? {
      return Unreadable(r.err.value);
    }
    return Data(h, m.value, rs);
  }

  // ----- the server's side of the layout

  /** A block of rows as the server holds them. */
  datatype Sent = Sent(id: int, size: int, offset: int, rows: seq<seq<Cell>>)

  function EncBlock(ts: seq<ColumnType>, b: Sent): seq<byte>
    requires forall xs | xs in b.rows :: |xs| == |ts|
  {
    BigEndian(b.id, 8) + (BigEndian(b.size, 4) + (BigEndian(b.offset, 4)
      + (BigEndian(|b.rows|, 4) + EncCellRows(ts, b.rows))))
  }

  function EncDataHeader(h: Option<DataHeader>): seq<byte> {
    match h
    case None => []
    case Some(h) => BigEndian(h.id, 8) + (BigEndian(h.updateCount, 4) + (BigEndian(h.fetchSize, 4) + [h.properties]))
  }

  function EncData(h: Option<DataHeader>, m: Meta, b: Sent): seq<byte>
    requires Writable(m) && forall xs | xs in b.rows :: |xs| == |m.types|
  {
    EncDataHeader(h) + (EncMeta(Some(m)) + EncBlock(m.types, b))
  }

  predicate DataHeaderInRange(h: DataHeader) {
    Fits(h.id, 8) && Fits(h.updateCount, 4) && Fits(h.fetchSize, 4)
  }

  /** Every row has a value of its type for each column, hidden ones included. */
  predicate BlockInRange(ts: seq<ColumnType>, b: Sent) {
    && Fits(b.id, 8) && Fits(b.size, 4) && Fits(b.offset, 4) && |b.rows| < INT32_LIMIT && RowsFit(ts, b.rows)
  }

  /** What the client makes of it. */
  function ShownSet(ts: seq<ColumnType>, b: Sent): RowSet
    requires forall xs | xs in b.rows :: |xs| == |ts|
  {
    RowSet(b.id, b.size, b.offset, ShownRows(ts, b.rows))
  }

  lemma CountedRowsRead(c: Cursor, ts: seq<ColumnType>, rows: seq<seq<Cell>>)
    requires |rows| < INT32_LIMIT && RowsFit(ts, rows)
    ensures ReadsAs(c, BigEndian(|rows|, 4) + EncCellRows(ts, rows), ReadRowBlock(c, ts), ShownRows(ts, rows))
  {
    hide EncCellRows, ReadRows, ShownRows, BigEndian, ReadFixed, RowFits;
    Int32Range(|rows|);
    FixedCodec(c, |rows|, 4);
    CellRowsRead(ReadFixed(c, 4).1, ts, rows);
    var bs := EncCellRows(ts, rows);
    if At(c, BigEndian(|rows|, 4) + bs) {
      AtSplit(c, BigEndian(|rows|, 4), bs);
    }
    if Cut(c, BigEndian(|rows|, 4) + bs) {
      CutSplit(c, BigEndian(|rows|, 4), bs);
    }
  }

  lemma FullBlockReads(c: Cursor, ts: seq<ColumnType>, b: Sent)
    requires BlockInRange(ts, b)
    ensures ReadsAs(c, EncBlock(ts, b), ReadFullBlock(c, ts), ShownSet(ts, b))
  {
    hide BigEndian, ReadFixed, Fits, EncCellRows, ReadRowBlock, ShownRows, RowFits;
    var (n1, c1) := ReadFixed(c, 8);
    var (n2, c2) := ReadFixed(c1, 4);
    var (n3, c3) := ReadFixed(c2, 4);
    var (rows, c4) := ReadRowBlock(c3, ts);
    FixedReads(c, b.id, 8);
    FixedReads(c1, b.size, 4);
    FixedReads(c2, b.offset, 4);
    CountedRowsRead(c3, ts, b.rows);
    var shown := ShownRows(ts, b.rows);
    var b4 := BigEndian(|b.rows|, 4) + EncCellRows(ts, b.rows);
    var b3 := BigEndian(b.offset, 4) + b4;
    var b2 := BigEndian(b.size, 4) + b3;
    ThenRecovered(c2, BigEndian(b.offset, 4), b.offset, (n3, c3), b4, shown, (rows, c4));
    ThenRecovered(c1, BigEndian(b.size, 4), b.size, (n2, c2), b3, (b.offset, shown), ((n3, rows), c4));
    ThenRecovered(c, BigEndian(b.id, 8), b.id, (n1, c1), b2, (b.size, (b.offset, shown)), ((n2, (n3, rows)), c4));
  }

  lemma DataHeaderReads(c: Cursor, h: DataHeader)
    requires DataHeaderInRange(h)
    ensures ReadsAs(c, EncDataHeader(Some(h)), ReadDataHeader(c), h)
  {
    hide BigEndian, ReadFixed, ReadU8, Fits;
    var (n1, c1) := ReadFixed(c, 8);
    var (n2, c2) := ReadFixed(c1, 4);
    var (n3, c3) := ReadFixed(c2, 4);
    var (n4, c4) := ReadU8(c3);
    FixedReads(c, h.id, 8);
    FixedReads(c1, h.updateCount, 4);
    FixedReads(c2, h.fetchSize, 4);
    U8Reads(c3, h.properties);
    var b3 := BigEndian(h.fetchSize, 4) + [h.properties];
    var b2 := BigEndian(h.updateCount, 4) + b3;
    ThenRecovered(c2, BigEndian(h.fetchSize, 4), h.fetchSize, (n3, c3), [h.properties], h.properties, (n4, c4));
    ThenRecovered(c1, BigEndian(h.updateCount, 4), h.updateCount, (n2, c2), b3, (h.fetchSize, h.properties), ((n3, n4), c4));
    ThenRecovered(c, BigEndian(h.id, 8), h.id, (n1, c1), b2, (h.updateCount, (h.fetchSize, h.properties)), ((n2, (n3, n4)), c4));
  }

  // ----- whole answers

  /** The cut falls where the count of hidden and visible columns would be. */
  predicate CutInCount(m: Meta, left: int) {
    m.metaType == META_RESULT && m.columnCount > 0 && 8 <= left < 12
  }

  lemma BodyAt(c: Cursor, h: Option<DataHeader>, m: Meta, b: Sent)
    requires WellFormed(m) && Writable(m) && BlockInRange(m.types, b)
    requires At(c, EncMeta(Some(m)) + EncBlock(m.types, b))
    ensures ReadDataBody(c, h) == Data(h, m, ShownSet(m.types, b))
  {
    hide EncMeta, EncBlock, ReadMeta, ReadFullBlock, WellFormed, ShownSet, RowFits;
    AtSplit(c, EncMeta(Some(m)), EncBlock(m.types, b));
    WellFormedReads(c, m);
    FullBlockReads(Skip(c, |EncMeta(Some(m))|), m.types, b);
  }

  lemma BodyCut(c: Cursor, h: Option<DataHeader>, m: Meta, b: Sent)
    requires WellFormed(m) && Writable(m) && BlockInRange(m.types, b)
    requires Cut(c, EncMeta(Some(m)) + EncBlock(m.types, b))
    ensures ReadDataBody(c, h).Panicked? <==> CutInCount(m, |c.buf| - c.pos)
    ensures !ReadDataBody(c, h).Data?
  {
    hide EncMeta, EncBlock, ReadMeta, ReadFullBlock, WellFormed, ShownSet, RowFits;
    CutSplit(c, EncMeta(Some(m)), EncBlock(m.types, b));
    WellFormedReads(c, m);
    if At(c, EncMeta(Some(m))) {
      FullBlockReads(Skip(c, |EncMeta(Some(m))|), m.types, b);
    }
  }

  /** What a server lays out is what the client shows, whatever follows it. */
  lemma DataRoundTrip(h: Option<DataHeader>, m: Meta, b: Sent, extra: seq<byte>)
    requires WellFormed(m) && BlockInRange(m.types, b) && (h.Some? ==> DataHeaderInRange(h.value))
    ensures Writable(m) && DecData(h.Some?, EncData(h, m, b) + extra) == Data(h, m, ShownSet(m.types, b))
  {
    WellFormedWritable(m);
    hide EncMeta, EncBlock, ReadDataBody, ReadDataHeader, EncDataHeader, WellFormed, DataHeaderInRange, ShownSet, RowFits;
    var body := EncMeta(Some(m)) + EncBlock(m.types, b);
    var head := EncDataHeader(h);
    Prefixes(head, body, extra);
    var c := Cursor(head + body + extra, 0, None);
    NoHeader();
    if h.Some? {
      DataHeaderReads(c, h.value);
    }
    BodyAt(Skip(c, |head|), h, m, b);
  }

  lemma Prefixes(head: seq<byte>, body: seq<byte>, extra: seq<byte>)
    ensures var c := Cursor(head + body + extra, 0, None);
            At(c, head) && At(Skip(c, |head|), body)
  {
  }

  /** Cut anywhere, the answer is an error; only a cut inside the extended count crashes the decoder. */
  lemma TruncatedData(h: Option<DataHeader>, m: Meta, b: Sent, prefix: seq<byte>)
    requires WellFormed(m) && Writable(m) && BlockInRange(m.types, b) && (h.Some? ==> DataHeaderInRange(h.value))
    requires prefix < EncData(h, m, b)
    ensures !DecData(h.Some?, prefix).Data?
    ensures DecData(h.Some?, prefix).Panicked? <==> CutInCount(m, |prefix| - |EncDataHeader(h)|)
  {
    hide EncMeta, EncBlock, ReadDataBody, ReadDataHeader, EncDataHeader, WellFormed, DataHeaderInRange, RowFits;
    var body := EncMeta(Some(m)) + EncBlock(m.types, b);
    var head := EncDataHeader(h);
    var c := Cursor(prefix, 0, None);
    assert prefix[0..] == prefix;
    CutSplit(c, head, body);
    NoHeader();
    if h.Some? {
      DataHeaderReads(c, h.value);
    }
    if Cut(c, head) {
      AfterError(ReadDataHeader(c).1, Some(ReadDataHeader(c).0));
    } else {
      BodyCut(Skip(c, |head|), h, m, b);
    }
  }

  lemma NoHeader()
    ensures EncDataHeader(None) == []
  {
  }

  lemma AfterError(c: Cursor, h: Option<DataHeader>)
    requires c.err.Some?
    ensures ReadDataBody(c, h) == Unreadable(c.err.value)
  {
  }

  /** The same for the layout of SETSESSIONATTR and the batch requests; nothing at all may be an acknowledgement. */
  lemma TruncatedPayload(lib: Library, ack: bool, h: Header, m: Meta, rows: seq<seq<Value>>, prefix: seq<byte>)
    requires HeaderInRange(h) && Storable(m) && Writable(m) && RowsWritable(m, rows) && RowsSized(lib, m, rows)
    requires TypePerColumn(m, rows) && EncPayload(lib, h, Some(m), rows).ok
    requires prefix < EncPayload(lib, h, Some(m), rows).bytes
    ensures DecPayload(ack, prefix) == Bare <==> ack && prefix == []
    ensures DecPayload(ack, prefix).Crashed? <==> CutInCount(m, |prefix| - 18)
    ensures !DecPayload(ack, prefix).Rows?
  {
    hide EncMeta, EncRowBlock, ReadHeader, ReadMeta, ReadRowBlock, EncHeader, Storable, HeaderInRange, RowsSized, TypePerColumn;
    var head, meta, block := EncHeader(h), EncMeta(Some(m)), EncRowBlock(lib, Some(m), rows).bytes;
    var c := Cursor(prefix, 0, None);
    assert prefix[0..] == prefix;
    HeaderNotEmpty(h);
    HeaderReads(c, h);
    CutSplit(c, head, meta + block);
    var d := ReadHeader(c).1;
    if Cut(c, head) {
      ErrorNoPanic(d);
    } else {
      TailCut(d, lib, m, rows);
    }
  }

  /** Metadata and rows in that layout, cut. */
  lemma TailCut(d: Cursor, lib: Library, m: Meta, rows: seq<seq<Value>>)
    requires Storable(m) && Writable(m) && RowsWritable(m, rows) && RowsSized(lib, m, rows)
    requires TypePerColumn(m, rows) && EncRowBlock(lib, Some(m), rows).ok
    requires Cut(d, EncMeta(Some(m)) + EncRowBlock(lib, Some(m), rows).bytes)
    ensures match ReadMeta(d)
            case Panic => CutInCount(m, |d.buf| - d.pos)
            case Read(x, e) => !CutInCount(m, |d.buf| - d.pos) && ReadRowBlock(e, x.types).1.err.Some?
  {
    hide EncMeta, EncRowBlock, ReadMeta, ReadRowBlock, Storable, Stored, RowsSized, RowsBack, TypePerColumn;
    var meta, block := EncMeta(Some(m)), EncRowBlock(lib, Some(m), rows).bytes;
    CutSplit(d, meta, block);
    HeadReads(d, m);
    if At(d, meta) {
      BlockBack(Skip(d, |meta|), lib, m, rows);
    }
  }
}

/**
 * internal/proto/result.go: row blocks, and the payload shared by SETSESSIONATTR, BATCHEXECUTE
 * and BATCHEXECDIRECT requests and by the BATCHEXECRESPONSE and SETSESSIONATTR answers.
 */
module Payload {
  import opened Bytes
  import opened Wire
  import opened Values
  import opened ValueIO
  import opened Metadata

  /** The integers in front of the metadata. */
  datatype Header = Header(updateCount: int, fetchSize: int, statementID: int, queryTimeout: int)

  /** A decoded payload, a bare acknowledgement, a decoding error or a run-time panic. */
  datatype Decoded = Rows(header: Header, meta: Meta, rows: seq<seq<Value>>) | Bare | Failed(err: Error) | Crashed

  /** One value per column: a short row is filled up with NULL, a long one cut. */
  function PadRow(row: seq<Value>, n: nat): (r: seq<Value>)
    ensures |r| == n
  {
    seq(n, i requires 0 <= i < n => if i < |row| then row[i] else Null)
  }

  function PadRows(rows: seq<seq<Value>>, n: nat): (r: seq<seq<Value>>)
    ensures |r| == |rows|
  {
    seq(|rows|, i requires 0 <= i < |rows| => PadRow(rows[i], n))
  }

  // ----- writing

  /** One value after another, up to the first that fails. */
  function EncRow(lib: Library, ts: seq<ColumnType>, vs: seq<Value>): Written
    requires |ts| == |vs|
  {
    if vs == [] then Written([], true)
    else
      var w := EncValue(lib, ts[0], vs[0]);
      if !w.ok then w
      else
        var rest := EncRow(lib, ts[1..], vs[1..]);
        Written(w.bytes + rest.bytes, rest.ok)
  }

  function EncRows(lib: Library, ts: seq<ColumnType>, rows: seq<seq<Value>>): Written
  {
    if rows == [] then Written([], true)
    else
      var w := EncRow(lib, ts, PadRow(rows[0], |ts|));
      if !w.ok then w
      else
        var rest := EncRows(lib, ts, rows[1..]);
        Written(w.bytes + rest.bytes, rest.ok)
  }

  /** The column types writeSimpleRows uses. */
  function RowTypes(m: Meta): seq<ColumnType>
    requires m.columnCount <= |m.types|
  {
    m.types[..Count(m.columnCount)]
  }

  /** Whether writeSimpleRows stays within the types it indexes. */
  predicate RowsWritable(m: Meta, rows: seq<seq<Value>>) {
    rows != [] ==> m.columnCount <= |m.types|
  }

  /** writeSimpleRows: a count and the rows. */
  function EncRowBlock(lib: Library, m: Option<Meta>, rows: seq<seq<Value>>): Written
    requires m.Some? ==> RowsWritable(m.value, rows)
  {
    match m
    case None => Written(BigEndian(0, 4), true)
    case Some(m) =>
      if rows == [] then Written(BigEndian(0, 4), true)
      else
        var w := EncRows(lib, RowTypes(m), rows);
        Written(BigEndian(|rows|, 4) + w.bytes, w.ok)
  }

  function EncHeader(h: Header): seq<byte> {
    BigEndian(h.updateCount, 4) + (BigEndian(h.fetchSize, 4)
      + (BigEndian(h.statementID, 8) + BigEndian(h.queryTimeout, 2)))
  }

  /** EncodePayload for the three request modes with this layout. */
  function EncPayload(lib: Library, h: Header, m: Option<Meta>, rows: seq<seq<Value>>): Written
    requires m.Some? ==> Writable(m.value) && RowsWritable(m.value, rows)
  {
    var block := EncRowBlock(lib, m, rows);
    Written(EncHeader(h) + (EncMeta(m) + block.bytes), block.ok)
  }

  // ----- reading

  function ReadRow(c: Cursor, ts: seq<ColumnType>): (r: (seq<Value>, Cursor))
    ensures |r.0| == |ts| && Follows(c, r.1)
    decreases |ts|
  {
    if ts == [] then ([], c)
    else
      var (v, d) := ReadValue(c, ts[0]);
      var (vs, e) := ReadRow(d, ts[1..]);
      ([v] + vs, e)
  }

  /** The row loop: a row that met an error is kept and ends the loop. */
  function ReadRows(c: Cursor, ts: seq<ColumnType>, n: nat): (r: (seq<seq<Value>>, Cursor))
    ensures Follows(c, r.1)
    ensures forall row | row in r.0 :: |row| == |ts|
    decreases n
  {
    if n == 0 then ([], c)
    else
      var (row, d) := ReadRow(c, ts);
      if d.err.Some? then ([row], d)
      else
        var (rows, e) := ReadRows(d, ts, n - 1);
        ([row] + rows, e)
  }

  lemma ReadRowsStep(c: Cursor, ts: seq<ColumnType>, n: nat)
    requires n > 0
    ensures var (row, d) := ReadRow(c, ts);
            var (rest, e) := ReadRows(d, ts, n - 1);
            ReadRows(c, ts, n).1 == e && (e.err.None? ==> ReadRows(c, ts, n).0 == [row] + rest)
  {
    hide ReadRow;
  }

  /** readRowSetSimple. */
  function ReadRowBlock(c: Cursor, ts: seq<ColumnType>): (r: (seq<seq<Value>>, Cursor))
    ensures Follows(c, r.1)
    ensures forall row | row in r.0 :: |row| == |ts|
  {
    var (n, d) := ReadFixed(c, 4);
    if d.err.Some? || n < 0 then ([], d) else ReadRows(d, ts, n)
  }

  function ReadHeader(c: Cursor): (r: (Header, Cursor))
    ensures Follows(c, r.1)
  {
    var (updateCount, c1) := ReadFixed(c, 4);
    var (fetchSize, c2) := ReadFixed(c1, 4);
    var (statementID, c3) := ReadFixed(c2, 8);
    var (queryTimeout, c4) := ReadFixed(c3, 2);
    (Header(updateCount, fetchSize, statementID, queryTimeout), c4)
  }

  /** DecodeResult for this layout; only an answer to SETSESSIONATTR may be empty. */
  function DecPayload(sessionAttr: bool, payload: seq<byte>): Decoded {
    if sessionAttr && payload == [] then Bare
    else
      var (h, c) := ReadHeader(Cursor(payload, 0, None));
      match ReadMeta(c)
      case Panic => Crashed
      case Read(m, d) =>
        var (rows, e) := ReadRowBlock(d, m.types);
        if e.err.Some? then Failed(e.err.value) else Rows(h, m, rows)
  }

  // ----- the loops

  method WriteSimpleRows(w: RowOutput, lib: Library, m: Option<Meta>, rows: seq<seq<Value>>) returns (ok: bool)
    requires m.Some? ==> RowsWritable(m.value, rows)
    modifies w
    ensures var e := EncRowBlock(lib, m, rows); w.buf == old(w.buf) + e.bytes && ok == e.ok
  {
    hide BigEndian, EncRow;
    if m.None? {
      w.WriteInt(0);
      return true;
    }
    w.WriteInt(|rows|);
    if rows == [] {
      return true;
    }
    ok := WriteRows(w, lib, m.value, rows);
  }

  /** The outer loop of writeSimpleRows. */
  method WriteRows(w: RowOutput, lib: Library, m: Meta, rows: seq<seq<Value>>) returns (ok: bool)
    requires m.columnCount <= |m.types|
    modifies w
    ensures var e := EncRows(lib, RowTypes(m), rows); w.buf == old(w.buf) + e.bytes && ok == e.ok
  {
    hide EncRow, PadRow;
    ghost var ts := RowTypes(m);
    ghost var sofar: seq<byte> := [];
    for k := 0 to |rows|
      invariant w.buf == old(w.buf) + sofar
      invariant EncRows(lib, ts, rows).bytes == sofar + EncRows(lib, ts, rows[k..]).bytes
      invariant EncRows(lib, ts, rows).ok == EncRows(lib, ts, rows[k..]).ok
    {
      assert rows[k..][1..] == rows[k + 1..];
      ok := WriteRow(w, lib, m, rows[k]);
      sofar := sofar + EncRow(lib, ts, PadRow(rows[k], |ts|)).bytes;
      if !ok {
        return;
      }
    }
    assert sofar + [] == sofar;
    ok := true;
  }

  /** The inner loop of writeSimpleRows. */
  method WriteRow(w: RowOutput, lib: Library, m: Meta, row: seq<Value>) returns (ok: bool)
    requires m.columnCount <= |m.types|
    modifies w
    ensures var e := EncRow(lib, RowTypes(m), PadRow(row, |RowTypes(m)|)); w.buf == old(w.buf) + e.bytes && ok == e.ok
  {
    hide EncValue;
    var n := Count(m.columnCount);
    ghost var ts, vs := RowTypes(m), PadRow(row, n);
    ghost var sofar: seq<byte> := [];
    for i := 0 to n
      invariant w.buf == old(w.buf) + sofar
      invariant EncRow(lib, ts, vs)
             == Written(sofar + EncRow(lib, ts[i..], vs[i..]).bytes, EncRow(lib, ts[i..], vs[i..]).ok)
    {
      assert ts[i..][1..] == ts[i + 1..] && vs[i..][1..] == vs[i + 1..];
      var v := if i < |row| then row[i] else Null;
      ok := WriteValue(w, lib, m.types[i], v);
      sofar := sofar + EncValue(lib, ts[i], vs[i]).bytes;
      if !ok {
        return;
      }
    }
    assert sofar + [] == sofar;
    ok := true;
  }

  method ReadRowSetSimple(r: RowInput, ts: seq<ColumnType>) returns (rows: seq<seq<Value>>)
    requires r.Valid()
    modifies r
    ensures r.Valid() && (rows, r.Cur()) == ReadRowBlock(old(r.Cur()), ts)
  {
    hide ReadFixed, ReadRow;
    var n := r.Int();
    if r.err.Some? || n < 0 {
      return [];
    }
    rows := ReadRowLoop(r, ts, n);
  }

  /** The row loop, which stops after the row that met an error. */
  method ReadRowLoop(r: RowInput, ts: seq<ColumnType>, n: nat) returns (rows: seq<seq<Value>>)
    requires r.Valid()
    modifies r
    ensures r.Valid() && (rows, r.Cur()) == ReadRows(old(r.Cur()), ts, n)
  {
    hide ReadRow, Follows;
    ghost var start := r.Cur();
    rows := [];
    for i := 0 to n
      invariant r.Valid()
      invariant ReadRows(start, ts, n).0 == rows + ReadRows(r.Cur(), ts, n - i).0
      invariant ReadRows(start, ts, n).1 == ReadRows(r.Cur(), ts, n - i).1
    {
      ghost var before := rows;
      ghost var rest := ReadRows(r.Cur(), ts, n - i).0;
      var row := ReadRowValues(r, ts);
      rows := rows + [row];
      assert before + ([row] + rest[1..]) == (before + [row]) + rest[1..];
      if r.err.Some? {
        assert rest == [row];
        return;
      }
    }
    assert rows + [] == rows;
  }

  method ReadRowValues(r: RowInput, ts: seq<ColumnType>) returns (row: seq<Value>)
    requires r.Valid()
    modifies r
    ensures r.Valid() && (row, r.Cur()) == ReadRow(old(r.Cur()), ts)
  {
    hide ReadValue;
    ghost var start := r.Cur();
    row := [];
    for j := 0 to |ts|
      invariant r.Valid()
      invariant ReadRow(start, ts).0 == row + ReadRow(r.Cur(), ts[j..]).0
      invariant ReadRow(start, ts).1 == ReadRow(r.Cur(), ts[j..]).1
    {
      assert ts[j..][1..] == ts[j + 1..];
      ghost var before := row;
      ghost var rest := ReadRow(r.Cur(), ts[j..]).0;
      var v := ReadValueFrom(r, ts[j]);
      row := row + [v];
      assert before + ([v] + rest[1..]) == (before + [v]) + rest[1..];
    }
    assert row + [] == row;
  }

  method EncodePayload(w: RowOutput, lib: Library, h: Header, m: Option<Meta>, rows: seq<seq<Value>>) returns (ok: bool)
    requires m.Some? ==> Writable(m.value) && RowsWritable(m.value, rows)
    modifies w
    ensures var e := EncPayload(lib, h, m, rows); w.buf == old(w.buf) + e.bytes && ok == e.ok
  {
    hide BigEndian, EncMeta, EncRowBlock;
    w.WriteInt(h.updateCount);
    w.WriteInt(h.fetchSize);
    w.WriteLong(h.statementID);
    w.WriteShort(h.queryTimeout);
    assert w.buf == old(w.buf) + EncHeader(h);
    WriteMetadata(w, m);
    ok := WriteSimpleRows(w, lib, m, rows);
    assert w.buf == old(w.buf) + (EncHeader(h) + (EncMeta(m) + EncRowBlock(lib, m, rows).bytes));
  }

  method DecodePayload(sessionAttr: bool, payload: seq<byte>) returns (out: Decoded)
    ensures out == DecPayload(sessionAttr, payload)
  {
    hide ReadFixed, ReadMeta, ReadRowBlock;
    if sessionAttr && payload == [] {
      return Bare;
    }
    var r := new RowInput(payload);
    var updateCount := r.Int();
    var fetchSize := r.Int();
    var statementID := r.Long();
    var queryTimeout := r.Short();
    var m := ReadMetadata(r);
    if m.None? {
      return Crashed;
    }
    var rows := ReadRowSetSimple(r, m.value.types);
    if r.err.Some? {
      return Failed(r.err.value);
    }
    return Rows(Header(updateCount, fetchSize, statementID, queryTimeout), m.value, rows);
  }
}

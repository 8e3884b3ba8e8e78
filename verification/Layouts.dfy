/** The layouts both ends must agree on, by offset: what a round trip alone would not notice. */
module Layouts {
  import opened Bytes
  import opened Wire
  import opened Repeat
  import opened Values
  import opened ValueIO
  import opened Metadata
  import opened Payload
  import Frame

  /** The `k` bytes at an offset are those of the number. */
  predicate Holds(bs: seq<byte>, offset: nat, n: int, k: nat) {
    offset + k <= |bs| && bs[offset..offset + k] == BigEndian(n, k)
  }

  /** A frame: the mode, the length of everything behind the mode, the payload. */
  lemma FrameLayout(f: Frame.Frame)
    ensures var bs := Frame.EncFrame(f);
            |bs| == 5 + |f.payload| && bs[0] == f.mode && Holds(bs, 1, |bs| - 1, 4) && bs[5..] == f.payload
  {
    hide BigEndian;
  }

  /** The integers in front of the metadata of a batch. */
  lemma HeaderLayout(h: Header)
    ensures var bs := EncHeader(h);
            && |bs| == 18
            && Holds(bs, 0, h.updateCount, 4) && Holds(bs, 4, h.fetchSize, 4)
            && Holds(bs, 8, h.statementID, 8) && Holds(bs, 16, h.queryTimeout, 2)
  {
    hide BigEndian;
  }

  /** A type descriptor; only that of an ARRAY (50) has a base code. */
  lemma TypeLayout(t: ColumnType)
    ensures var bs := EncTypeSimple(t);
            if t.code == 50 then |bs| == 4 && Holds(bs, 0, 50, 2) && Holds(bs, 2, t.base, 2)
            else |bs| == 2 && Holds(bs, 0, t.code, 2)
    ensures var bs, n := EncType(t), if t.code == 50 then 4 else 2;
            |bs| == n + 12 && bs[..n] == EncTypeSimple(t) && Holds(bs, n, t.precision, 8) && Holds(bs, n + 8, t.scale, 4)
  {
    hide BigEndian;
  }

  /** The parts of a column and of a parameter, in order. */
  lemma ColumnLayout(c: Column, p: Param)
    ensures EncColumn(c) == EncString(c.caption) + EncString(c.catalog) + EncString(c.schema) + EncString(c.table)
                            + EncString(c.name) + [c.attrs]
    ensures EncParam(p) == EncType(p.typ) + EncString(p.caption) + [p.attrs]
  {
    hide EncString, EncType;
  }

  /** The six kinds of metadata by number: what stands behind the kind and the column count. */
  lemma MetaLayout(m: Meta)
    requires Writable(m)
    ensures var bs := EncMeta(Some(m));
            |bs| >= 8 && Holds(bs, 0, m.metaType, 4) && Holds(bs, 4, m.columnCount, 4)
    ensures var rest := EncMeta(Some(m))[8..];
            && (m.metaType == 2 || m.metaType == 3 ==> rest == EncAll(EncTypeSimple, m.types))
            && (m.metaType == 4 ==> rest == EncAll(EncParam, Params(m, Count(m.columnCount))))
            && (m.metaType == 5 ==> rest == EncAll(EncInt, m.colIndexes))
            && (m.metaType == 6 ==> rest == EncAll(EncString, m.labels))
            && (m.metaType !in {1, 2, 3, 4, 5, 6} ==> rest == [])
    ensures m.metaType == 1 && m.extendedCount >= 0 && m.columnCount >= 0 ==>
              var rest := EncMeta(Some(m))[8..];
              && Holds(rest, 0, m.extendedCount, 4)
              && rest[4..] == EncAll(EncType, m.types[..m.extendedCount]) + EncAll(EncColumn, m.columns[..m.columnCount])
                              + if m.columnCount == m.extendedCount then [] else EncAll(EncInt, m.colIndexes)
  {
    hide BigEndian, EncAll;
    var bs, body := EncMeta(Some(m)), EncBody(m);
    assert bs[8..] == body;
    if m.metaType == 1 && m.extendedCount >= 0 && m.columnCount >= 0 {
      var a, b, c := EncAll(EncType, m.types[..m.extendedCount]), EncAll(EncColumn, m.columns[..m.columnCount]),
                     if m.columnCount == m.extendedCount then [] else EncAll(EncInt, m.colIndexes);
      assert body == BigEndian(m.extendedCount, 4) + (a + (b + c));
      assert body[4..] == a + (b + c) == a + b + c;
    }
  }
}

/** What every sequence of reads keeps, whatever the bytes are. */
module ReaderRuns {
  import opened Bytes
  import opened Wire
  import opened Repeat
  import opened Values
  import opened ValueIO
  import opened Metadata
  import opened Payload
  import MetadataLaws

  /** The reads a decoder makes, from single bytes to whole metadata and row blocks. */
  datatype ReadOp =
    | OneByte
    | Fixed(width: nat)
    | ByteString
    | Text
    | DecimalNumber
    | SimpleDescriptor
    | Descriptor
    | Item(typ: ColumnType)
    | Block(types: seq<ColumnType>)
    | MetadataBlock

  /** The cursor after one read; only metadata can panic. */
  function Step(c: Cursor, op: ReadOp): Option<Cursor> {
    match op
    case OneByte => Some(ReadU8(c).1)
    case Fixed(k) => Some(ReadFixed(c, k).1)
    case ByteString => Some(ReadBytes(c).1)
    case Text => Some(ReadString(c).1)
    case DecimalNumber => Some(ReadDecimal(c).2)
    case SimpleDescriptor => Some(ReadTypeSimple(c).1)
    case Descriptor => Some(ReadType(c).1)
    case Item(t) => Some(ReadValue(c, t).1)
    case Block(ts) => Some(ReadRowBlock(c, ts).1)
    case MetadataBlock => match ReadMeta(c) case Read(_, d) => Some(d) case Panic => None
  }

  function Run(c: Cursor, ops: seq<ReadOp>): Option<Cursor>
    decreases |ops|
  {
    if ops == [] then Some(c)
    else match Step(c, ops[0]) case None => None case Some(d) => Run(d, ops[1..])
  }

  // ----- metadata

  lemma LoopsFollow(c: Cursor, n: nat)
    ensures Follows(c, ReadMany(ReadInt, c, n).1) && Follows(c, ReadMany(ReadString, c, n).1)
    ensures Follows(c, ReadMany(ReadParam, c, n).1) && Follows(c, ReadMany(ReadTypeSimple, c, n).1)
    ensures Follows(c, ReadMany(ReadType, c, n).1) && Follows(c, ReadMany(ReadColumn, c, n).1)
  {
    MetadataLaws.ParamReader();
    MetadataLaws.ColumnReader();
    hide ReadMany, ReadParam, ReadColumn, ReadString, ReadType, ReadTypeSimple, ReadFixed, Follows;
    ReadManyFollows(ReadInt, c, n);
    ReadManyFollows(ReadString, c, n);
    ReadManyFollows(ReadParam, c, n);
    ReadManyFollows(ReadTypeSimple, c, n);
    ReadManyFollows(ReadType, c, n);
    ReadManyFollows(ReadColumn, c, n);
  }

  lemma FollowsThen(c: Cursor, d: Cursor, e: Cursor)
    requires Follows(c, d) && Follows(d, e)
    ensures Follows(c, e)
  {
  }

  lemma ResultMetaFollows(c: Cursor, m: Meta)
    ensures var r := ReadResultMeta(c, m); r.Read? ==> Follows(c, r.cur)
  {
    hide ReadMany, ReadFixed, Typed, Follows;
    var (ext, d) := ReadFixed(c, 4);
    if 0 <= m.columnCount <= ext {
      var e := ReadMany(ReadType, d, ext).1;
      var f := ReadMany(ReadColumn, e, m.columnCount).1;
      var g := ReadMany(ReadInt, f, m.columnCount).1;
      LoopsFollow(d, ext);
      LoopsFollow(e, m.columnCount);
      LoopsFollow(f, m.columnCount);
      FollowsThen(c, d, e);
      FollowsThen(c, e, f);
      FollowsThen(c, f, g);
    }
  }

  lemma MetaFollows(c: Cursor)
    ensures var r := ReadMeta(c); r.Read? ==> Follows(c, r.cur)
  {
    hide ReadMany, ReadFixed, ReadResultMeta, ParamTypes, ParamColumns;
    var (metaType, d) := ReadFixed(c, 4);
    var (n, e) := ReadFixed(d, 4);
    var m := Meta(metaType, n, 0, [], [], [], []);
    ResultMetaFollows(e, m);
    LoopsFollow(e, Count(n));
  }

  // ----- any sequence of reads

  lemma StepFollows(c: Cursor, op: ReadOp)
    ensures Step(c, op).Some? ==> Follows(c, Step(c, op).value)
  {
    hide ReadU8, ReadFixed, ReadBytes, ReadString, ReadDecimal, ReadTypeSimple, ReadType, ReadValue, ReadRowBlock, ReadMeta, Follows;
    MetaFollows(c);
  }

  lemma {:induction false} RunSplit(c: Cursor, ops: seq<ReadOp>, k: nat)
    requires k <= |ops|
    ensures Run(c, ops) == match Run(c, ops[..k]) case None => None case Some(d) => Run(d, ops[k..])
    decreases k
  {
    hide Step;
    if k == 0 {
      assert ops[..0] == [] && ops[0..] == ops;
    } else {
      assert ops[..k][0] == ops[0] && ops[..k][1..] == ops[1..][..k - 1] && ops[1..][k - 1..] == ops[k..];
      if Step(c, ops[0]).Some? {
        RunSplit(Step(c, ops[0]).value, ops[1..], k - 1);
      }
    }
  }

  lemma {:induction false} RunFollows(c: Cursor, ops: seq<ReadOp>)
    ensures Run(c, ops).Some? ==> Follows(c, Run(c, ops).value)
    decreases |ops|
  {
    hide Step;
    if ops != [] && Step(c, ops[0]).Some? {
      StepFollows(c, ops[0]);
      RunFollows(Step(c, ops[0]).value, ops[1..]);
    }
  }

  /**
   * Over any sequence of reads the buffer stays, the position stays within it and never moves
   * back, and the first error stops the reader for good: the cursor it left is the final one.
   */
  lemma ReaderKeeps(buf: seq<byte>, ops: seq<ReadOp>, k: nat)
    requires k <= |ops|
    requires Run(Cursor(buf, 0, None), ops).Some?
    ensures var end, mid := Run(Cursor(buf, 0, None), ops).value, Run(Cursor(buf, 0, None), ops[..k]);
            && end.buf == buf && 0 <= end.pos <= |buf|
            && mid.Some? && mid.value.pos <= end.pos
            && (mid.value.err.Some? ==> end == mid.value)
  {
    hide Step;
    var c := Cursor(buf, 0, None);
    RunSplit(c, ops, k);
    RunFollows(c, ops);
    RunFollows(c, ops[..k]);
    RunFollows(Run(c, ops[..k]).value, ops[k..]);
  }

  /** A run panics only at metadata read while no error has been met. */
  lemma {:induction false} PanicOnlyInMetadata(c: Cursor, ops: seq<ReadOp>) returns (k: nat)
    requires Run(c, ops).None?
    ensures k < |ops| && ops[k] == MetadataBlock
    ensures Run(c, ops[..k]).Some? && Run(c, ops[..k]).value.err.None?
    decreases |ops|
  {
    hide ReadU8, ReadFixed, ReadBytes, ReadString, ReadDecimal, ReadTypeSimple, ReadType, ReadValue, ReadRowBlock, ReadMeta;
    if Step(c, ops[0]).None? {
      k := 0;
      if c.err.Some? {
        ErrorNoPanic(c);
      }
      assert ops[..0] == [];
    } else {
      var j := PanicOnlyInMetadata(Step(c, ops[0]).value, ops[1..]);
      k := j + 1;
      assert ops[..k][0] == ops[0] && ops[..k][1..] == ops[1..][..j];
    }
  }

  lemma ErrorNoPanic(c: Cursor)
    requires c.err.Some?
    ensures ReadMeta(c) == Read(Meta(0, 0, 0, [], [], [], []), c)
  {
  }
}

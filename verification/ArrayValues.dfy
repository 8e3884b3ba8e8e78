/** internal/proto/types.go: ARRAY values, element by element, written and read. */
module ArrayValues {
  import opened Bytes
  import opened Wire
  import opened Values
  import opened TypeCodes

  /** Byte strings put end to end. */
  function Flat(parts: seq<seq<byte>>): seq<byte> {
    if parts == [] then [] else Flat(parts[..|parts| - 1]) + parts[|parts| - 1]
  }

  lemma {:induction false} FlatFirst(parts: seq<seq<byte>>)
    requires parts != []
    ensures Flat(parts) == parts[0] + Flat(parts[1..])
  {
    if |parts| == 1 {
      assert parts[..0] == [] && parts[1..] == [];
    } else {
      var init, last := parts[..|parts| - 1], parts[|parts| - 1];
      FlatFirst(init);
      assert parts[1..][..|parts| - 2] == init[1..];
      assert Flat(parts[1..]) == Flat(init[1..]) + last;
      assert parts[0] + (Flat(init[1..]) + last) == (parts[0] + Flat(init[1..])) + last;
    }
  }

  /** The elements written so far, and whatever the writing of the others comes to. */
  lemma {:induction false} ElementsWritten(lib: Library, t: ColumnType, vs: seq<Value>, parts: seq<seq<byte>>)
    requires |parts| <= |vs| && forall i | 0 <= i < |parts| :: EncValue(lib, t, vs[i]) == Written(parts[i], true)
    ensures var rest := EncElems(lib, t, vs[|parts|..]);
            EncElems(lib, t, vs) == Written(Flat(parts) + rest.bytes, rest.ok)
    decreases |parts|
  {
    hide EncValue;
    if parts == [] {
      assert vs[0..] == vs;
    } else {
      FlatFirst(parts);
      ElementsWritten(lib, t, vs[1..], parts[1..]);
      assert vs[1..][|parts| - 1..] == vs[|parts|..];
    }
  }

  /**
   * ARRAY: the number of elements and the elements, each a value of the base code with no
   * precision or scale. Only an array is accepted.
   */
  lemma Arrays(lib: Library, t: ColumnType, vs: seq<Value>, elemCode: int, parts: seq<seq<byte>>, v: Value)
    requires t.code == 50 && !v.Null? && !v.Arr? && |parts| == |vs|
    requires forall i | 0 <= i < |vs| :: EncValue(lib, ColumnType(t.base, 0, 0, 0), vs[i]) == Written(parts[i], true)
    ensures Writes(lib, t, Arr(vs, elemCode), BigEndian(|vs|, 4) + Flat(parts)) && Refused(lib, t, v)
  {
    hide BigEndian, EncElems;
    ElementsWritten(lib, ElemType(t.base), vs, parts);
    NoElements(lib, ElemType(t.base), vs[|vs|..]);
    assert Flat(parts) + [] == Flat(parts);
  }

  lemma NoElements(lib: Library, t: ColumnType, none: seq<Value>)
    requires none == []
    ensures EncElems(lib, t, none) == Written([], true)
  {
  }

  /** Writing an array ends at the first element that is refused, behind what it wrote of it. */
  lemma ArrayRefused(lib: Library, t: ColumnType, vs: seq<Value>, elemCode: int, parts: seq<seq<byte>>, partial: seq<byte>)
    requires t.code == 50 && |parts| < |vs|
    requires forall i | 0 <= i < |parts| :: EncValue(lib, ColumnType(t.base, 0, 0, 0), vs[i]) == Written(parts[i], true)
    requires EncValue(lib, ColumnType(t.base, 0, 0, 0), vs[|parts|]) == Written(partial, false)
    ensures EncValue(lib, t, Arr(vs, elemCode)) == Written([1] + (BigEndian(|vs|, 4) + (Flat(parts) + partial)), false)
  {
    hide BigEndian;
    ElementsWritten(lib, ElemType(t.base), vs, parts);
  }

  /** These bytes, flag and all, are read as the value. */
  ghost predicate ReadsWhole(t: ColumnType, bytes: seq<byte>, v: Value) {
    forall c: Cursor | At(c, bytes) :: c.pos + |bytes| <= |c.buf| && ReadValue(c, t) == (v, Skip(c, |bytes|))
  }

  lemma WholeRead(c: Cursor, t: ColumnType, bytes: seq<byte>, v: Value)
    requires ReadsWhole(t, bytes, v) && At(c, bytes)
    ensures c.pos + |bytes| <= |c.buf| && ReadValue(c, t) == (v, Skip(c, |bytes|))
  {
    hide ReadValue;
  }

  lemma ElementThen(c: Cursor, t: ColumnType, n: nat)
    requires n > 0 && ReadValue(c, t).1.err.None?
    ensures ReadElems(c, t, n)
         == ([ReadValue(c, t).0] + ReadElems(ReadValue(c, t).1, t, n - 1).0, ReadElems(ReadValue(c, t).1, t, n - 1).1)
  {
    hide ReadValue;
  }

  lemma {:induction false} ElementsRead(c: Cursor, t: ColumnType, parts: seq<seq<byte>>, shown: seq<Value>)
    requires |parts| == |shown| && At(c, Flat(parts)) && forall i | 0 <= i < |parts| :: ReadsWhole(t, parts[i], shown[i])
    ensures c.pos + |Flat(parts)| <= |c.buf| && ReadElems(c, t, |parts|) == (shown, Skip(c, |Flat(parts)|))
    decreases |parts|
  {
    hide ReadValue, ReadsWhole;
    if parts != [] {
      FlatFirst(parts);
      AtSplit(c, parts[0], Flat(parts[1..]));
      hide Flat, ReadElems, At;
      WholeRead(c, t, parts[0], shown[0]);
      ElementsRead(Skip(c, |parts[0]|), t, parts[1..], shown[1..]);
      ElementThen(c, t, |parts|);
      assert shown == [shown[0]] + shown[1..];
    }
  }

  /** An array is read element by element, with the base code on it. */
  lemma ArraysRead(t: ColumnType, parts: seq<seq<byte>>, shown: seq<Value>)
    requires t.code == 50 && |parts| == |shown| < INT32_LIMIT
    requires forall i | 0 <= i < |parts| :: ReadsWhole(ColumnType(t.base, 0, 0, 0), parts[i], shown[i])
    ensures Reads(t, BigEndian(|parts|, 4) + Flat(parts), Arr(shown, t.base))
  {
    var bs := BigEndian(|parts|, 4) + Flat(parts);
    hide *;
    forall c: Cursor | AtPresent(c, bs)
      ensures ReadsTo(c, t, bs, Arr(shown, t.base))
    {
      ArrayReadAt(c, t, parts, shown);
    }
    assert Reads(t, bs, Arr(shown, t.base)) by { Everywhere(t, bs, Arr(shown, t.base)); }
  }

  lemma Everywhere(t: ColumnType, bytes: seq<byte>, v: Value)
    requires forall c: Cursor | AtPresent(c, bytes) :: ReadsTo(c, t, bytes, v)
    ensures Reads(t, bytes, v)
  {
  }

  /** A negative count stands for no elements. */
  lemma NegativeCount(c: Cursor, t: ColumnType, n: int)
    requires t.code == 50 && n < 0 && Fits(n, 4)
    requires AtPresent(c, BigEndian(n, 4))
    ensures ReadsTo(c, t, BigEndian(n, 4), Arr([], 0))
  {
    hide BigEndian, Fits, ReadElems, ReadValue, ReadFixed, At;
    CountRead(c, t);
    FixedCodec(Skip(c, 1), n, 4);
  }

  /** An array is read as its count and then its elements. */
  lemma CountRead(c: Cursor, t: ColumnType)
    requires t.code == 50 && c.err.None? && c.pos < |c.buf| && c.buf[c.pos] != 0
    ensures var (n, e) := ReadFixed(Skip(c, 1), 4);
            ReadValue(c, t) == if e.err.Some? || n < 0 then (Arr([], 0), e)
                               else (Arr(ReadElems(e, ElemType(t.base), n).0, t.base), ReadElems(e, ElemType(t.base), n).1)
  {
    hide ReadElems, ReadFixed;
  }

  /** The count and the elements of an array, one after the other. */
  lemma CountAt(c: Cursor, t: ColumnType, parts: seq<seq<byte>>, shown: seq<Value>)
    requires |parts| == |shown| < INT32_LIMIT && At(c, BigEndian(|parts|, 4) + Flat(parts))
    requires forall i | 0 <= i < |parts| :: ReadsWhole(t, parts[i], shown[i])
    ensures c.pos + 4 + |Flat(parts)| <= |c.buf| && ReadFixed(c, 4) == (|parts|, Skip(c, 4))
    ensures ReadElems(Skip(c, 4), t, |parts|) == (shown, Skip(c, 4 + |Flat(parts)|))
  {
    hide BigEndian, Fits, Flat, ReadElems, At, ReadFixed, ReadsWhole, Wrap;
    AtSplit(c, BigEndian(|parts|, 4), Flat(parts));
    Int32Range(|parts|);
    FixedCodec(c, |parts|, 4);
    ElementsRead(Skip(c, 4), t, parts, shown);
  }

  lemma ArrayReadAt(c: Cursor, t: ColumnType, parts: seq<seq<byte>>, shown: seq<Value>)
    requires t.code == 50 && |parts| == |shown| < INT32_LIMIT
    requires AtPresent(c, BigEndian(|parts|, 4) + Flat(parts))
    requires forall i | 0 <= i < |parts| :: ReadsWhole(ColumnType(t.base, 0, 0, 0), parts[i], shown[i])
    ensures ReadsTo(c, t, BigEndian(|parts|, 4) + Flat(parts), Arr(shown, t.base))
  {
    hide BigEndian, Flat, ReadElems, ReadValue, At, ReadFixed, ReadsWhole;
    CountRead(c, t);
    CountAt(Skip(c, 1), ElemType(t.base), parts, shown);
  }
}

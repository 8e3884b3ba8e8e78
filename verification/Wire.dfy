/**
 * internal/proto: the append-only writer (rowout.go) and the cursor reader with a sticky error
 * (rowin.go). The functions say what is written and read; the classes change a buffer and a
 * cursor in place and are proved against them.
 */
module Wire {
  import opened Bytes
  import ModifiedUtf8
  import TwosComplement

  datatype Error = ShortBuffer | BadTypeCode(code: int) | BadMetaType(metaType: int)

  datatype CursorData = Cursor(buf: seq<byte>, pos: nat, err: Option<Error>)

  type Cursor = c: CursorData | c.pos <= |c.buf| witness Cursor([], 0, None)

  const INT32_LIMIT := 0x8000_0000

  // ----- what a reader may do to a cursor

  /** Every read keeps the buffer, never moves back, and after an error changes nothing at all. */
  predicate Follows(c: Cursor, d: Cursor) {
    && d.buf == c.buf
    && c.pos <= d.pos
    && (c.err.Some? ==> d == c)
  }

  /** The bytes `bs` are the next ones and no error has been met. */
  ghost predicate At(c: Cursor, bs: seq<byte>) {
    c.err.None? && bs <= c.buf[c.pos..]
  }

  /** The input ends inside `bs`: what remains is a strict prefix of it. */
  ghost predicate Cut(c: Cursor, bs: seq<byte>) {
    c.err.None? && c.buf[c.pos..] < bs
  }

  function Skip(c: Cursor, n: nat): Cursor
    requires c.pos + n <= |c.buf|
  {
    c.(pos := c.pos + n)
  }

  lemma AtSplit(c: Cursor, a: seq<byte>, b: seq<byte>)
    requires At(c, a + b)
    ensures At(c, a) && c.pos + |a| <= |c.buf| && At(Skip(c, |a|), b)
    ensures c.pos + |a + b| <= |c.buf| && Skip(c, |a + b|) == Skip(Skip(c, |a|), |b|)
  {
  }

  lemma CutSplit(c: Cursor, a: seq<byte>, b: seq<byte>)
    requires Cut(c, a + b)
    ensures Cut(c, a) || (At(c, a) && c.pos + |a| <= |c.buf| && Cut(Skip(c, |a|), b))
  {
  }

  // ----- readers as functions

  /** `need(n)` followed by taking the n bytes. */
  function Take(c: Cursor, n: nat): (r: (Option<seq<byte>>, Cursor))
    ensures Follows(c, r.1)
    ensures r.0.Some? ==> |r.0.value| == n && c.err.None? && r.1 == c.(pos := c.pos + n)
    ensures r.0.None? ==> r.1.err.Some?
  {
    if c.err.Some? then (None, c)
    else if c.pos + n > |c.buf| then (None, c.(err := Some(ShortBuffer)))
    else (Some(c.buf[c.pos..c.pos + n]), Skip(c, n))
  }

  function ReadU8(c: Cursor): (r: (byte, Cursor))
    ensures Follows(c, r.1)
    ensures r.0 != 0 ==> r.1.err.None?
  {
    match Take(c, 1)
    case (None, d) => (0, d)
    case (Some(b), d) => (b[0], d)
  }

  /** A signed big-endian integer of `k` bytes: ReadShort, ReadInt and ReadLong. */
  function ReadFixed(c: Cursor, k: nat): (r: (int, Cursor))
    ensures Follows(c, r.1)
    ensures r.1.err.Some? ==> r.0 == 0
  {
    match Take(c, k)
    case (None, d) => (0, d)
    case (Some(b), d) => (Signed(Val(b), k), d)
  }

  function ReadBytes(c: Cursor): (r: (seq<byte>, Cursor))
    ensures Follows(c, r.1)
  {
    var (n, d) := ReadFixed(c, 4);
    if d.err.Some? || n < 0 then ([], d)
    else
      match Take(d, n)
      case (None, e) => ([], e)
      case (Some(b), e) => (b, e)
  }

  function ReadString(c: Cursor): (r: (string, Cursor))
    ensures Follows(c, r.1)
  {
    var (b, d) := ReadBytes(c);
    (ModifiedUtf8.Decode(b), d)
  }

  /** The unscaled value and the scale. */
  function ReadDecimal(c: Cursor): (r: (int, int, Cursor))
    ensures Follows(c, r.2)
  {
    var (b, d) := ReadBytes(c);
    var (scale, e) := ReadFixed(d, 4);
    (TwosComplement.Decode(b), scale, e)
  }

  // ----- writers as functions

  function EncBytes(b: seq<byte>): seq<byte> {
    BigEndian(|b|, 4) + b
  }

  function EncString(s: string): seq<byte> {
    EncBytes(ModifiedUtf8.Encode(s))
  }

  function EncDecimal(unscaled: int, scale: int): seq<byte> {
    EncBytes(TwosComplement.Encode(unscaled)) + BigEndian(scale, 4)
  }

  // ----- readers undo writers, and notice a cut

  lemma TakeAt(c: Cursor, bs: seq<byte>)
    ensures At(c, bs) ==> c.pos + |bs| <= |c.buf| && Take(c, |bs|) == (Some(bs), Skip(c, |bs|))
    ensures Cut(c, bs) ==> Take(c, |bs|).0.None?
  {
    if At(c, bs) {
      assert bs == c.buf[c.pos..][..|bs|];
      assert c.buf[c.pos..c.pos + |bs|] == bs;
    }
  }

  lemma U8Codec(c: Cursor, b: byte)
    ensures At(c, [b]) ==> c.pos + 1 <= |c.buf| && ReadU8(c) == (b, Skip(c, 1))
    ensures Cut(c, [b]) ==> ReadU8(c).1.err.Some?
  {
  }

  /** Integers of any width: read back modulo the width, exactly when in range. */
  lemma FixedCodec(c: Cursor, n: int, k: nat)
    ensures At(c, BigEndian(n, k)) ==> c.pos + k <= |c.buf| && ReadFixed(c, k) == (Wrap(n, k), Skip(c, k))
    ensures Cut(c, BigEndian(n, k)) ==> ReadFixed(c, k).1.err.Some?
    ensures Fits(n, k) ==> Wrap(n, k) == n
  {
    hide BigEndian, Val, Wrap, Signed, Pow256;
    TakeAt(c, BigEndian(n, k));
    SignedBigEndian(n, k);
  }

  lemma Int32Range(n: int)
    ensures -INT32_LIMIT <= n < INT32_LIMIT <==> Fits(n, 4)
    ensures n >= INT32_LIMIT ==> Wrap(n, 4) != n
    ensures 0 <= n ==> Wrap(n, 4) <= n
  {
  }

  /** Byte strings below the int32 length limit; the reader also notices any cut. */
  lemma BytesCodec(c: Cursor, b: seq<byte>)
    requires |b| < INT32_LIMIT
    ensures At(c, EncBytes(b)) ==> c.pos + |EncBytes(b)| <= |c.buf| && ReadBytes(c) == (b, Skip(c, |EncBytes(b)|))
    ensures Cut(c, EncBytes(b)) ==> ReadBytes(c).1.err.Some?
  {
    hide BigEndian, Wrap, ReadFixed;
    var len := BigEndian(|b|, 4);
    Int32Range(|b|);
    FixedCodec(c, |b|, 4);
    if At(c, EncBytes(b)) {
      AtSplit(c, len, b);
      TakeAt(Skip(c, 4), b);
    }
    if Cut(c, EncBytes(b)) {
      CutSplit(c, len, b);
      if !Cut(c, len) {
        TakeAt(Skip(c, 4), b);
      }
    }
  }

  /** The int32 length makes the limit exact: longer byte strings never come back. */
  lemma BytesCodecIff(c: Cursor, b: seq<byte>)
    requires At(c, EncBytes(b))
    ensures ReadBytes(c).0 == b <==> |b| < INT32_LIMIT
  {
    hide BigEndian, Wrap, ReadFixed;
    if |b| < INT32_LIMIT {
      BytesCodec(c, b);
    } else {
      Int32Range(|b|);
      AtSplit(c, BigEndian(|b|, 4), b);
      FixedCodec(c, |b|, 4);
    }
  }

  /** A negative length stands for no bytes, and a length beyond the input is an error. */
  lemma OddLengths(c: Cursor, n: int)
    requires At(c, BigEndian(n, 4)) && Fits(n, 4)
    ensures c.pos + 4 <= |c.buf|
    ensures n < 0 ==> ReadBytes(c) == ([], Skip(c, 4))
    ensures n > |c.buf| - c.pos - 4 ==> ReadBytes(c) == ([], Skip(c, 4).(err := Some(ShortBuffer)))
  {
    hide BigEndian, Wrap, ReadFixed, Fits;
    FixedCodec(c, n, 4);
  }

  lemma StringCodec(c: Cursor, s: string)
    requires |ModifiedUtf8.Encode(s)| < INT32_LIMIT
    ensures At(c, EncString(s)) ==> c.pos + |EncString(s)| <= |c.buf| && ReadString(c) == (s, Skip(c, |EncString(s)|))
    ensures Cut(c, EncString(s)) ==> ReadString(c).1.err.Some?
  {
    hide EncBytes, ReadBytes;
    BytesCodec(c, ModifiedUtf8.Encode(s));
    ModifiedUtf8.RoundTrip(s);
  }

  lemma DecimalCodec(c: Cursor, unscaled: int, scale: int)
    requires |TwosComplement.Encode(unscaled)| < INT32_LIMIT && Fits(scale, 4)
    ensures At(c, EncDecimal(unscaled, scale)) ==>
              && c.pos + |EncDecimal(unscaled, scale)| <= |c.buf|
              && ReadDecimal(c) == (unscaled, scale, Skip(c, |EncDecimal(unscaled, scale)|))
    ensures Cut(c, EncDecimal(unscaled, scale)) ==> ReadDecimal(c).2.err.Some?
  {
    hide EncBytes, ReadBytes, BigEndian, ReadFixed, Wrap;
    var b := TwosComplement.Encode(unscaled);
    TwosComplement.RoundTrip(unscaled);
    hide TwosComplement.Encode, TwosComplement.Decode;
    BytesCodec(c, b);
    if At(c, EncDecimal(unscaled, scale)) {
      AtSplit(c, EncBytes(b), BigEndian(scale, 4));
      FixedCodec(Skip(c, |EncBytes(b)|), scale, 4);
    }
    if Cut(c, EncDecimal(unscaled, scale)) {
      CutSplit(c, EncBytes(b), BigEndian(scale, 4));
      if !Cut(c, EncBytes(b)) {
        FixedCodec(Skip(c, |EncBytes(b)|), scale, 4);
      }
    }
  }

  // ----- the writer

  class RowOutput {
    var buf: seq<byte>

    constructor ()
      ensures buf == []
    {
      buf := [];
    }

    method Reset()
      modifies this
      ensures buf == []
    {
      buf := [];
    }

    method WriteU8(b: byte)
      modifies this
      ensures buf == old(buf) + [b]
    {
      buf := buf + [b];
    }

    method WriteBool(v: bool)
      modifies this
      ensures buf == old(buf) + [if v then 1 else 0]
    {
      if v {
        buf := buf + [1];
      } else {
        buf := buf + [0];
      }
    }

    method WriteShort(v: int)
      modifies this
      ensures buf == old(buf) + BigEndian(v, 2)
    {
      assert BigEndian(v, 2) == [v / 0x100 % 256, v % 256] by { ShortBytes(v); }
      buf := buf + [v / 0x100 % 256, v % 256];
    }

    method WriteInt(v: int)
      modifies this
      ensures buf == old(buf) + BigEndian(v, 4)
    {
      hide BigEndian;
      IntBytes(v);
      buf := buf + [v / 0x100_0000 % 256, v / 0x1_0000 % 256, v / 0x100 % 256, v % 256];
    }

    method WriteLong(v: int)
      modifies this
      ensures buf == old(buf) + BigEndian(v, 8)
    {
      hide BigEndian;
      LongBytes(v);
      buf := buf + [v / 0x100_0000_0000_0000 % 256, v / 0x1_0000_0000_0000 % 256,
                    v / 0x100_0000_0000 % 256, v / 0x1_0000_0000 % 256,
                    v / 0x100_0000 % 256, v / 0x1_0000 % 256, v / 0x100 % 256, v % 256];
    }

    method WriteRaw(b: seq<byte>)
      modifies this
      ensures buf == old(buf) + b
    {
      buf := buf + b;
    }

    method WriteBytes(b: seq<byte>)
      modifies this
      ensures buf == old(buf) + EncBytes(b)
    {
      WriteInt(|b|);
      buf := buf + b;
    }

    method WriteString(s: string)
      modifies this
      ensures buf == old(buf) + EncString(s)
    {
      hide EncBytes;
      var enc := ModifiedUtf8.EncodeModifiedUTF8(s);
      WriteBytes(enc);
    }

    method WriteDecimal(unscaled: int, scale: int)
      modifies this
      ensures buf == old(buf) + EncDecimal(unscaled, scale)
    {
      hide EncBytes;
      WriteBytes(TwosComplement.Encode(unscaled));
      WriteInt(scale);
    }
  }

  lemma ShortBytes(v: int)
    ensures BigEndian(v, 2) == [v / 0x100 % 256, v % 256]
  {
  }

  lemma IntBytes(v: int)
    ensures BigEndian(v, 4) == [v / 0x100_0000 % 256, v / 0x1_0000 % 256, v / 0x100 % 256, v % 256]
  {
  }

  lemma LongBytes(v: int)
    ensures BigEndian(v, 8) == [v / 0x100_0000_0000_0000 % 256, v / 0x1_0000_0000_0000 % 256,
                                v / 0x100_0000_0000 % 256, v / 0x1_0000_0000 % 256,
                                v / 0x100_0000 % 256, v / 0x1_0000 % 256, v / 0x100 % 256, v % 256]
  {
    LowFour(v);
    var h := v / 0x1_0000_0000;
    IntBytes(h);
    assert h / 0x100_0000 == v / 0x100_0000_0000_0000 && h / 0x1_0000 == v / 0x1_0000_0000_0000
        && h / 0x100 == v / 0x100_0000_0000;
  }

  lemma LowFour(v: int)
    ensures BigEndian(v, 8) == BigEndian(v / 0x1_0000_0000, 4)
                             + [v / 0x100_0000 % 256, v / 0x1_0000 % 256, v / 0x100 % 256, v % 256]
  {
    var a := v / 256;
    var b := a / 256;
    var d := b / 256;
    assert b == v / 0x1_0000 && d == v / 0x100_0000 && d / 256 == v / 0x1_0000_0000;
    assert BigEndian(v, 8) == BigEndian(a, 7) + [v % 256];
    assert BigEndian(a, 7) == BigEndian(b, 6) + [a % 256];
    assert BigEndian(b, 6) == BigEndian(d, 5) + [b % 256];
    assert BigEndian(d, 5) == BigEndian(d / 256, 4) + [d % 256];
  }

  // ----- the reader

  class RowInput {
    const buf: seq<byte>
    var pos: nat
    var err: Option<Error>

    ghost predicate Valid()
      reads this
    {
      pos <= |buf|
    }

    ghost function Cur(): (c: Cursor)
      requires Valid()
      reads this
    {
      Cursor(buf, pos, err)
    }

    constructor (b: seq<byte>)
      ensures Valid() && Cur() == Cursor(b, 0, None)
    {
      buf, pos, err := b, 0, None;
    }

    method Need(n: nat) returns (ok: bool)
      requires Valid()
      modifies this`err
      ensures Valid()
      ensures ok <==> Take(old(Cur()), n).0.Some?
      ensures if ok then Cur() == old(Cur()) else Cur() == Take(old(Cur()), n).1
    {
      if err.Some? {
        return false;
      }
      if pos + n > |buf| {
        err := Some(ShortBuffer);
        return false;
      }
      return true;
    }

    method U8() returns (b: byte)
      requires Valid()
      modifies this
      ensures Valid() && (b, Cur()) == ReadU8(old(Cur()))
    {
      var ok := Need(1);
      if !ok {
        return 0;
      }
      b := buf[pos];
      pos := pos + 1;
    }

    method Short() returns (v: int)
      requires Valid()
      modifies this
      ensures Valid() && (v, Cur()) == ReadFixed(old(Cur()), 2)
    {
      var ok := Need(2);
      if !ok {
        return 0;
      }
      var u := Two(buf[pos], buf[pos + 1]);
      ShortVal(buf[pos..pos + 2]);
      v := if u < 0x8000 then u else u - 0x1_0000;
      pos := pos + 2;
    }

    method Int() returns (v: int)
      requires Valid()
      modifies this
      ensures Valid() && (v, Cur()) == ReadFixed(old(Cur()), 4)
    {
      hide Val, Signed;
      var ok := Need(4);
      if !ok {
        return 0;
      }
      var u := Four(buf[pos], buf[pos + 1], buf[pos + 2], buf[pos + 3]);
      IntVal(buf[pos..pos + 4]);
      v := if u < 0x8000_0000 then u else u - 0x1_0000_0000;
      pos := pos + 4;
    }

    method Long() returns (v: int)
      requires Valid()
      modifies this
      ensures Valid() && (v, Cur()) == ReadFixed(old(Cur()), 8)
    {
      hide Val, Signed;
      var ok := Need(8);
      if !ok {
        return 0;
      }
      var b := buf[pos..pos + 8];
      var hi := Four(b[0], b[1], b[2], b[3]);
      var lo := Four(b[4], b[5], b[6], b[7]);
      var u := hi * 0x1_0000_0000 + lo;
      LongVal(b);
      v := if u < 0x8000_0000_0000_0000 then u else u - 0x1_0000_0000_0000_0000;
      pos := pos + 8;
    }

    method Bytes() returns (out: seq<byte>)
      requires Valid()
      modifies this
      ensures Valid() && (out, Cur()) == ReadBytes(old(Cur()))
    {
      hide ReadFixed;
      var n := Int();
      if err.Some? || n < 0 {
        return [];
      }
      var ok := Need(n);
      if !ok {
        return [];
      }
      out := buf[pos..pos + n];
      pos := pos + n;
    }

    method String() returns (s: string)
      requires Valid()
      modifies this
      ensures Valid() && (s, Cur()) == ReadString(old(Cur()))
    {
      hide ReadFixed, ModifiedUtf8.Decode;
      ModifiedUtf8.DecodeNothing();
      var n := Int();
      if err.Some? || n < 0 {
        return "";
      }
      var ok := Need(n);
      if !ok {
        return "";
      }
      s := ModifiedUtf8.DecodeModifiedUTF8(buf[pos..pos + n]);
      pos := pos + n;
    }

    method Decimal() returns (unscaled: int, scale: int)
      requires Valid()
      modifies this
      ensures Valid() && (unscaled, scale, Cur()) == ReadDecimal(old(Cur()))
    {
      hide ReadBytes, ReadFixed;
      var b := Bytes();
      scale := Int();
      unscaled := TwosComplement.Decode(b);
    }
  }

  /** Bytes put together with shifts, as the readers do. */
  function Two(b0: int, b1: int): int {
    b0 * 0x100 + b1
  }

  function Four(b0: int, b1: int, b2: int, b3: int): int {
    b0 * 0x100_0000 + b1 * 0x1_0000 + b2 * 0x100 + b3
  }

  lemma ShortVal(b: seq<byte>)
    requires |b| == 2
    ensures Val(b) == Two(b[0], b[1]) && Pow256(2) == 0x1_0000
  {
    PowValues();
    assert b[..1][..0] == [];
    assert Val(b[..1]) == Val(b[..1][..0]) * 256 + b[0];
  }

  lemma IntVal(b: seq<byte>)
    requires |b| == 4
    ensures var u := Four(b[0], b[1], b[2], b[3]);
            Val(b) == u && Signed(u, 4) == if u < 0x8000_0000 then u else u - 0x1_0000_0000
  {
    PowValues();
    hide Pow256;
    ShortVal(b[..2]);
    assert b[..3][..2] == b[..2];
    assert Val(b[..3]) == Val(b[..2]) * 256 + b[2];
  }

  lemma LongVal(b: seq<byte>)
    requires |b| == 8
    ensures var hi := Four(b[0], b[1], b[2], b[3]);
            var lo := Four(b[4], b[5], b[6], b[7]);
            var u := hi * 0x1_0000_0000 + lo;
            Val(b) == u && Signed(u, 8) == if u < 0x8000_0000_0000_0000 then u else u - 0x1_0000_0000_0000_0000
  {
    PowValues();
    hide Pow256;
    IntVal(b[..4]);
    assert b[..5][..4] == b[..4] && b[..6][..5] == b[..5] && b[..7][..6] == b[..6];
    assert Val(b[..5]) == Val(b[..4]) * 256 + b[4];
    assert Val(b[..6]) == Val(b[..5]) * 256 + b[5];
    assert Val(b[..7]) == Val(b[..6]) * 256 + b[6];
    assert Val(b) == Val(b[..7]) * 256 + b[7];
  }
}

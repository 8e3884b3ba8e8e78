/** lob.go: the replies of the large-object exchange, as bytes on the stream. */
module LobReply {
  import opened Bytes
  import opened Frame
  import opened Utf16

  const MODE_LARGE_OBJECT_OP: byte := 18

  const GET_BYTES := 21
  const SET := 22
  const GET_CHARS := 23
  const CREATE_BYTES := 27
  const CREATE_CHARS := 28
  const TRUNCATE := 29

  /** A length, or a block with its offset. */
  datatype Reply =
    | LengthReply(sub: int, length: int)
    | BytesReply(offset: int, block: seq<byte>)
    | CharsReply(offset: int, units: seq<unit>)

  /** A reply and what is left of the stream, a failed read, or a run-time panic on a negative size. */
  datatype ReplyRead = Reads(reply: Reply, rest: seq<byte>) | Fails(rest: seq<byte>) | Panics

  // ----- reading

  function NoBytes(k: nat): (bs: seq<byte>)
    ensures |bs| == k
  {
    seq(k, i => 0)
  }

  /** readI32 and readI64 do not look at the error: what is missing at the end of the stream reads as zero. */
  function ReadNumber(input: seq<byte>, k: nat): (r: (int, seq<byte>))
    ensures |r.1| == if |input| < k then 0 else |input| - k
  {
    if |input| < k then (Signed(Val(input + NoBytes(k - |input|)), k), []) else (Signed(Val(input[..k]), k), input[k..])
  }

  /** The terminator is skipped, whatever it is and whether it is there. */
  function SkipOne(input: seq<byte>): seq<byte> {
    if input == [] then [] else input[1..]
  }

  function UnitsIn(raw: seq<byte>): (us: seq<unit>)
    requires |raw| % 2 == 0
    ensures |us| == |raw| / 2
  {
    seq(|raw| / 2, i requires 0 <= i < |raw| / 2 => raw[2 * i] as int * 256 + raw[2 * i + 1] as int)
  }

  /** An ERROR frame is consumed whole; it ends the exchange with an error all the same. */
  function ReadErrorReply(input: seq<byte>): ReplyRead {
    if |input| < 4 then Fails([])
    else
      var n := Val(input[..4]) - 4;
      if n < 0 then Panics
      else if |input| - 4 < n then Fails([])
      else Fails(SkipOne(input[4 + n..]))
  }

  /** A block of `size` bytes after its offset and length. */
  function ReadBlock(input: seq<byte>, sub: int): ReplyRead {
    var (offset, r5) := ReadNumber(input, 8);
    var (length, r6) := ReadNumber(r5, 8);
    var size := if sub == GET_BYTES then length else 2 * length;
    if length < 0 || !Fits(size, 8) then Panics
    else if |r6| < size then Fails([])
    else if sub == GET_BYTES then Reads(BytesReply(offset, r6[..size]), SkipOne(r6[size..]))
    else Reads(CharsReply(offset, UnitsIn(r6[..size])), SkipOne(r6[size..]))
  }

  /** The part of a LARGE_OBJECT_OP frame after the sub-type. */
  function ReadFields(input: seq<byte>, sub: int): ReplyRead {
    if sub in {SET, CREATE_BYTES, CREATE_CHARS, TRUNCATE} then
      var (length, r5) := ReadNumber(input, 8);
      Reads(LengthReply(sub, length), SkipOne(r5))
    else if sub == GET_BYTES || sub == GET_CHARS then ReadBlock(input, sub)
    else Fails(input)
  }

  /** readLobResponse. */
  function ReadReply(input: seq<byte>): ReplyRead {
    if input == [] then Fails([])
    else if input[0] == MODE_ERROR then ReadErrorReply(input[1..])
    else if input[0] != MODE_LARGE_OBJECT_OP then Fails(input[1..])
    else
      var r1 := ReadNumber(input[1..], 4).1;
      var r2 := ReadNumber(r1, 8).1;
      var r3 := ReadNumber(r2, 8).1;
      var (sub, r4) := ReadNumber(r3, 4);
      ReadFields(r4, sub)
  }

  // ----- the reader on the stream

  method ReadPadded(s: Stream, k: nat) returns (v: int)
    modifies s`inbox
    ensures (v, s.inbox) == ReadNumber(old(s.inbox), k)
  {
    hide Val, Signed;
    ghost var input := s.inbox;
    if |s.inbox| < k {
      v := Signed(Val(s.inbox + NoBytes(k - |s.inbox|)), k);
      s.inbox := [];
    } else {
      var bs, ok := s.ReadFull(k);
      v := Signed(Val(bs), k);
    }
  }

  method SkipTerminator(s: Stream)
    modifies s`inbox
    ensures s.inbox == SkipOne(old(s.inbox))
  {
    var bs, ok := s.ReadFull(1);
  }

  /** readLobResponse: a reply, or `None` with the stream where the failure left it, or a panic. */
  method ReadLobResponse(s: Stream) returns (reply: Option<Reply>, panics: bool)
    modifies s`inbox
    ensures match ReadReply(old(s.inbox))
            case Reads(x, rest) => reply == Some(x) && s.inbox == rest && !panics
            case Fails(rest) => reply == None && s.inbox == rest && !panics
            case Panics => reply == None && panics
  {
    hide ReadNumber, Val, SkipOne, Fits;
    var mode, ok := s.ReadFull(1);
    if !ok {
      return None, false;
    }
    assert mode[0] == old(s.inbox)[0];
    if mode[0] == MODE_ERROR {
      var header, ok1 := s.ReadFull(4);
      if !ok1 {
        return None, false;
      }
      var n := Val(header) - 4;
      if n < 0 {
        return None, true;
      }
      var payload, ok2 := s.ReadFull(n);
      if ok2 {
        assert s.inbox == old(s.inbox)[1..][4 + n..];
        SkipTerminator(s);
      }
      return None, false;
    }
    if mode[0] != MODE_LARGE_OBJECT_OP {
      return None, false;
    }
    var databaseID := ReadPadded(s, 4);
    var sessionID := ReadPadded(s, 8);
    var lobID := ReadPadded(s, 8);
    var sub := ReadPadded(s, 4);
    if sub in {SET, CREATE_BYTES, CREATE_CHARS, TRUNCATE} {
      var length := ReadPadded(s, 8);
      SkipTerminator(s);
      return Some(LengthReply(sub, length)), false;
    }
    if sub != GET_BYTES && sub != GET_CHARS {
      return None, false;
    }
    var offset := ReadPadded(s, 8);
    var length := ReadPadded(s, 8);
    var size := if sub == GET_BYTES then length else 2 * length;
    if length < 0 || !Fits(size, 8) {
      return None, true;
    }
    var raw, ok3 := s.ReadFull(size);
    if !ok3 {
      return None, false;
    }
    SkipTerminator(s);
    return Some(if sub == GET_BYTES then BytesReply(offset, raw) else CharsReply(offset, UnitsIn(raw))), false;
  }

  // ----- the layout of a reply

  function UnitBytes(us: seq<unit>): (raw: seq<byte>)
    ensures |raw| == 2 * |us|
  {
    seq(2 * |us|, i requires 0 <= i < 2 * |us| => if i % 2 == 0 then us[i / 2] / 256 else us[i / 2] % 256)
  }

  function SubType(x: Reply): int {
    match x
    case LengthReply(sub, _) => sub
    case BytesReply(_, _) => GET_BYTES
    case CharsReply(_, _) => GET_CHARS
  }

  function Fields(x: Reply): seq<byte> {
    match x
    case LengthReply(_, length) => BigEndian(length, 8)
    case BytesReply(offset, block) => BigEndian(offset, 8) + (BigEndian(|block|, 8) + block)
    case CharsReply(offset, units) => BigEndian(offset, 8) + (BigEndian(|units|, 8) + UnitBytes(units))
  }

  /** A whole reply: 20 bytes of ids, sub-type, fields, and one byte that should be the terminator. */
  function Layout(ids: seq<byte>, x: Reply, last: byte): seq<byte> {
    [MODE_LARGE_OBJECT_OP] + (ids + (BigEndian(SubType(x), 4) + (Fields(x) + [last])))
  }

  predicate InRange(x: Reply) {
    match x
    case LengthReply(sub, length) => sub in {SET, CREATE_BYTES, CREATE_CHARS, TRUNCATE} && Fits(length, 8)
    case BytesReply(offset, block) => Fits(offset, 8) && Fits(|block|, 8)
    case CharsReply(offset, units) => Fits(offset, 8) && Fits(2 * |units|, 8)
  }

  lemma NumberRead(n: int, k: nat, rest: seq<byte>)
    requires Fits(n, k)
    ensures ReadNumber(BigEndian(n, k) + rest, k) == (n, rest)
  {
    hide BigEndian, Val, Signed, Fits;
    var bs := BigEndian(n, k);
    assert (bs + rest)[..k] == bs && (bs + rest)[k..] == rest;
    SignedBigEndian(n, k);
  }

  lemma NumberSkipped(ids: seq<byte>, k: nat, rest: seq<byte>)
    requires |ids| == k
    ensures ReadNumber(ids + rest, k).1 == rest
  {
    assert (ids + rest)[k..] == rest;
  }

  lemma UnitsBack(us: seq<unit>)
    ensures UnitsIn(UnitBytes(us)) == us
  {
  }

  lemma FieldsRead(x: Reply, last: byte, rest: seq<byte>)
    requires InRange(x)
    ensures ReadFields(Fields(x) + [last] + rest, SubType(x)) == Reads(x, rest)
  {
    hide BigEndian, ReadNumber, Fits;
    assert SkipOne([last] + rest) == rest;
    match x {
      case LengthReply(_, length) =>
        assert Fields(x) + [last] + rest == BigEndian(length, 8) + ([last] + rest);
        NumberRead(length, 8, [last] + rest);
      case BytesReply(offset, block) =>
        BlockFields(x, offset, |block|, block, last, rest);
      case CharsReply(offset, units) =>
        UnitsBack(units);
        Halved(|units|);
        BlockFields(x, offset, |units|, UnitBytes(units), last, rest);
    }
  }

  lemma Halved(n: nat)
    ensures Fits(2 * n, 8) ==> Fits(n, 8)
  {
  }

  lemma BlockFields(x: Reply, offset: int, length: nat, raw: seq<byte>, last: byte, rest: seq<byte>)
    requires Fields(x) == BigEndian(offset, 8) + (BigEndian(length, 8) + raw) && Fits(offset, 8) && Fits(length, 8)
    ensures var input := Fields(x) + [last] + rest;
            && ReadNumber(input, 8).0 == offset && ReadNumber(ReadNumber(input, 8).1, 8) == (length, raw + ([last] + rest))
            && (raw + ([last] + rest))[..|raw|] == raw && SkipOne((raw + ([last] + rest))[|raw|..]) == rest
  {
    hide BigEndian, ReadNumber, Fits, Fields;
    var tail := raw + ([last] + rest);
    assert Fields(x) + [last] + rest == BigEndian(offset, 8) + (BigEndian(length, 8) + tail);
    NumberRead(offset, 8, BigEndian(length, 8) + tail);
    NumberRead(length, 8, tail);
    assert tail[|raw|..] == [last] + rest;
  }

  /** A whole reply is read as what it carries, and exactly its bytes are consumed. */
  lemma RoundTrip(ids: seq<byte>, x: Reply, last: byte, rest: seq<byte>)
    requires |ids| == 20 && InRange(x)
    ensures ReadReply(Layout(ids, x, last) + rest) == Reads(x, rest)
  {
    hide BigEndian, ReadNumber, Fits, Fields, ReadFields, InRange;
    var tail := Fields(x) + [last] + rest;
    var body := BigEndian(SubType(x), 4) + tail;
    assert ids == ids[..4] + (ids[4..12] + ids[12..]);
    var input := Layout(ids, x, last) + rest;
    assert input[1..] == ids[..4] + (ids[4..12] + (ids[12..] + body));
    NumberSkipped(ids[..4], 4, ids[4..12] + (ids[12..] + body));
    NumberSkipped(ids[4..12], 8, ids[12..] + body);
    NumberSkipped(ids[12..], 8, body);
    SubTypeFits(x);
    NumberRead(SubType(x), 4, tail);
    FieldsRead(x, last, rest);
  }

  lemma SubTypeFits(x: Reply)
    requires InRange(x)
    ensures Fits(SubType(x), 4)
  {
    PowValues();
  }

  /** The bytes are a whole reply that carries `x`. */
  predicate Whole(bytes: seq<byte>, x: Reply) {
    InRange(x) && |bytes| >= 22 && bytes == Layout(bytes[1..21], x, bytes[|bytes| - 1])
  }

  lemma NumberExact(input: seq<byte>, k: nat)
    requires ReadNumber(input, k).1 != []
    ensures var (n, rest) := ReadNumber(input, k); Fits(n, k) && input == BigEndian(n, k) + rest
  {
    hide BigEndian, Val;
    var bs := input[..k];
    ValBound(bs);
    BigEndianVal(bs);
    SignedBack(Val(bs), k);
    assert input == bs + input[k..];
  }

  lemma SignedBack(u: nat, k: nat)
    requires u < Pow256(k)
    ensures Fits(Signed(u, k), k) && BigEndian(Signed(u, k), k) == BigEndian(u, k)
  {
    SignedMod(u, k);
    BigEndianMod(Signed(u, k), k);
    BigEndianMod(u, k);
  }

  lemma SignedMod(u: nat, k: nat)
    requires u < Pow256(k)
    ensures Signed(u, k) % Pow256(k) == u % Pow256(k)
  {
    var p := Pow256(k);
    if 2 * u >= p {
      DivModUnique(u - p, p, -1, u);
      DivModUnique(u, p, 0, u);
    }
  }

  /** The bytes of a number depend on what it is modulo the width only. */
  lemma BigEndianMod(n: int, k: nat)
    ensures BigEndian(n, k) == BigEndian(n % Pow256(k), k)
  {
    ValBigEndian(n, k);
    BigEndianVal(BigEndian(n, k));
  }

  lemma UnitBytesBack(raw: seq<byte>)
    requires |raw| % 2 == 0
    ensures UnitBytes(UnitsIn(raw)) == raw
  {
  }

  lemma SkipExact(input: seq<byte>)
    requires SkipOne(input) != []
    ensures input == [input[0]] + SkipOne(input)
  {
  }

  /** A block reply split into offset, length, raw bytes and one byte more. */
  lemma BlockPieces(input: seq<byte>, sub: int) returns (offset: int, length: int, raw: seq<byte>, last: byte)
    requires (sub == GET_BYTES || sub == GET_CHARS) && ReadBlock(input, sub).Reads? && ReadBlock(input, sub).rest != []
    ensures Fits(offset, 8) && Fits(length, 8) && length >= 0 && |raw| == (if sub == GET_BYTES then length else 2 * length)
    ensures Fits(|raw|, 8)
    ensures ReadBlock(input, sub).reply == if sub == GET_BYTES then BytesReply(offset, raw) else CharsReply(offset, UnitsIn(raw))
    ensures input == BigEndian(offset, 8) + (BigEndian(length, 8) + (raw + ([last] + ReadBlock(input, sub).rest)))
  {
    SkipNothing();
    hide BigEndian, ReadNumber, Fits, SkipOne, UnitsIn;
    var r5, r6;
    offset, r5 := ReadNumber(input, 8).0, ReadNumber(input, 8).1;
    length, r6 := ReadNumber(r5, 8).0, ReadNumber(r5, 8).1;
    var size := if sub == GET_BYTES then length else 2 * length;
    NumberExact(r5, 8);
    NumberExact(input, 8);
    SkipExact(r6[size..]);
    raw, last := r6[..size], r6[size..][0];
    assert r6 == raw + r6[size..];
  }

  lemma BlockExact(input: seq<byte>, sub: int)
    requires (sub == GET_BYTES || sub == GET_CHARS) && ReadBlock(input, sub).Reads? && ReadBlock(input, sub).rest != []
    ensures var r := ReadBlock(input, sub);
            InRange(r.reply) && SubType(r.reply) == sub && exists last :: input == Fields(r.reply) + ([last] + r.rest)
  {
    hide BigEndian, ReadBlock, Fits, UnitsIn, UnitBytes;
    var r := ReadBlock(input, sub);
    var offset, length, raw, last := BlockPieces(input, sub);
    if sub == GET_CHARS {
      UnitBytesBack(raw);
    }
    var tail := [last] + r.rest;
    assert BigEndian(offset, 8) + (BigEndian(length, 8) + raw) + tail == BigEndian(offset, 8) + (BigEndian(length, 8) + (raw + tail));
    assert input == Fields(r.reply) + tail;
  }

  lemma SkipNothing()
    ensures SkipOne([]) == []
  {
  }

  lemma FieldsExact(input: seq<byte>, sub: int)
    requires ReadFields(input, sub).Reads? && ReadFields(input, sub).rest != []
    ensures var r := ReadFields(input, sub);
            InRange(r.reply) && SubType(r.reply) == sub && exists last :: input == Fields(r.reply) + ([last] + r.rest)
  {
    SkipNothing();
    hide BigEndian, ReadNumber, Fits, SkipOne, ReadBlock;
    if sub == GET_BYTES || sub == GET_CHARS {
      BlockExact(input, sub);
    } else {
      var (length, r5) := ReadNumber(input, 8);
      NumberExact(input, 8);
      SkipExact(r5);
      assert input == Fields(ReadFields(input, sub).reply) + ([r5[0]] + ReadFields(input, sub).rest);
    }
  }

  /** With something left after the reply, its header was all there. */
  lemma HeaderExact(input: seq<byte>) returns (sub: int)
    requires ReadReply(input).Reads? && ReadReply(input).rest != []
    ensures |input| >= 25 && input[0] == MODE_LARGE_OBJECT_OP
    ensures input[21..] == BigEndian(sub, 4) + input[25..] && ReadReply(input) == ReadFields(input[25..], sub)
  {
    FieldsLeft(input);
    hide BigEndian, ReadFields, Val;
    var r1 := ReadNumber(input[1..], 4).1;
    var r2 := ReadNumber(r1, 8).1;
    var r3 := ReadNumber(r2, 8).1;
    sub := ReadNumber(r3, 4).0;
    assert r1 == input[5..] && r2 == input[13..] && r3 == input[21..];
    NumberExact(r3, 4);
  }

  /** Nothing is read from nothing. */
  lemma FieldsLeft(input: seq<byte>)
    requires ReadReply(input).Reads? && ReadReply(input).rest != []
    ensures |input| > 25
  {
    hide BigEndian, Val;
  }

  /**
   * A reply that is read has consumed exactly one whole reply that carries it, unless the stream
   * has come to its end.
   */
  lemma ReplyExact(input: seq<byte>)
    requires ReadReply(input).Reads?
    ensures var r := ReadReply(input);
            && |r.rest| < |input| && input == input[..|input| - |r.rest|] + r.rest
            && (r.rest != [] ==> Whole(input[..|input| - |r.rest|], r.reply))
  {
    hide BigEndian, ReadReply, ReadFields, Fields, InRange;
    var r := ReadReply(input);
    if r.rest == [] {
      NothingRead();
      assert input[..|input|] + [] == input;
    } else {
      var sub := HeaderExact(input);
      FieldsExact(input[25..], sub);
      var last :| input[25..] == Fields(r.reply) + ([last] + r.rest);
      var ids := input[1..21];
      var whole := Layout(ids, r.reply, last);
      assert input == [MODE_LARGE_OBJECT_OP] + (ids + input[21..]);
      assert input == whole + r.rest;
      assert input[..|input| - |r.rest|] == whole;
      assert whole[1..21] == ids && whole[|whole| - 1] == last;
    }
  }

  lemma NothingRead()
    ensures !ReadReply([]).Reads?
  {
  }
}

/**
 * lob.go: large objects. Parameters are replaced by temporary ids, their payloads travel in
 * segments, and values come back in blocks. Segments and blocks are modelled by their fields.
 */
module Lob {
  import opened Bytes
  import opened Utf16

  const MAX_LOB_CHUNK := 0x10_0000

  /** A CREATE or SET request: the object, the offset, and bytes or UTF-16 units. */
  datatype Segment = Segment(create: bool, isClob: bool, id: int, off: int, data: seq<unit>)

  /** One result of an io.Reader: data, and possibly the end or a failure with it. */
  datatype Read = Read(data: seq<byte>, end: End)

  datatype End = Going | Eof | Fails

  /** What a parameter slot holds; streams come with a declared length, negative when unknown. */
  datatype Slot =
    | Nil
    | Ref(id: int, isClob: bool)
    | Binary(bytes: seq<byte>)
    | Text(text: string)
    | BlobReader(feed: seq<Read>, length: int)
    | ClobReader(runes: string, fails: bool, length: int)
    | NilReader
    | OtherValue

  datatype SlotType = BlobSlot | ClobSlot | PlainSlot

  /** The payload of a temporary object. */
  datatype Payload =
    | Bytes(bytes: seq<byte>)
    | Chars(units: seq<unit>)
    | BytesFrom(feed: seq<Read>, length: int)
    | CharsFrom(runes: string, fails: bool, length: int)

  datatype Pending = Pending(id: int, payload: Payload)

  /** Go's conversions between a string and its UTF-8 bytes. */
  datatype Utf8 = Utf8(encode: string -> seq<byte>, decode: seq<byte> -> string)

  // ----- prepareLobParams

  /** blobParam and clobParam. */
  function PayloadOf(utf8: Utf8, t: SlotType, v: Slot): Option<Payload> {
    if t == BlobSlot then
      match v
      case Binary(b) => Some(Bytes(b))
      case Text(s) => Some(Bytes(utf8.encode(s)))
      case BlobReader(feed, length) => Some(BytesFrom(feed, length))
      case _ => None
    else
      match v
      case Text(s) => Some(Chars(Utf16.Encode(s)))
      case Binary(b) => Some(Chars(Utf16.Encode(utf8.decode(b))))
      case ClobReader(runes, fails, length) => Some(CharsFrom(runes, fails, length))
      case _ => None
  }

  /** Whether a slot holds a payload that must become a temporary object. */
  predicate Convertible(t: SlotType, v: Slot) {
    t != PlainSlot && !v.Nil? && !v.Ref?
  }

  /** The slots afterwards, the objects to create, the id counter, and whether all could be bound. */
  datatype Prepared = Prepared(values: seq<Slot>, lobs: seq<Pending>, next: int, ok: bool)

  /** The loop of prepareLobParams from slot `i` on; an error keeps the slots already replaced. */
  function Prepare(utf8: Utf8, types: seq<SlotType>, values: seq<Slot>, i: nat, next: int): (r: Prepared)
    ensures |r.values| == |values|
    ensures !r.ok ==> r.lobs == []
    decreases |types| - i
  {
    if i >= |types| then Prepared(values, [], next, true)
    else if i >= |values| || !Convertible(types[i], values[i]) then Prepare(utf8, types, values, i + 1, next)
    else
      match PayloadOf(utf8, types[i], values[i])
      case None => Prepared(values, [], next, false)
      case Some(p) =>
        var rest := Prepare(utf8, types, values[i := Ref(next, types[i] == ClobSlot)], i + 1, next - 1);
        rest.(lobs := if rest.ok then [Pending(next, p)] + rest.lobs else [])
  }

  // ----- what the segments of one upload are

  function Data(segs: seq<Segment>): (us: seq<unit>) {
    if segs == [] then [] else Data(segs[..|segs| - 1]) + segs[|segs| - 1].data
  }

  /** One CREATE followed by SETs of the same object, each at the offset reached so far. */
  predicate Chained(segs: seq<Segment>, id: int, isClob: bool) {
    forall k | 0 <= k < |segs| ::
      && segs[k].id == id && segs[k].isClob == isClob
      && (segs[k].create <==> k == 0)
      && segs[k].off == |Data(segs[..k])|
  }

  /** A complete upload of `content`. */
  predicate Upload(segs: seq<Segment>, id: int, isClob: bool, content: seq<unit>) {
    segs != [] && Chained(segs, id, isClob) && Data(segs) == content
  }

  /** All bytes a reader delivers before it stops, and whether it stops by failing. */
  function Stream(feed: seq<Read>): (r: (seq<byte>, bool))
  {
    if feed == [] then ([], false)
    else if feed[0].end != Going then (feed[0].data, feed[0].end == Fails)
    else var (rest, failed) := Stream(feed[1..]); (feed[0].data + rest, failed)
  }

  function Units(bs: seq<byte>): (us: seq<unit>)
    ensures |us| == |bs|
  {
    seq(|bs|, i requires 0 <= i < |bs| => bs[i] as int)
  }

  /** The content an upload of a payload carries, or `None` when it ends in an error. */
  function Content(p: Payload): Option<seq<unit>> {
    match p
    case Bytes(b) => Some(Units(b))
    case Chars(us) => Some(us)
    case CharsFrom(runes, fails, _) => if fails then None else Some(Utf16.Encode(runes))
    case BytesFrom(feed, length) =>
      var (bs, failed) := Stream(feed);
      if length >= 0 then if |bs| >= length then Some(Units(bs[..length])) else None
      else if failed then None else Some(Units(bs))
  }

  predicate IsClob(p: Payload) {
    p.Chars? || p.CharsFrom?
  }

  // ----- readUTF16Chunk

  /** How many characters fit into `max` units, taken greedily. */
  function ChunkLength(text: string, max: nat): (n: nat)
    ensures n <= |text|
    decreases |text|
  {
    if text == [] || max == 0 || |EncodeChar(text[0])| > max then 0
    else 1 + ChunkLength(text[1..], max - |EncodeChar(text[0])|)
  }

  /** A reader of runes: the text, the position, and whether it ends in a failure. */
  class RuneReader {
    const text: string
    const fails: bool
    var pos: nat

    constructor (text: string, fails: bool)
      ensures this.text == text && this.fails == fails && pos == 0
    {
      this.text, this.fails, pos := text, fails, 0;
    }

    method ReadRune() returns (ch: char, end: End)
      requires pos <= |text|
      modifies this`pos
      ensures pos <= |text|
      ensures if old(pos) < |text| then end == Going && ch == text[old(pos)] && pos == old(pos) + 1
              else end == (if fails then Fails else Eof) && pos == old(pos)
    {
      if pos < |text| {
        ch, end := text[pos], Going;
        pos := pos + 1;
      } else {
        ch, end := '\0', if fails then Fails else Eof;
      }
    }

    method UnreadRune()
      requires 0 < pos
      modifies this`pos
      ensures pos == old(pos) - 1
    {
      pos := pos - 1;
    }
  }

  lemma ChunkLengthStep(text: string, i: nat, max: nat, units: nat)
    requires i < |text| && units < max && units + |EncodeChar(text[i])| <= max
    ensures ChunkLength(text[i..], max - units) == 1 + ChunkLength(text[i + 1..], max - units - |EncodeChar(text[i])|)
  {
  }

  /**
   * readUTF16Chunk: the next characters that fit, as units. At the end of the stream a last chunk
   * is returned without an error, unless the stream failed.
   */
  method ReadUTF16Chunk(r: RuneReader, maxUnits: nat) returns (chars: seq<unit>, end: End)
    requires r.pos <= |r.text|
    modifies r`pos
    ensures r.pos <= |r.text|
    ensures var rest := r.text[old(r.pos)..];
            var n := ChunkLength(rest, maxUnits);
            if end == Going then chars == Encode(rest[..n]) && r.pos == old(r.pos) + n
            else chars == [] && r.pos == |r.text| && n == |rest|
                 && end == (if r.fails then Fails else Eof) && (end == Eof ==> rest == [])
    ensures maxUnits > 0 && r.text[old(r.pos)..] == [] ==> end != Going
  {
    hide EncodeChar;
    var runes: string := "";
    var units := 0;
    ghost var start := r.pos;
    ghost var rest := r.text[start..];
    while units < maxUnits
      invariant start <= r.pos <= |r.text| && runes == r.text[start..r.pos]
      invariant units == |Encode(runes)| <= maxUnits
      invariant ChunkLength(rest, maxUnits) == |runes| + ChunkLength(r.text[r.pos..], maxUnits - units)
      decreases |r.text| - r.pos, maxUnits - units
    {
      ghost var at := r.pos;
      var ch, err := r.ReadRune();
      if err != Going {
        assert r.text[at..] == [];
        if err == Eof && |runes| > 0 {
          assert rest[..|runes|] == runes;
          return Encode(runes), Going;
        }
        return [], err;
      }
      var needed := |EncodeChar(ch)|;
      if units + needed > maxUnits {
        r.UnreadRune();
        break;
      }
      ChunkLengthStep(r.text, at, maxUnits, units);
      EncodeConcat(runes, [ch]);
      assert Encode([ch]) == EncodeChar(ch) by { EncodeOne(ch); }
      runes := runes + [ch];
      units := units + needed;
    }
    assert rest[..|runes|] == runes;
    return Encode(runes), Going;
  }

  /** A chunk, the piece of the text it encodes, and the text read so far. */
  method NextChunk(r: RuneReader, maxUnits: nat) returns (chars: seq<unit>, end: End, ghost piece: string)
    requires r.pos <= |r.text| && maxUnits >= 2
    modifies r`pos
    ensures r.pos <= |r.text| && |chars| <= maxUnits && chars == Encode(piece)
    ensures end == Going ==> |chars| > 0 && r.pos > old(r.pos)
    ensures end != Fails ==> r.text[..r.pos] == r.text[..old(r.pos)] + piece
    ensures end != Fails ==> Encode(r.text[..r.pos]) == Encode(r.text[..old(r.pos)]) + chars
    ensures end != Going ==> chars == [] && r.pos == |r.text| && end == if r.fails then Fails else Eof
  {
    hide EncodeChar, ChunkLength, Encode;
    ghost var at := r.pos;
    ghost var rest := r.text[at..];
    ghost var n := ChunkLength(rest, maxUnits);
    ChunkFits(rest, maxUnits);
    EmptyCut();
    chars, end := ReadUTF16Chunk(r, maxUnits);
    piece := if end == Going then rest[..n] else "";
    assert end != Fails ==> r.text[..r.pos] == r.text[..at] + piece;
    EncodeConcat(r.text[..at], piece);
  }

  lemma EncodeOne(ch: char)
    ensures Encode([ch]) == EncodeChar(ch)
  {
  }

  // ----- the client side of an upload

  class Conn {
    var lobIDSeq: int
    /** The LOB frames written so far. */
    var out: seq<Segment>

    constructor ()
      ensures lobIDSeq == -1 && out == []
    {
      lobIDSeq, out := -1, [];
    }

    method NextLobID() returns (id: int)
      modifies this`lobIDSeq
      ensures id == old(lobIDSeq) && lobIDSeq == id - 1
    {
      id := lobIDSeq;
      lobIDSeq := lobIDSeq - 1;
    }

    /** prepareLobParams: the slots are overwritten in place. */
    method PrepareLobParams(utf8: Utf8, types: seq<SlotType>, values: array<Slot>) returns (lobs: seq<Pending>, ok: bool)
      modifies values, this`lobIDSeq
      ensures Prepared(values[..], lobs, lobIDSeq, ok)
           == Prepare(utf8, types, old(values[..]), 0, old(lobIDSeq))
    {
      hide PayloadOf;
      lobs := [];
      ghost var all := Prepare(utf8, types, old(values[..]), 0, old(lobIDSeq));
      assert [] + all.lobs == all.lobs;
      for i := 0 to |types|
        invariant var rest := Prepare(utf8, types, values[..], i, lobIDSeq);
                  all.values == rest.values && all.next == rest.next && all.ok == rest.ok
                  && all.lobs == if rest.ok then lobs + rest.lobs else []
      {
        if i < values.Length && Convertible(types[i], values[i]) {
          match PayloadOf(utf8, types[i], values[i]) {
            case None => return [], false;
            case Some(p) =>
              ghost var before := values[..];
              ghost var tail := Prepare(utf8, types, before[i := Ref(lobIDSeq, types[i] == ClobSlot)], i + 1, lobIDSeq - 1);
              var id := NextLobID();
              values[i] := Ref(id, types[i] == ClobSlot);
              assert values[..] == before[i := Ref(id, types[i] == ClobSlot)];
              assert lobs + ([Pending(id, p)] + tail.lobs) == (lobs + [Pending(id, p)]) + tail.lobs;
              lobs := lobs + [Pending(id, p)];
          }
        }
      }
      assert lobs + [] == lobs;
      ok := true;
    }

    /** One more segment of the upload whose segments so far are `segs`. */
    method WriteSegment(ghost segs: seq<Segment>, id: int, isClob: bool, create: bool, off: int, data: seq<unit>)
      returns (ghost longer: seq<Segment>)
      requires Chained(segs, id, isClob) && (create <==> segs == []) && off == |Data(segs)|
      modifies this`out
      ensures longer == segs + [Segment(create, isClob, id, off, data)]
      ensures out == old(out) + [Segment(create, isClob, id, off, data)]
      ensures Chained(longer, id, isClob) && Data(longer) == Data(segs) + data
    {
      var s := Segment(create, isClob, id, off, data);
      out := out + [s];
      longer := segs + [s];
      AppendSegment(segs, s, id, isClob);
    }

    /** writeLobCreateBytesFromReader without a known length. */
    method WriteBytesFromReader(id: int, feed: seq<Read>) returns (ok: bool, ghost segs: seq<Segment>)
      modifies this`out
      ensures out == old(out) + segs
      ensures ok == !Stream(feed).1
      ensures ok ==> Upload(segs, id, false, Units(Stream(feed).0))
      ensures forall s | s in segs :: s.data != [] || segs == [s]
    {
      hide Chained, Data, Units, Stream;
      segs := [];
      var off, first := 0, true;
      var k := 0;
      assert Data([]) == [] && Chained([], id, false) by { NoSegments(id, false); }
      assert feed[0..] == feed && [] + Units(Stream(feed).0) == Units(Stream(feed).0);
      while true
        invariant k <= |feed| && out == old(out) + segs
        invariant Chained(segs, id, false) && off == |Data(segs)| && (first <==> segs == [])
        invariant forall s | s in segs :: s.data != []
        invariant Stream(feed).1 == Stream(feed[k..]).1
        invariant Units(Stream(feed).0) == Data(segs) + Units(Stream(feed[k..]).0)
        decreases |feed| - k
      {
        StreamStep(feed, k);
        var data, end := [], Eof;
        if k < |feed| {
          data, end := feed[k].data, feed[k].end;
          k := k + 1;
        }
        ghost var before := Data(segs);
        if |data| > 0 {
          segs := WriteSegment(segs, id, false, first, off, Units(data));
          first := false;
          off := off + |data|;
        }
        UnitsEmpty();
        assert Data(segs) == before + Units(data);
        if end == Eof {
          break;
        }
        if end == Fails {
          return false, segs;
        }
        assert before + (Units(data) + Units(Stream(feed[k..]).0)) == Data(segs) + Units(Stream(feed[k..]).0);
      }
      if first {
        segs := WriteSegment(segs, id, false, true, 0, []);
        assert Data(segs) == Units([]);
      }
      return true, segs;
    }

    /** writeLobCreateBytesFromReader with a known length: exactly that many bytes, or an error. */
    method WriteBytesCounted(id: int, feed: seq<Read>, length: nat) returns (ok: bool, ghost segs: seq<Segment>)
      modifies this`out
      ensures ok == (|Stream(feed).0| >= length)
      ensures ok ==> out == old(out) + segs && Upload(segs, id, false, Units(Stream(feed).0[..length]))
    {
      segs := [];
      var copied: seq<byte> := [];
      var k := 0;
      while |copied| < length && k < |feed|
        invariant k <= |feed|
        invariant copied + Stream(feed[k..]).0 == Stream(feed).0
      {
        assert feed[k..][1..] == feed[k + 1..];
        ghost var before := copied;
        copied := copied + feed[k].data;
        if feed[k].end != Going {
          break;
        }
        assert before + (feed[k].data + Stream(feed[k + 1..]).0) == copied + Stream(feed[k + 1..]).0;
        k := k + 1;
      }
      if |copied| < length {
        return false, [];
      }
      assert copied[..length] == Stream(feed).0[..length];
      segs := WriteSegment(segs, id, false, true, 0, Units(copied[..length]));
      assert Data([]) + Units(copied[..length]) == Units(copied[..length]);
      return true, segs;
    }

    /** writeLobCreateCharsFromReader; the declared length of a Clob plays no part. */
    method WriteCharsFromReader(id: int, runes: string, fails: bool, maxUnits: nat)
      returns (ok: bool, ghost segs: seq<Segment>, ghost cuts: seq<nat>)
      requires maxUnits >= 2
      modifies this`out
      ensures out == old(out) + segs
      ensures ok == !fails
      ensures ok ==> Upload(segs, id, true, Encode(runes))
      ensures ok ==> Cut(runes, segs, cuts)
      ensures forall s | s in segs :: |s.data| <= maxUnits && (s.data != [] || segs == [s])
    {
      hide EncodeChar, ChunkLength, Chained, Data, Encode, Cut;
      segs, cuts := [], [];
      assert Data([]) == [] && Chained([], id, true) by { NoSegments(id, true); }
      assert Encode("") == [] && Cut("", [], []) by { EmptyCut(); }
      assert runes[..0] == "";
      var r := new RuneReader(runes, fails);
      var off, first := 0, true;
      while true
        invariant r.text == runes && r.fails == fails && fresh(r) && r.pos <= |runes|
        invariant out == old(out) + segs
        invariant Chained(segs, id, true) && off == |Data(segs)| && (first <==> segs == [])
        invariant Data(segs) == Encode(runes[..r.pos])
        invariant Cut(runes[..r.pos], segs, cuts) && |cuts| == |segs|
        invariant forall s | s in segs :: s.data != [] && |s.data| <= maxUnits
        decreases |runes| - r.pos
      {
        ghost var at := r.pos;
        var chars, end, piece := NextChunk(r, maxUnits);
        if |chars| > 0 {
          CutMore(runes[..at], segs, cuts, piece, Segment(first, true, id, off, chars));
          segs := WriteSegment(segs, id, true, first, off, chars);
          cuts := cuts + [|piece|];
          first := false;
          off := off + |chars|;
        }
        if end == Eof {
          assert runes[..r.pos] == runes;
          break;
        }
        if end == Fails {
          return false, segs, cuts;
        }
      }
      if first {
        assert runes == "" && cuts == [];
        CutMore("", [], [], "", Segment(true, true, id, 0, []));
        assert "" + "" == runes;
        segs := WriteSegment(segs, id, true, true, 0, []);
        cuts := cuts + [0];
      }
      return true, segs, cuts;
    }

    /** writeLobCreate. */
    method WriteLobCreate(lob: Pending) returns (ok: bool, ghost segs: seq<Segment>)
      modifies this`out
      ensures ok == Content(lob.payload).Some?
      ensures ok ==> out == old(out) + segs && Upload(segs, lob.id, IsClob(lob.payload), Content(lob.payload).value)
    {
      hide Chained, Data, Units, Stream, Encode;
      segs := [];
      NoSegments(lob.id, false);
      NoSegments(lob.id, true);
      match lob.payload {
        case Bytes(b) =>
          assert Data([]) + Units(b) == Units(b);
          segs := WriteSegment(segs, lob.id, false, true, 0, Units(b));
          ok := true;
        case Chars(us) =>
          assert Data([]) + us == us;
          segs := WriteSegment(segs, lob.id, true, true, 0, us);
          ok := true;
        case BytesFrom(feed, length) =>
          if length >= 0 {
            ok, segs := WriteBytesCounted(lob.id, feed, length);
          } else {
            ok, segs := WriteBytesFromReader(lob.id, feed);
          }
        case CharsFrom(runes, fails, _) =>
          ghost var cuts;
          ok, segs, cuts := WriteCharsFromReader(lob.id, runes, fails, MAX_LOB_CHUNK);
      }
    }
  }

  lemma NoSegments(id: int, isClob: bool)
    ensures Data([]) == [] && Chained([], id, isClob)
  {
  }

  lemma UnitsEmpty()
    ensures Units([]) == [] && forall us: seq<unit> :: us + Units([]) == us
  {
  }

  /** What one Read contributes to the stream. */
  lemma StreamStep(feed: seq<Read>, k: nat)
    requires k <= |feed|
    ensures k == |feed| ==> Stream(feed[k..]) == ([], false) && Units(Stream(feed[k..]).0) == []
    ensures k < |feed| && feed[k].end != Going ==>
              Stream(feed[k..]) == (feed[k].data, feed[k].end == Fails)
    ensures k < |feed| && feed[k].end == Going ==>
              && Stream(feed[k..]) == (feed[k].data + Stream(feed[k + 1..]).0, Stream(feed[k + 1..]).1)
              && Units(Stream(feed[k..]).0) == Units(feed[k].data) + Units(Stream(feed[k + 1..]).0)
  {
  }

  lemma AppendSegment(segs: seq<Segment>, s: Segment, id: int, isClob: bool)
    requires Chained(segs, id, isClob)
    requires s.id == id && s.isClob == isClob && (s.create <==> segs == []) && s.off == |Data(segs)|
    ensures Chained(segs + [s], id, isClob) && Data(segs + [s]) == Data(segs) + s.data
  {
    var longer := segs + [s];
    assert longer[..|segs|] == segs;
    forall k | 0 <= k < |longer|
      ensures longer[..k] == if k < |segs| then segs[..k] else segs
    {
    }
  }

  // ----- chunks of text

  /** The segments hold whole characters: each is the encoding of its own piece of the text. */
  predicate Cut(text: string, segs: seq<Segment>, cuts: seq<nat>)
    decreases |cuts|
  {
    |cuts| == |segs| &&
    if cuts == [] then text == ""
    else
      var n := cuts[|cuts| - 1];
      && n <= |text|
      && segs[|segs| - 1].data == Encode(text[|text| - n..])
      && Cut(text[..|text| - n], segs[..|segs| - 1], cuts[..|cuts| - 1])
  }

  lemma EmptyCut()
    ensures Encode("") == [] && Cut("", [], [])
  {
  }

  lemma CutMore(text: string, segs: seq<Segment>, cuts: seq<nat>, piece: string, s: Segment)
    requires Cut(text, segs, cuts) && s.data == Encode(piece)
    ensures Cut(text + piece, segs + [s], cuts + [|piece|])
  {
  }

  /** A chunk stays within its units, and makes progress whenever there is text and room for a pair. */
  lemma {:induction false} ChunkFits(text: string, max: nat)
    ensures |Encode(text[..ChunkLength(text, max)])| <= max
    ensures max >= 2 && text != [] ==> ChunkLength(text, max) > 0
    decreases |text|
  {
    hide EncodeChar;
    if text != [] && max > 0 && |EncodeChar(text[0])| <= max {
      var m := max - |EncodeChar(text[0])|;
      var n := ChunkLength(text[1..], m);
      ChunkFits(text[1..], m);
      assert text[..1 + n][1..] == text[1..][..n];
    }
  }

  /** With text left, the chunker takes at least one character exactly when the first one fits. */
  lemma ChunkProgressIff(text: string, max: nat)
    requires text != []
    ensures ChunkLength(text, max) > 0 <==> max >= 2 || (max == 1 && text[0] as int < 0x1_0000)
  {
  }
}

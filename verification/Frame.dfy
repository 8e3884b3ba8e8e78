/** internal/proto/frame.go: frames on a byte stream, chained up to a NONE byte. */
module Frame {
  import opened Bytes

  const MODE_NONE: byte := 0
  const MODE_ERROR: byte := 2

  /** The largest payload whose length, counting itself, fits in an int32. */
  const PAYLOAD_LIMIT := 0x8000_0000 - 4

  datatype Frame = Frame(mode: byte, payload: seq<byte>)

  /** A frame, the terminator, or a failed read; what is left of the stream in each case. */
  datatype FrameRead = Got(frame: Frame, rest: seq<byte>) | End(rest: seq<byte>) | Bad(rest: seq<byte>)

  /** WriteFrame: the mode, the length counting itself, the payload. */
  function EncFrame(f: Frame): seq<byte> {
    [f.mode] + (BigEndian(4 + |f.payload|, 4) + f.payload)
  }

  /** ReadFrame on the bytes that will arrive; the stream ends after them. */
  function ReadFrame(input: seq<byte>): (r: FrameRead)
    ensures r.Got? ==> |r.rest| < |input|
  {
    if input == [] then Bad([])
    else if input[0] == MODE_NONE then End(input[1..])
    else if |input| < 5 then Bad([])
    else
      var length := Signed(Val(input[1..5]), 4);
      if length < 4 then Bad(input[5..])
      else if |input| < length + 1 then Bad([])
      else Got(Frame(input[0], input[5..length + 1]), input[length + 1..])
  }

  /** The frames of a list, one after another, and the terminator. */
  function Transmission(fs: seq<Frame>): seq<byte> {
    if fs == [] then [MODE_NONE] else EncFrame(fs[0]) + Transmission(fs[1..])
  }

  predicate Sendable(f: Frame) {
    f.mode != MODE_NONE && |f.payload| < PAYLOAD_LIMIT
  }

  /** Frames up to the terminator, or `None` with what is left after the failure. */
  function ReadFrames(input: seq<byte>): (r: (Option<seq<Frame>>, seq<byte>))
    decreases |input|
  {
    match ReadFrame(input)
    case Bad(rest) => (None, rest)
    case End(rest) => (Some([]), rest)
    case Got(f, rest) =>
      match ReadFrames(rest)
      case (None, left) => (None, left)
      case (Some(fs), left) => (Some([f] + fs), left)
  }

  lemma LengthField(n: nat)
    ensures n < 0x8000_0000 ==> Signed(Val(BigEndian(n, 4)), 4) == n
    ensures n >= 0x8000_0000 ==> Signed(Val(BigEndian(n, 4)), 4) != n
  {
    SignedBigEndian(n, 4);
    PowValues();
  }

  /**
   * A frame with a mode other than NONE is read back, with what follows untouched, if and only
   * if its payload is below the limit of the length field.
   */
  lemma FrameRoundTripIff(f: Frame, rest: seq<byte>)
    requires f.mode != MODE_NONE
    ensures ReadFrame(EncFrame(f) + rest) == Got(f, rest) <==> |f.payload| < PAYLOAD_LIMIT
  {
    hide BigEndian, Val, Signed;
    var n := 4 + |f.payload|;
    var input := EncFrame(f) + rest;
    LengthField(n);
    assert input[1..5] == BigEndian(n, 4);
    if n < 0x8000_0000 {
      assert input[5..n + 1] == f.payload;
      assert input[n + 1..] == rest;
    }
  }

  /** What was read as a frame is, byte for byte, that frame as the writer writes it. */
  lemma FrameExact(input: seq<byte>)
    requires ReadFrame(input).Got?
    ensures var r := ReadFrame(input); Sendable(r.frame) && input == EncFrame(r.frame) + r.rest
  {
    var header := input[1..5];
    LengthExact(header);
    hide BigEndian, Val, Signed;
    var length := Signed(Val(header), 4);
    assert input == [input[0]] + (header + (input[5..length + 1] + input[length + 1..]));
  }

  lemma LengthExact(header: seq<byte>)
    requires |header| == 4
    ensures var length := Signed(Val(header), 4);
            length >= 0 ==> BigEndian(length, 4) == header && length < 0x8000_0000
  {
    BigEndianVal(header);
    ValBound(header);
    PowValues();
  }

  /** Any list of sendable frames is read back as that list, and nothing beyond it is consumed. */
  lemma {:induction false} TransmissionRoundTrip(fs: seq<Frame>, rest: seq<byte>)
    requires forall f | f in fs :: Sendable(f)
    ensures ReadFrames(Transmission(fs) + rest) == (Some(fs), rest)
  {
    hide EncFrame, ReadFrame;
    if fs == [] {
      TerminatorRead(rest);
      assert Transmission(fs) + rest == [MODE_NONE] + rest;
    } else {
      assert Sendable(fs[0]);
      assert Transmission(fs) + rest == EncFrame(fs[0]) + (Transmission(fs[1..]) + rest);
      FrameRoundTripIff(fs[0], Transmission(fs[1..]) + rest);
      TransmissionRoundTrip(fs[1..], rest);
      assert fs == [fs[0]] + fs[1..];
    }
  }

  lemma TerminatorRead(rest: seq<byte>)
    ensures ReadFrame([MODE_NONE] + rest) == End(rest)
  {
  }

  lemma TerminatorExact(input: seq<byte>)
    requires ReadFrame(input).End?
    ensures input == [MODE_NONE] + ReadFrame(input).rest
  {
  }

  /** Conversely, frames read without a failure account for every byte consumed. */
  lemma {:induction false} TransmissionExact(input: seq<byte>)
    requires ReadFrames(input).0.Some?
    ensures var (fs, rest) := ReadFrames(input);
            input == Transmission(fs.value) + rest && forall f | f in fs.value :: Sendable(f)
    decreases |input|
  {
    hide EncFrame, ReadFrame, Sendable;
    match ReadFrame(input) {
      case Got(f, rest) =>
        FrameExact(input);
        TransmissionExact(rest);
        var (fs, left) := ReadFrames(rest);
        assert Transmission([f] + fs.value) == EncFrame(f) + Transmission(([f] + fs.value)[1..]);
        assert ([f] + fs.value)[1..] == fs.value;
        assert EncFrame(f) + (Transmission(fs.value) + left) == (EncFrame(f) + Transmission(fs.value)) + left;
      case End(rest) =>
        TerminatorExact(input);
    }
  }

  // ----- the stream operations

  class Stream {
    /** The bytes still to arrive, and the bytes the buffered writer has taken. */
    var inbox: seq<byte>
    var outbox: seq<byte>
    /** A buffered writer that has failed once takes nothing more. */
    var stuck: bool

    constructor (arriving: seq<byte>)
      ensures inbox == arriving && outbox == [] && !stuck
    {
      inbox, outbox, stuck := arriving, [], false;
    }

    method Write(bs: seq<byte>)
      modifies this`outbox
      ensures outbox == old(outbox) + if stuck then [] else bs
    {
      if !stuck {
        outbox := outbox + bs;
      }
    }

    method WriteFrame(f: Frame)
      modifies this`outbox
      ensures outbox == old(outbox) + if stuck then [] else EncFrame(f)
    {
      hide BigEndian;
      var length := BigEndian(4 + |f.payload|, 4);
      ghost var before := outbox;
      Write([f.mode]);
      Write(length);
      Write(f.payload);
      if !stuck {
        assert outbox == before + [f.mode] + length + f.payload == before + ([f.mode] + (length + f.payload));
      }
    }

    /** io.ReadFull: all n bytes, or everything that is left and a failure. */
    method ReadFull(n: nat) returns (bs: seq<byte>, ok: bool)
      modifies this`inbox
      ensures ok == (n <= |old(inbox)|)
      ensures if ok then bs == old(inbox)[..n] && inbox == old(inbox)[n..] else inbox == []
    {
      if n <= |inbox| {
        bs, ok := inbox[..n], true;
        inbox := inbox[n..];
      } else {
        bs, ok := [], false;
        inbox := [];
      }
    }

    /** ReadFrame. */
    method NextFrame() returns (r: FrameRead)
      modifies this`inbox
      ensures r == ReadFrame(old(inbox)) && inbox == r.rest
    {
      hide Val, Signed;
      var mode, ok := ReadFull(1);
      if !ok {
        return Bad(inbox);
      }
      if mode[0] == MODE_NONE {
        return End(inbox);
      }
      var header, ok1 := ReadFull(4);
      if !ok1 {
        return Bad(inbox);
      }
      assert header == old(inbox)[1..5];
      var length := Signed(Val(header), 4);
      if length < 4 {
        return Bad(inbox);
      }
      var payload, ok2 := ReadFull(length - 4);
      if !ok2 {
        return Bad(inbox);
      }
      assert payload == old(inbox)[5..length + 1];
      return Got(Frame(mode[0], payload), inbox);
    }
  }
}

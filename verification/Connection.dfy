/** conn.go: one request and one response at a time on a connection that can break. */
module Connection {
  import opened Bytes
  import opened Frame
  import LobReply

  const MODE_DISCONNECT: byte := 32

  /** The modes DecodeResult has a case for. */
  predicate ResponseMode(mode: byte) {
    mode in {1, 2, 3, 4, 6, 7, 11, 14, 15, 16, 19, 20, 38, 43}
  }

  /** Whether DecodeResult accepts the payload of a response mode. */
  type Decoder = (byte, seq<byte>) -> bool

  predicate Decodable(dec: Decoder, f: Frame) {
    ResponseMode(f.mode) && dec(f.mode, f.payload)
  }

  /**
   * Serializing a request: the frame and its LOB frames, or a failure after some bytes, which may
   * be that of the writer itself.
   */
  datatype Sending = Sends(frame: Frame, lobs: seq<byte>) | SendFails(partial: seq<byte>, writerFails: bool)

  datatype State = State(closed: bool, broken: bool, inbox: seq<byte>, outbox: seq<byte>, stuck: bool)

  /** What execCtx returns: the chain of a response, an ERROR response, or an error of the client. */
  datatype Outcome = Response(chain: seq<Frame>) | ServerError(chain: seq<Frame>) | BadConn | Canceled | Transport

  // ----- receive and execCtx as functions

  /** The chained frames: each is decoded as it arrives, and a failure leaves the rest unread. */
  function ReceiveChain(dec: Decoder, input: seq<byte>): (r: (Option<seq<Frame>>, seq<byte>))
    decreases |input|
  {
    match ReadFrame(input)
    case Bad(rest) => (None, rest)
    case End(rest) => (Some([]), rest)
    case Got(f, rest) =>
      if !Decodable(dec, f) then (None, rest)
      else
        match ReceiveChain(dec, rest)
        case (None, left) => (None, left)
        case (Some(fs), left) => (Some([f] + fs), left)
  }

  /** receive: a terminator in place of the main frame is not a response. */
  function Receive(dec: Decoder, input: seq<byte>): (r: (Option<seq<Frame>>, seq<byte>))
  {
    match ReadFrame(input)
    case Bad(rest) => (None, rest)
    case End(rest) => (None, rest)
    case Got(_, _) => ReceiveChain(dec, input)
  }

  /** The output after more bytes, of which a writer that has failed takes none. */
  function Written(s: State, bs: seq<byte>): seq<byte> {
    s.outbox + if s.stuck then [] else bs
  }

  /** The bytes of one request. */
  function RequestBytes(s: Sending): seq<byte>
    requires s.Sends?
  {
    EncFrame(s.frame) + (s.lobs + [MODE_NONE])
  }

  /** execCtx. A cancellation while the exchange runs shows as a failed exchange. */
  function Exec(dec: Decoder, s: State, canceled: bool, sending: Sending): (State, Outcome) {
    if s.closed || s.broken then (s, BadConn)
    else if canceled then (s, Canceled)
    else
      match sending
      case SendFails(partial, writerFails) =>
        (s.(broken := true, outbox := Written(s, partial), stuck := s.stuck || writerFails), Transport)
      case Sends(_, _) =>
        var (chain, left) := Receive(dec, s.inbox);
        var t := s.(inbox := left, outbox := Written(s, RequestBytes(sending)));
        match chain
        case None => (t.(broken := true), Transport)
        case Some(fs) => (t, if fs != [] && fs[0].mode == MODE_ERROR then ServerError(fs) else Response(fs))
  }

  /** Close: a DISCONNECT request is written once, broken or not, unless the writer has failed. */
  function Close(s: State): State {
    if s.closed then s
    else s.(closed := true, outbox := Written(s, EncFrame(Frame(MODE_DISCONNECT, [])) + [MODE_NONE]))
  }

  // ----- the connection

  class Conn {
    const wire: Stream
    var closed: bool
    var broken: bool

    constructor (wire: Stream)
      ensures this.wire == wire && !closed && !broken
    {
      this.wire := wire;
      closed, broken := false, false;
    }

    ghost function Now(): State
      reads this, wire
    {
      State(closed, broken, wire.inbox, wire.outbox, wire.stuck)
    }

    method Send(sending: Sending) returns (ok: bool)
      modifies wire`outbox, wire`stuck
      ensures ok == sending.Sends?
      ensures wire.outbox == Written(old(Now()), if ok then RequestBytes(sending) else sending.partial)
      ensures wire.stuck == (old(wire.stuck) || (sending.SendFails? && sending.writerFails))
    {
      hide EncFrame;
      match sending {
        case SendFails(partial, writerFails) =>
          wire.Write(partial);
          if writerFails {
            wire.stuck := true;
          }
          return false;
        case Sends(frame, lobs) =>
          wire.WriteFrame(frame);
          wire.Write(lobs);
          wire.Write([MODE_NONE]);
          assert wire.outbox == Written(old(Now()), RequestBytes(sending));
          return true;
      }
    }

    /** receive: the main frame, then chained frames until the terminator. */
    method ReceiveResponse(dec: Decoder) returns (chain: Option<seq<Frame>>)
      modifies wire`inbox
      ensures (chain, wire.inbox) == Receive(dec, old(wire.inbox))
    {
      hide ReadFrame;
      ghost var start := wire.inbox;
      var main := wire.NextFrame();
      if !main.Got? || !Decodable(dec, main.frame) {
        return None;
      }
      var fs := [main.frame];
      while true
        invariant ReceiveChain(dec, start).1 == ReceiveChain(dec, wire.inbox).1
        invariant ReceiveChain(dec, start).0 == match ReceiveChain(dec, wire.inbox).0 {
                                                  case None => None
                                                  case Some(more) => Some(fs + more)
                                                }
        decreases |wire.inbox|
      {
        var next := wire.NextFrame();
        match next {
          case Bad(_) => return None;
          case End(_) =>
            assert fs + [] == fs;
            return Some(fs);
          case Got(f, rest) =>
            if !Decodable(dec, f) {
              return None;
            }
            ghost var more := ReceiveChain(dec, rest).0;
            assert more.Some? ==> fs + ([f] + more.value) == (fs + [f]) + more.value;
            fs := fs + [f];
        }
      }
    }

    method ExecCtx(dec: Decoder, canceled: bool, sending: Sending) returns (out: Outcome)
      modifies this`broken, wire
      ensures (Now(), out) == Exec(dec, old(Now()), canceled, sending)
    {
      hide Receive;
      if closed || broken {
        return BadConn;
      }
      if canceled {
        return Canceled;
      }
      var ok := Send(sending);
      var chain := None;
      if ok {
        chain := ReceiveResponse(dec);
      }
      if chain.None? {
        broken := true;
        return Transport;
      }
      var fs := chain.value;
      return if fs != [] && fs[0].mode == MODE_ERROR then ServerError(fs) else Response(fs);
    }

    method CloseConn()
      modifies this`closed, wire`outbox
      ensures Now() == Close(old(Now()))
    {
      hide EncFrame;
      if closed {
        return;
      }
      closed := true;
      wire.WriteFrame(Frame(MODE_DISCONNECT, []));
      wire.Write([MODE_NONE]);
      assert wire.outbox == Written(old(Now()), EncFrame(Frame(MODE_DISCONNECT, [])) + [MODE_NONE]);
    }

    /** lobExchange: a request and one reply; a panic leaves no connection to speak of. */
    method LobExchange(request: seq<byte>, writerFails: Option<seq<byte>>) returns (reply: Option<LobReply.Reply>, panics: bool)
      modifies this`broken, wire
      ensures !panics ==> (Now(), reply) == Exchange(old(Now()), request, writerFails)
      ensures panics <==> !old(closed) && !old(broken) && writerFails.None? && LobReply.ReadReply(old(wire.inbox)).Panics?
    {
      hide LobReply.ReadReply;
      if closed || broken {
        return None, false;
      }
      if writerFails.Some? {
        wire.Write(writerFails.value);
        wire.stuck := true;
        broken := true;
        return None, false;
      }
      wire.Write(request);
      reply, panics := LobReply.ReadLobResponse(wire);
      if reply.None? {
        broken := true;
      }
    }
  }

  // ----- one exchange

  ghost predicate GoodResponse(dec: Decoder, fs: seq<Frame>) {
    fs != [] && forall f | f in fs :: Sendable(f) && Decodable(dec, f)
  }

  lemma {:induction false} ChainExact(dec: Decoder, input: seq<byte>)
    requires ReceiveChain(dec, input).0.Some?
    ensures ReadFrames(input) == ReceiveChain(dec, input)
    ensures forall f | f in ReadFrames(input).0.value :: Decodable(dec, f)
    decreases |input|
  {
    hide ReadFrame, Decodable;
    if ReadFrame(input).Got? {
      ChainExact(dec, ReadFrame(input).rest);
    }
  }

  lemma {:induction false} ChainAccepts(dec: Decoder, input: seq<byte>)
    requires ReadFrames(input).0.Some? && forall f | f in ReadFrames(input).0.value :: Decodable(dec, f)
    ensures ReceiveChain(dec, input) == ReadFrames(input)
    decreases |input|
  {
    hide ReadFrame, Decodable;
    if ReadFrame(input).Got? {
      var f := ReadFrame(input).frame;
      var fs := ReadFrames(ReadFrame(input).rest).0.value;
      assert ([f] + fs)[0] == f;
      forall g | g in fs ensures Decodable(dec, g) {
        assert g in [f] + fs;
      }
      ChainAccepts(dec, ReadFrame(input).rest);
    }
  }

  /**
   * A response is received if and only if the stream starts with one whole transmission of
   * decodable frames, and then exactly that transmission has been consumed.
   */
  lemma ReceiveIff(dec: Decoder, input: seq<byte>, fs: seq<Frame>, rest: seq<byte>)
    ensures Receive(dec, input) == (Some(fs), rest) <==>
              GoodResponse(dec, fs) && input == Transmission(fs) + rest
  {
    hide ReadFrame, EncFrame, Decodable, Sendable;
    if Receive(dec, input) == (Some(fs), rest) {
      ChainExact(dec, input);
      TransmissionExact(input);
    }
    if GoodResponse(dec, fs) && input == Transmission(fs) + rest {
      TransmissionRoundTrip(fs, rest);
      ChainAccepts(dec, input);
    }
  }

  // ----- what each call does

  /** The terminator in front of anything. */
  function Ended(rest: seq<byte>): seq<byte> {
    [MODE_NONE] + rest
  }

  /** A request as the other end reads it: its frame, its LOB bytes, and the terminator. */
  lemma RequestRead(frame: Frame, lobs: seq<byte>, rest: seq<byte>)
    requires Sendable(frame)
    ensures ReadFrame(RequestBytes(Sends(frame, lobs)) + rest) == Got(frame, lobs + Ended(rest))
  {
    hide EncFrame, ReadFrame;
    assert RequestBytes(Sends(frame, lobs)) + rest == EncFrame(frame) + (lobs + Ended(rest));
    FrameRoundTripIff(frame, lobs + Ended(rest));
  }

  /** A usable connection, with a request that can be made. */
  predicate CanExec(s: State, canceled: bool, sending: Sending) {
    !s.closed && !s.broken && !s.stuck && !canceled && sending.Sends?
  }

  /**
   * A request that can be made is answered with a chain exactly when one whole transmission of
   * it arrives: a server error when its first frame is an ERROR, a response otherwise, and the
   * connection stays usable with that transmission consumed. Everything else breaks it.
   */
  lemma ExecMeans(dec: Decoder, s: State, canceled: bool, sending: Sending, fs: seq<Frame>, rest: seq<byte>)
    requires CanExec(s, canceled, sending)
    ensures var (t, out) := Exec(dec, s, canceled, sending);
            && (GoodResponse(dec, fs) && s.inbox == Transmission(fs) + rest <==>
                out == (if fs != [] && fs[0].mode == 2 then ServerError(fs) else Response(fs)) && t.inbox == rest && !t.broken)
            && (t.broken <==> out == Transport) && (out == Transport || out.Response? || out.ServerError?)
            && t == s.(broken := t.broken, inbox := t.inbox, outbox := s.outbox + RequestBytes(sending))
  {
    hide Receive, Transmission, GoodResponse, RequestBytes;
    ReceiveIff(dec, s.inbox, fs, rest);
  }

  /** A request that cannot be made: nothing changes, unless it broke while being written. */
  lemma ExecRefused(dec: Decoder, s: State, canceled: bool, sending: Sending)
    ensures var (t, out) := Exec(dec, s, canceled, sending);
            && (out == BadConn <==> s.closed || s.broken)
            && (out == Canceled <==> !s.closed && !s.broken && canceled)
            && (out == BadConn || out == Canceled ==> t == s)
            && (!s.closed && !s.broken && !canceled && sending.SendFails? ==> out == Transport && t.broken && t.inbox == s.inbox)
  {
    hide Receive, RequestBytes;
  }

  /** The response modes by number: a transmission of one frame is received for these only. */
  lemma ModesReceived(dec: Decoder, mode: byte, payload: seq<byte>, rest: seq<byte>)
    requires mode != MODE_NONE && |payload| < PAYLOAD_LIMIT
    ensures Receive(dec, EncFrame(Frame(mode, payload)) + ([MODE_NONE] + rest)).0.Some? <==>
              dec(mode, payload) && mode in {1, 2, 3, 4, 6, 7, 11, 14, 15, 16, 19, 20, 38, 43}
  {
    hide EncFrame, ReadFrame;
    FrameRoundTripIff(Frame(mode, payload), [MODE_NONE] + rest);
    TerminatorRead(rest);
    assert ReceiveChain(dec, [MODE_NONE] + rest) == (Some([]), rest);
  }

  /** What Close writes is read as a DISCONNECT without a payload and the end of the transmission. */
  lemma CloseMeans(s: State)
    ensures Close(s).closed && Close(s).inbox == s.inbox && Close(s).broken == s.broken
    ensures !s.closed && !s.stuck ==>
              |Close(s).outbox| >= |s.outbox| && Close(s).outbox[..|s.outbox|] == s.outbox
              && ReadFrames(Close(s).outbox[|s.outbox|..]) == (Some([Frame(32, [])]), [])
    ensures s.closed || s.stuck ==> Close(s).outbox == s.outbox
  {
    hide EncFrame, ReadFrames;
    var bye := Frame(MODE_DISCONNECT, []);
    TransmissionRoundTrip([bye], []);
    assert Transmission([bye]) == EncFrame(bye) + [MODE_NONE] by { assert [bye][1..] == []; }
    assert Transmission([bye]) + [] == Transmission([bye]);
    if !s.closed && !s.stuck {
      assert Close(s).outbox == s.outbox + Transmission([bye]);
    }
  }

  /** A LOB request that meets a whole reply takes just that reply. */
  lemma ExchangeMeans(s: State, request: seq<byte>, ids: seq<byte>, x: LobReply.Reply, last: byte, rest: seq<byte>)
    requires Usable(s) && |ids| == 20 && LobReply.InRange(x) && s.inbox == LobReply.Layout(ids, x, last) + rest
    ensures Exchange(s, request, None) == (s.(inbox := rest, outbox := s.outbox + request), Some(x))
  {
    hide LobReply.ReadReply, LobReply.Layout, LobReply.InRange;
    LobReply.RoundTrip(ids, x, last, rest);
  }

  // ----- runs

  /** Anything that uses the wire: requests, LOB exchanges and closing. */
  datatype Op =
    | DoExec(canceled: bool, sending: Sending)
    | DoLob(request: seq<byte>, writerFails: Option<seq<byte>>)
    | DoClose

  /** lobExchange: one reply is taken, or the exchange fails and the connection is broken. */
  function Exchange(s: State, request: seq<byte>, writerFails: Option<seq<byte>>): (State, Option<LobReply.Reply>) {
    if s.closed || s.broken then (s, None)
    else
      match writerFails
      case Some(partial) => (s.(broken := true, outbox := Written(s, partial), stuck := true), None)
      case None =>
        var t := s.(outbox := Written(s, request));
        match LobReply.ReadReply(s.inbox)
        case Reads(reply, rest) => (t.(inbox := rest), Some(reply))
        case Fails(rest) => (t.(broken := true, inbox := rest), None)
        case Panics => (t.(broken := true, inbox := []), None)
  }

  function Step(dec: Decoder, s: State, op: Op): State {
    match op
    case DoExec(canceled, sending) => Exec(dec, s, canceled, sending).0
    case DoLob(request, writerFails) => Exchange(s, request, writerFails).0
    case DoClose => Close(s)
  }

  function Run(dec: Decoder, s: State, ops: seq<Op>): State
    decreases |ops|
  {
    if ops == [] then s else Run(dec, Step(dec, s, ops[0]), ops[1..])
  }

  /** Once broken, a connection stays broken, and nothing but the first Close writes again. */
  lemma {:induction false} BrokenStaysSilent(dec: Decoder, s: State, ops: seq<Op>)
    requires s.broken || s.closed
    ensures var t := Run(dec, s, ops);
            && (s.broken ==> t.broken) && (s.closed ==> t.closed) && t.inbox == s.inbox && t.stuck == s.stuck
            && t.outbox == if t.closed && !s.closed then Close(s).outbox else s.outbox
    decreases |ops|
  {
    hide Receive, EncFrame;
    if ops != [] {
      BrokenStaysSilent(dec, Step(dec, s, ops[0]), ops[1..]);
    }
  }

  /** A request with its response, or a LOB request with its reply and the bytes that carried it. */
  datatype Traffic =
    | Statement(sending: Sending, chain: seq<Frame>)
    | LargeObject(request: seq<byte>, reply: LobReply.Reply, bytes: seq<byte>)

  /** The exchange an operation completes. */
  function Completed(dec: Decoder, s: State, op: Op): seq<Traffic> {
    match op
    case DoClose => []
    case DoLob(request, writerFails) =>
      (match Exchange(s, request, writerFails)
       case (t, Some(reply)) => [LargeObject(request, reply, s.inbox[..|s.inbox| - |t.inbox|])]
       case (_, None) => [])
    case DoExec(canceled, sending) =>
      match Exec(dec, s, canceled, sending).1
      case Response(fs) => [Statement(sending, fs)]
      case ServerError(fs) => [Statement(sending, fs)]
      case _ => []
  }

  /** What went out and what came back, in order. */
  function Exchanges(dec: Decoder, s: State, ops: seq<Op>): seq<Traffic>
    decreases |ops|
  {
    if ops == [] then [] else Completed(dec, s, ops[0]) + Exchanges(dec, Step(dec, s, ops[0]), ops[1..])
  }

  /** A whole request and its whole response or reply. */
  ghost predicate Proper(dec: Decoder, x: Traffic) {
    match x
    case Statement(sending, chain) => sending.Sends? && GoodResponse(dec, chain)
    case LargeObject(_, reply, bytes) => LobReply.Whole(bytes, reply)
  }

  function BytesOut(x: Traffic): seq<byte> {
    match x
    case Statement(sending, _) => if sending.Sends? then RequestBytes(sending) else []
    case LargeObject(request, _, _) => request
  }

  function BytesIn(x: Traffic): seq<byte> {
    match x
    case Statement(_, chain) => Transmission(chain)
    case LargeObject(_, _, bytes) => bytes
  }

  function Sent(xs: seq<Traffic>): seq<byte> {
    if xs == [] then [] else BytesOut(xs[0]) + Sent(xs[1..])
  }

  function Received(xs: seq<Traffic>): seq<byte> {
    if xs == [] then [] else BytesIn(xs[0]) + Received(xs[1..])
  }

  /** The writer of a usable connection has not failed. */
  predicate Usable(s: State) {
    !s.broken && !s.closed && !s.stuck
  }

  /** One operation that leaves the connection usable has completed at most one exchange. */
  lemma StepPaired(dec: Decoder, s: State, op: Op)
    requires Usable(s) && Usable(Step(dec, s, op))
    ensures var t, xs := Step(dec, s, op), Completed(dec, s, op);
            && (xs == [] ==> t == s)
            && (xs != [] ==>
                  && |xs| == 1 && (Proper(dec, xs[0]) || (xs[0].LargeObject? && t.inbox == [])) && s.inbox != []
                  && s.inbox == BytesIn(xs[0]) + t.inbox && t.outbox == s.outbox + BytesOut(xs[0]))
  {
    hide Receive, EncFrame, RequestBytes, Transmission, Decodable, Sendable, LobReply.ReadReply, LobReply.Whole;
    match op {
      case DoClose =>
      case DoLob(_, _) =>
        if LobReply.ReadReply(s.inbox).Reads? {
          LobReply.ReplyExact(s.inbox);
        }
      case DoExec(canceled, sending) =>
        var (t, out) := Exec(dec, s, canceled, sending);
        if out.Response? || out.ServerError? {
          ReceiveIff(dec, s.inbox, out.chain, t.inbox);
          NothingReceived(dec);
        }
    }
  }

  lemma NothingReceived(dec: Decoder)
    ensures Receive(dec, []).0.None?
  {
  }

  /** Once the stream has come to its end, no exchange completes. */
  lemma {:induction false} NothingMore(dec: Decoder, s: State, ops: seq<Op>)
    requires Usable(s) && Usable(Run(dec, s, ops)) && s.inbox == []
    ensures Exchanges(dec, s, ops) == []
    decreases |ops|
  {
    hide Step, Completed, Proper, BytesIn, BytesOut;
    if ops != [] {
      StaysUsable(dec, s, ops);
      StepPaired(dec, s, ops[0]);
      NothingMore(dec, Step(dec, s, ops[0]), ops[1..]);
    }
  }

  /** A run that ends usable was so at every step. */
  lemma StaysUsable(dec: Decoder, s: State, ops: seq<Op>)
    requires Usable(s) && Usable(Run(dec, s, ops)) && ops != []
    ensures Usable(Step(dec, s, ops[0]))
  {
    StuckIsBroken(dec, s, ops[0]);
    hide Step;
    var t := Step(dec, s, ops[0]);
    if t.broken || t.closed {
      BrokenStaysSilent(dec, t, ops[1..]);
    }
  }

  lemma StuckIsBroken(dec: Decoder, s: State, op: Op)
    requires Usable(s)
    ensures Step(dec, s, op).stuck ==> Step(dec, s, op).broken
  {
    hide Receive, LobReply.ReadReply;
  }

  /**
   * Over every run of requests and LOB exchanges that ends with a connection still usable, the
   * bytes written are exactly the requests and the bytes consumed exactly the responses, paired
   * one to one in order: no request is answered with part of another's response. Only the last
   * LOB reply may be short of a whole one, when the stream has ended inside it.
   */
  lemma {:induction false} RequestsAndResponsesPaired(dec: Decoder, s: State, ops: seq<Op>)
    requires Usable(s) && Usable(Run(dec, s, ops))
    ensures var t, xs := Run(dec, s, ops), Exchanges(dec, s, ops);
            && s.inbox == Received(xs) + t.inbox && t.outbox == s.outbox + Sent(xs)
            && forall i | 0 <= i < |xs| :: Proper(dec, xs[i]) || (i == |xs| - 1 && xs[i].LargeObject? && t.inbox == [])
    decreases |ops|
  {
    hide Step, Completed, BytesIn, BytesOut, Proper;
    if ops != [] {
      var t := Step(dec, s, ops[0]);
      StaysUsable(dec, s, ops);
      StepPaired(dec, s, ops[0]);
      RequestsAndResponsesPaired(dec, t, ops[1..]);
      if t.inbox == [] {
        NothingMore(dec, t, ops[1..]);
      }
      PairFirst(dec, s, ops);
    }
  }

  /** The exchange of the first operation in front of those of the others. */
  lemma PairFirst(dec: Decoder, s: State, ops: seq<Op>)
    requires ops != []
    ensures var xs, rest := Completed(dec, s, ops[0]), Exchanges(dec, Step(dec, s, ops[0]), ops[1..]);
            && (xs == [] ==> Exchanges(dec, s, ops) == rest)
            && (|xs| == 1 ==>
                  var all := Exchanges(dec, s, ops);
                  && all == [xs[0]] + rest && Sent(all) == BytesOut(xs[0]) + Sent(rest)
                  && Received(all) == BytesIn(xs[0]) + Received(rest))
  {
    hide Step, Completed, BytesIn, BytesOut;
    var xs, rest := Completed(dec, s, ops[0]), Exchanges(dec, Step(dec, s, ops[0]), ops[1..]);
    if xs == [] {
      assert xs + rest == rest;
    } else if |xs| == 1 {
      assert xs + rest == [xs[0]] + rest && ([xs[0]] + rest)[1..] == rest;
    }
  }
}

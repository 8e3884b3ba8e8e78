/** Large objects end to end: slots, uploads replayed by a server, and values fetched in blocks. */
module LobLaws {
  import opened Bytes
  import opened Lob
  import Utf16

  // ----- the server

  datatype Stored = Stored(isClob: bool, units: seq<Utf16.unit>)

  type Store = map<int, Stored>

  /** A CREATE needs an unused id, a SET an object of its kind that reaches up to the offset. */
  function Accept(store: Store, s: Segment): Option<Store> {
    if s.create then
      if s.id in store || s.off != 0 then None else Some(store[s.id := Stored(s.isClob, s.data)])
    else if s.id !in store || store[s.id].isClob != s.isClob || s.off < 0 || s.off > |store[s.id].units| then None
    else
      var us := store[s.id].units;
      var end := s.off + |s.data|;
      Some(store[s.id := Stored(s.isClob, us[..s.off] + s.data + (if end < |us| then us[end..] else []))])
  }

  function Replay(store: Store, segs: seq<Segment>): Option<Store>
    decreases |segs|
  {
    if segs == [] then Some(store)
    else
      match Accept(store, segs[0])
      case None => None
      case Some(next) => Replay(next, segs[1..])
  }

  lemma {:induction false} ReplayConcat(store: Store, a: seq<Segment>, b: seq<Segment>)
    ensures Replay(store, a + b) == match Replay(store, a) { case None => None case Some(s) => Replay(s, b) }
    decreases |a|
  {
    hide Accept;
    if a == [] {
      assert a + b == b;
    } else {
      assert (a + b)[1..] == a[1..] + b;
      if Accept(store, a[0]).Some? {
        ReplayConcat(Accept(store, a[0]).value, a[1..], b);
      }
    }
  }

  /** Replaying an upload creates the object with exactly the content, and touches nothing else. */
  lemma {:induction false} ReplayUpload(store: Store, segs: seq<Segment>, id: int, isClob: bool)
    requires segs != [] && Chained(segs, id, isClob) && id !in store
    ensures Replay(store, segs) == Some(store[id := Stored(isClob, Data(segs))])
    decreases |segs|
  {
    var n := |segs| - 1;
    var init, last := segs[..n], segs[n];
    assert segs == init + [last];
    ReplayConcat(store, init, [last]);
    ReplayOne(store, last);
    assert Data(segs) == Data(init) + last.data;
    ChainedPrefix(segs, id, isClob);
    hide Accept, Data, Replay, Chained;
    if n == 0 {
      AcceptCreate(store, last);
      ReplayNone(store);
    } else {
      ReplayUpload(store, init, id, isClob);
      AcceptSet(store, isClob, Data(init), last);
      ReplayOne(store[id := Stored(isClob, Data(init))], last);
    }
  }

  lemma ChainedPrefix(segs: seq<Segment>, id: int, isClob: bool)
    requires segs != [] && Chained(segs, id, isClob)
    ensures var n := |segs| - 1;
            && Chained(segs[..n], id, isClob) && segs[n].id == id && segs[n].isClob == isClob
            && (segs[n].create <==> n == 0) && segs[n].off == |Data(segs[..n])|
            && (n == 0 ==> Data(segs[..n]) + segs[n].data == segs[n].data && segs[n].off == 0 && segs[..n] == [])
  {
    var n := |segs| - 1;
    forall k | 0 <= k < n ensures segs[..n][..k] == segs[..k] {
    }
  }

  lemma ReplayNone(store: Store)
    ensures Replay(store, []) == Some(store)
  {
  }

  lemma ReplayOne(store: Store, s: Segment)
    ensures Replay(store, [s]) == Accept(store, s)
  {
  }

  lemma AcceptCreate(store: Store, s: Segment)
    requires s.create && s.off == 0 && s.id !in store
    ensures Accept(store, s) == Some(store[s.id := Stored(s.isClob, s.data)])
  {
  }

  lemma AcceptSet(store: Store, isClob: bool, us: seq<Utf16.unit>, s: Segment)
    requires !s.create && s.off == |us| && s.isClob == isClob
    ensures Accept(store[s.id := Stored(isClob, us)], s) == Some(store[s.id := Stored(isClob, us + s.data)])
  {
    assert us[..|us|] + s.data + [] == us + s.data;
    var x, y := Stored(isClob, us), Stored(isClob, us + s.data);
    assert store[s.id := x][s.id := y] == store[s.id := y];
  }

  // ----- slots and ids

  /** The slots of the loop from `i` on that become temporary objects. */
  predicate Converted(types: seq<SlotType>, values: seq<Slot>, i: nat, j: int) {
    i <= j < |types| && j < |values| && types[j] != PlainSlot && !values[j].Nil? && !values[j].Ref?
  }

  /** `owner` lists, in order, the slots behind the objects of a successful prepareLobParams. */
  ghost predicate Owns(utf8: Utf8, types: seq<SlotType>, values: seq<Slot>, i: nat, next: int, r: Prepared, owner: seq<nat>) {
    && |owner| == |r.lobs| && |r.values| == |values| && r.next == next - |owner|
    && (forall j, k | 0 <= j < k < |owner| :: owner[j] < owner[k])
    && (forall k | 0 <= k < |owner| ::
          && Converted(types, values, i, owner[k])
          && r.lobs[k].id == next - k
          && PayloadOf(utf8, types[owner[k]], values[owner[k]]) == Some(r.lobs[k].payload)
          && r.values[owner[k]] == Ref(next - k, types[owner[k]] == ClobSlot))
    && (forall j: nat | Converted(types, values, i, j) :: j in owner)
    && (forall j: nat | j < |values| && !Converted(types, values, i, j) :: r.values[j] == values[j])
  }

  /**
   * Each non-null LOB slot that is not a reference already gets an id of its own, counting down,
   * tied to exactly the payload it held; every other slot is left alone.
   */
  lemma {:induction false} PrepareOwns(utf8: Utf8, types: seq<SlotType>, values: seq<Slot>, i: nat, next: int)
    returns (owner: seq<nat>)
    requires Prepare(utf8, types, values, i, next).ok
    ensures Owns(utf8, types, values, i, next, Prepare(utf8, types, values, i, next), owner)
    decreases |types| - i
  {
    hide PayloadOf;
    if i >= |types| {
      owner := [];
    } else if i >= |values| || !Convertible(types[i], values[i]) {
      owner := PrepareOwns(utf8, types, values, i + 1, next);
      assert forall j: int :: Converted(types, values, i, j) <==> Converted(types, values, i + 1, j);
    } else {
      var ref := Ref(next, types[i] == ClobSlot);
      var changed := values[i := ref];
      var rest := Prepare(utf8, types, changed, i + 1, next - 1);
      var tail := PrepareOwns(utf8, types, changed, i + 1, next - 1);
      owner := [i] + tail;
      ConsOwner(utf8, types, values, i, next, rest, tail);
    }
  }

  lemma ConsOwner(utf8: Utf8, types: seq<SlotType>, values: seq<Slot>, i: nat, next: int, rest: Prepared, tail: seq<nat>)
    requires Converted(types, values, i, i) && PayloadOf(utf8, types[i], values[i]).Some?
    requires Owns(utf8, types, values[i := Ref(next, types[i] == ClobSlot)], i + 1, next - 1, rest, tail)
    ensures var p := PayloadOf(utf8, types[i], values[i]).value;
            Owns(utf8, types, values, i, next, rest.(lobs := [Pending(next, p)] + rest.lobs), [i] + tail)
  {
  }

  /** How a prepareLobParams that fails leaves the slots: `bad` is the first that cannot be bound. */
  ghost predicate LeftBehind(
      utf8: Utf8, types: seq<SlotType>, values: seq<Slot>, i: nat, next: int, r: Prepared, bad: nat, owner: seq<nat>)
  {
    && Converted(types, values, i, bad) && PayloadOf(utf8, types[bad], values[bad]).None?
    && |r.values| == |values| && r.next == next - |owner| && r.lobs == []
    && (forall j, k | 0 <= j < k < |owner| :: owner[j] < owner[k])
    && (forall k | 0 <= k < |owner| ::
          && owner[k] < bad && Converted(types, values, i, owner[k])
          && PayloadOf(utf8, types[owner[k]], values[owner[k]]).Some?
          && r.values[owner[k]] == Ref(next - k, types[owner[k]] == ClobSlot))
    && (forall j: nat | Converted(types, values, i, j) && j < bad :: j in owner)
    && (forall j: nat | j < |values| && !(Converted(types, values, i, j) && j < bad) :: r.values[j] == values[j])
  }

  /**
   * A prepareLobParams that fails has already replaced every convertible slot in front of the one
   * it fails on by a reference, counting ids down, and nothing else.
   */
  lemma {:induction false} FailedPrepare(utf8: Utf8, types: seq<SlotType>, values: seq<Slot>, i: nat, next: int)
    returns (bad: nat, owner: seq<nat>)
    requires !Prepare(utf8, types, values, i, next).ok
    ensures LeftBehind(utf8, types, values, i, next, Prepare(utf8, types, values, i, next), bad, owner)
    decreases |types| - i
  {
    hide PayloadOf, LeftBehind;
    if i >= |values| || !Convertible(types[i], values[i]) {
      bad, owner := FailedPrepare(utf8, types, values, i + 1, next);
      SkipSlot(utf8, types, values, i, next, Prepare(utf8, types, values, i + 1, next), bad, owner);
    } else if PayloadOf(utf8, types[i], values[i]).None? {
      bad, owner := i, [];
      FailsHere(utf8, types, values, i, next);
    } else {
      var changed := values[i := Ref(next, types[i] == ClobSlot)];
      var rest := Prepare(utf8, types, changed, i + 1, next - 1);
      var tail;
      bad, tail := FailedPrepare(utf8, types, changed, i + 1, next - 1);
      owner := [i] + tail;
      ReplacedSlot(utf8, types, values, i, next, rest, bad, tail);
    }
  }

  lemma SkipSlot(utf8: Utf8, types: seq<SlotType>, values: seq<Slot>, i: nat, next: int, r: Prepared, bad: nat, owner: seq<nat>)
    requires LeftBehind(utf8, types, values, i + 1, next, r, bad, owner) && !Converted(types, values, i, i)
    ensures LeftBehind(utf8, types, values, i, next, r, bad, owner)
  {
    assert forall j: int :: Converted(types, values, i, j) <==> Converted(types, values, i + 1, j);
  }

  lemma FailsHere(utf8: Utf8, types: seq<SlotType>, values: seq<Slot>, i: nat, next: int)
    requires Converted(types, values, i, i) && PayloadOf(utf8, types[i], values[i]).None?
    ensures LeftBehind(utf8, types, values, i, next, Prepared(values, [], next, false), i, [])
  {
  }

  lemma ReplacedSlot(utf8: Utf8, types: seq<SlotType>, values: seq<Slot>, i: nat, next: int, rest: Prepared, bad: nat, tail: seq<nat>)
    requires Converted(types, values, i, i) && PayloadOf(utf8, types[i], values[i]).Some?
    requires LeftBehind(utf8, types, values[i := Ref(next, types[i] == ClobSlot)], i + 1, next - 1, rest, bad, tail)
    ensures LeftBehind(utf8, types, values, i, next, rest, bad, [i] + tail)
  {
    hide PayloadOf;
    var owner := [i] + tail;
    var changed := values[i := Ref(next, types[i] == ClobSlot)];
    assert forall j: int {:trigger Converted(types, changed, i + 1, j)} ::
        Converted(types, changed, i + 1, j) <==> Converted(types, values, i, j) && j != i;
    hide Converted;
    assert forall k | 1 <= k < |owner| :: owner[k] == tail[k - 1];
    assert forall j: nat | j in tail :: j in owner;
    assert i in owner;
  }

  /** A failure leaves the slots as they were exactly when it happens on the first one to convert. */
  lemma UntouchedIff(utf8: Utf8, types: seq<SlotType>, values: seq<Slot>, next: int) returns (bad: nat)
    requires !Prepare(utf8, types, values, 0, next).ok
    ensures Converted(types, values, 0, bad) && PayloadOf(utf8, types[bad], values[bad]).None?
    ensures forall j: nat | j < bad && Converted(types, values, 0, j) :: PayloadOf(utf8, types[j], values[j]).Some?
    ensures Prepare(utf8, types, values, 0, next).values == values
       <==> forall j: nat | j < bad :: !Converted(types, values, 0, j)
  {
    hide Prepare, PayloadOf;
    var owner;
    bad, owner := FailedPrepare(utf8, types, values, 0, next);
    var r := Prepare(utf8, types, values, 0, next);
    if owner != [] {
      assert r.values[owner[0]] != values[owner[0]];
    }
  }

  /** The second of two CLOB slots cannot be bound, and the first is a reference already. */
  lemma HalfPrepared(utf8: Utf8, text: string)
    ensures Prepare(utf8, [ClobSlot, ClobSlot], [Text(text), OtherValue], 0, -1)
         == Prepared([Ref(-1, true), OtherValue], [], -2, false)
  {
    var types, values := [ClobSlot, ClobSlot], [Text(text), OtherValue];
    assert values[0 := Ref(-1, true)] == [Ref(-1, true), OtherValue];
    assert Prepare(utf8, types, [Ref(-1, true), OtherValue], 1, -2) == Prepared([Ref(-1, true), OtherValue], [], -2, false);
  }

  // ----- declared lengths

  /** The length a stream was declared with; other payloads declare none. */
  function Declared(p: Payload): int {
    match p
    case BytesFrom(_, length) => length
    case CharsFrom(_, _, length) => length
    case _ => -1
  }

  /**
   * The object an upload creates has the declared number of units exactly when the payload is not
   * a text stream whose own number of UTF-16 units differs from its declared length: a BLOB is cut
   * to its length or fails, the length of a CLOB plays no part.
   */
  lemma DeclaredLengthIff(store: Store, id: int, p: Payload, segs: seq<Segment>)
    requires Content(p).Some? && Upload(segs, id, IsClob(p), Content(p).value) && id !in store
    ensures var after := Replay(store, segs);
            && after.Some? && id in after.value
            && ((Declared(p) < 0 || |after.value[id].units| == Declared(p)) <==>
                (p.CharsFrom? ==> p.length < 0 || |Utf16.Encode(p.runes)| == p.length))
  {
    hide Replay, Utf16.Encode, Chained, Data;
    ReplayUpload(store, segs, id, IsClob(p));
  }

  /** A stream of two characters declared as five is uploaded as two. */
  lemma LengthIgnored()
    ensures Content(CharsFrom("ab", false, 5)).Some? && |Content(CharsFrom("ab", false, 5)).value| == 2
  {
    assert "ab"[1..] == "b" && "b"[1..] == "";
  }

  // ----- all uploads of a request

  function Flatten(uploads: seq<seq<Segment>>): seq<Segment> {
    if uploads == [] then [] else uploads[0] + Flatten(uploads[1..])
  }

  /** One complete upload per object, as writeLobCreate leaves it. */
  predicate Uploaded(lobs: seq<Pending>, uploads: seq<seq<Segment>>) {
    && |uploads| == |lobs|
    && forall k | 0 <= k < |lobs| ::
         && Content(lobs[k].payload).Some?
         && Upload(uploads[k], lobs[k].id, IsClob(lobs[k].payload), Content(lobs[k].payload).value)
  }

  function Created(store: Store, lobs: seq<Pending>): Store
    requires forall l | l in lobs :: Content(l.payload).Some?
    decreases |lobs|
  {
    if lobs == [] then store
    else Created(store[lobs[0].id := Stored(IsClob(lobs[0].payload), Content(lobs[0].payload).value)], lobs[1..])
  }

  lemma {:induction false} ReplayAll(store: Store, lobs: seq<Pending>, uploads: seq<seq<Segment>>)
    requires Uploaded(lobs, uploads)
    requires forall l | l in lobs :: Content(l.payload).Some?
    requires forall k | 0 <= k < |lobs| :: lobs[k].id !in store
    requires forall j, k | 0 <= j < k < |lobs| :: lobs[j].id != lobs[k].id
    ensures Replay(store, Flatten(uploads)) == Some(Created(store, lobs))
    ensures forall k | 0 <= k < |lobs| ::
              && lobs[k].id in Created(store, lobs)
              && Created(store, lobs)[lobs[k].id] == Stored(IsClob(lobs[k].payload), Content(lobs[k].payload).value)
    ensures forall n | n in store :: n in Created(store, lobs) && Created(store, lobs)[n] == store[n]
    decreases |lobs|
  {
    hide Content, Chained, Data;
    if lobs != [] {
      var l := lobs[0];
      assert Upload(uploads[0], l.id, IsClob(l.payload), Content(l.payload).value);
      ReplayUpload(store, uploads[0], l.id, IsClob(l.payload));
      ReplayConcat(store, uploads[0], Flatten(uploads[1..]));
      var next := store[l.id := Stored(IsClob(l.payload), Content(l.payload).value)];
      forall k | 0 <= k < |lobs[1..]| ensures lobs[1..][k].id !in next {
        assert lobs[1..][k] == lobs[k + 1];
      }
      assert forall x | x in lobs[1..] :: x in lobs;
      ReplayAll(next, lobs[1..], uploads[1..]);
      forall k | 0 < k < |lobs|
        ensures lobs[k].id in Created(next, lobs[1..])
        ensures Created(next, lobs[1..])[lobs[k].id] == Stored(IsClob(lobs[k].payload), Content(lobs[k].payload).value)
      {
        assert lobs[1..][k - 1] == lobs[k];
      }
    }
  }

  // ----- reading back

  function Min(a: nat, b: nat): nat {
    if a < b then a else b
  }

  /** The size of a block: what the server likes to send, what is left, and what is asked for at most. */
  function BlockSize(left: nat, wanted: nat): nat {
    Min(wanted, Min(left, MAX_LOB_CHUNK))
  }

  /** The units of the blocks the server answers with, of any size up to what was asked for. */
  function Fetched(content: seq<Utf16.unit>, off: nat, want: nat -> nat, k: nat): seq<Utf16.unit>
    requires off <= |content|
    decreases |content| - off
  {
    if off == |content| then []
    else
      var b := BlockSize(|content| - off, want(k));
      if b == 0 then [] else content[off..off + b] + Fetched(content, off + b, want, k + 1)
  }

  /** Whether some answer is empty although units are left. */
  predicate EmptyBlock(content: seq<Utf16.unit>, off: nat, want: nat -> nat, k: nat)
    requires off <= |content|
    decreases |content| - off
  {
    off < |content| &&
    (want(k) == 0 || EmptyBlock(content, off + BlockSize(|content| - off, want(k)), want, k + 1))
  }

  /** The fetch loop returns the whole object exactly when no block comes empty before its end. */
  lemma {:induction false} FetchedIff(content: seq<Utf16.unit>, off: nat, want: nat -> nat, k: nat)
    requires off <= |content|
    ensures Fetched(content, off, want, k) <= content[off..]
    ensures Fetched(content, off, want, k) == content[off..] <==> !EmptyBlock(content, off, want, k)
    ensures (forall j: nat :: want(j) > 0) ==> Fetched(content, off, want, k) == content[off..]
    decreases |content| - off
  {
    if off < |content| {
      var b := BlockSize(|content| - off, want(k));
      if b > 0 {
        FetchedIff(content, off + b, want, k + 1);
        assert content[off..] == content[off..off + b] + content[off + b..];
      }
    }
  }

  class Server {
    var store: Store

    constructor (s: Store)
      ensures store == s
    {
      store := s;
    }

    /** GET_BYTES or GET_CHARS: at most `n` units from `off`, and at most `want` of them. */
    method Get(id: int, off: nat, n: nat, want: nat) returns (block: seq<Utf16.unit>)
      requires id in store && off <= |store[id].units|
      ensures var us := store[id].units; block == us[off..off + Min(want, Min(|us| - off, n))]
    {
      var us := store[id].units;
      block := us[off..off + Min(want, Min(|us| - off, n))];
    }
  }

  /** lobGetBytes and the loop of lobGetChars, on a server that answers the k-th request with `want(k)` units. */
  method GetUnits(server: Server, id: int, length: nat, want: nat -> nat) returns (out: seq<Utf16.unit>)
    requires id in server.store && length == |server.store[id].units|
    ensures out == Fetched(server.store[id].units, 0, want, 0)
  {
    hide Fetched;
    var content := server.store[id].units;
    out := [];
    var off := 0;
    var k := 0;
    while off < length
      invariant off <= length
      invariant Fetched(content, 0, want, 0) == out + Fetched(content, off, want, k)
    {
      var n := length - off;
      if n > MAX_LOB_CHUNK {
        n := MAX_LOB_CHUNK;
      }
      var block := server.Get(id, off, n, want(k));
      FetchedStep(content, off, want, k, out);
      if |block| == 0 {
        return;
      }
      out := out + block;
      off := off + |block|;
      k := k + 1;
    }
    FetchedStep(content, off, want, k, out);
  }

  /** One round of the fetch loop. */
  lemma FetchedStep(content: seq<Utf16.unit>, off: nat, want: nat -> nat, k: nat, out: seq<Utf16.unit>)
    requires off <= |content|
    ensures out + Fetched(content, off, want, k)
         == if BlockSize(|content| - off, want(k)) == 0 then out
            else (out + content[off..off + BlockSize(|content| - off, want(k))])
                 + Fetched(content, off + BlockSize(|content| - off, want(k)), want, k + 1)
  {
  }

  /** lobGetChars: the units are decoded once, after the last block. */
  method GetChars(server: Server, id: int, length: nat, want: nat -> nat) returns (text: string)
    requires id in server.store && length == |server.store[id].units|
    ensures text == Utf16.Decode(Fetched(server.store[id].units, 0, want, 0))
  {
    var units := GetUnits(server, id, length, want);
    text := Utf16.Decode(units);
  }

  // ----- end to end

  /** What the server must hold for a slot: its bytes, or the UTF-16 units of its text. */
  function Expected(utf8: Utf8, t: SlotType, v: Slot): Option<Stored> {
    if t == BlobSlot then
      match v
      case Binary(b) => Some(Stored(false, Units(b)))
      case Text(s) => Some(Stored(false, Units(utf8.encode(s))))
      case BlobReader(feed, length) =>
        var (bs, failed) := Stream(feed);
        if length >= 0 then if |bs| >= length then Some(Stored(false, Units(bs[..length]))) else None
        else if failed then None else Some(Stored(false, Units(bs)))
      case _ => None
    else
      match v
      case Text(s) => Some(Stored(true, Utf16.Encode(s)))
      case Binary(b) => Some(Stored(true, Utf16.Encode(utf8.decode(b))))
      case ClobReader(runes, fails, _) => if fails then None else Some(Stored(true, Utf16.Encode(runes)))
      case _ => None
  }

  /**
   * Every converted slot refers to an object of its own that was not there before, holding exactly
   * what the slot held, and fetching it returns all of it; other slots and objects are as before.
   */
  ghost predicate Delivered(utf8: Utf8, types: seq<SlotType>, values: seq<Slot>, next: int, store: Store,
                            refs: seq<Slot>, last: int, after: Store, want: nat -> nat)
  {
    && |refs| == |values|
    && (forall n | n in store :: n in after && after[n] == store[n])
    && (forall n | n in after && n !in store :: last < n <= next)
    && (forall j: nat | Converted(types, values, 0, j) ::
          && refs[j].Ref? && refs[j].isClob == (types[j] == ClobSlot)
          && refs[j].id in after && refs[j].id !in store
          && Expected(utf8, types[j], values[j]) == Some(after[refs[j].id])
          && Fetched(after[refs[j].id].units, 0, want, 0) == after[refs[j].id].units)
    && (forall i: nat, j: nat | Converted(types, values, 0, i) && Converted(types, values, 0, j) && i != j ::
          refs[i].id != refs[j].id)
    && (forall j: nat | j < |values| && !Converted(types, values, 0, j) :: refs[j] == values[j])
  }

  /** A request whose LOB slots were all prepared and uploaded, in whatever segments, is delivered. */
  lemma EndToEnd(utf8: Utf8, types: seq<SlotType>, values: seq<Slot>, next: int, store: Store,
                 uploads: seq<seq<Segment>>, want: nat -> nat)
    requires Prepare(utf8, types, values, 0, next).ok
    requires Uploaded(Prepare(utf8, types, values, 0, next).lobs, uploads)
    requires forall n | n in store :: n > next
    requires forall k: nat :: want(k) > 0
    ensures var r := Prepare(utf8, types, values, 0, next);
            var after := Replay(store, Flatten(uploads));
            after.Some? && Delivered(utf8, types, values, next, store, r.values, r.next, after.value, want)
  {
    hide Prepare, Content, Upload, PayloadOf, Fetched, Flatten, Created, Expected, Owns;
    var r := Prepare(utf8, types, values, 0, next);
    var owner := PrepareOwns(utf8, types, values, 0, next);
    ObjectsLand(utf8, types, values, next, store, r, owner, uploads);
    var after := Created(store, r.lobs);
    forall j: nat | Converted(types, values, 0, j)
      ensures r.values[j].Ref? && r.values[j].isClob == (types[j] == ClobSlot)
      ensures r.values[j].id in after && r.values[j].id !in store
      ensures Expected(utf8, types[j], values[j]) == Some(after[r.values[j].id])
      ensures Fetched(after[r.values[j].id].units, 0, want, 0) == after[r.values[j].id].units
    {
      SlotLands(utf8, types, values, next, store, r, owner, after, j);
      var us := after[r.values[j].id].units;
      FetchedIff(us, 0, want, 0);
      assert us[0..] == us;
    }
    forall i: nat, j: nat | Converted(types, values, 0, i) && Converted(types, values, 0, j) && i != j
      ensures r.values[i].id != r.values[j].id
    {
      OwnIds(utf8, types, values, next, r, owner, i, j);
    }
    OthersKept(utf8, types, values, next, r, owner);
  }

  /** The loop of send over the prepared objects: every payload is uploaded, or the first failure ends it. */
  method SendObjects(c: Conn, lobs: seq<Pending>) returns (ok: bool, ghost uploads: seq<seq<Segment>>)
    modifies c`out
    ensures ok <==> forall l | l in lobs :: Content(l.payload).Some?
    ensures ok ==> Uploaded(lobs, uploads) && c.out == old(c.out) + Flatten(uploads)
  {
    hide Content, Upload, Flatten;
    uploads := [];
    assert Flatten([]) == [] by { FlattenNone(); }
    for k := 0 to |lobs|
      invariant Uploaded(lobs[..k], uploads) && c.out == old(c.out) + Flatten(uploads)
      invariant forall l | l in lobs[..k] :: Content(l.payload).Some?
    {
      ghost var segs;
      ok, segs := c.WriteLobCreate(lobs[k]);
      if !ok {
        assert lobs[k] in lobs;
        return;
      }
      assert lobs[..k + 1] == lobs[..k] + [lobs[k]];
      FlattenLast(uploads, segs);
      uploads := uploads + [segs];
    }
    assert lobs[..|lobs|] == lobs;
    ok := true;
  }

  lemma FlattenNone()
    ensures Flatten([]) == []
  {
  }

  lemma {:induction false} FlattenLast(uploads: seq<seq<Segment>>, segs: seq<Segment>)
    ensures Flatten(uploads + [segs]) == Flatten(uploads) + segs
  {
    if uploads == [] {
      assert [segs][1..] == [] && segs + [] == segs;
    } else {
      assert (uploads + [segs])[1..] == uploads[1..] + [segs];
      FlattenLast(uploads[1..], segs);
    }
  }

  /**
   * The large objects of a request, from the parameter slots to the server: prepareLobParams and
   * the loop of send. When neither fails, a server that replays the frames written has every
   * value, and the slots refer to them.
   */
  method SendRequest(c: Conn, utf8: Utf8, types: seq<SlotType>, values: array<Slot>, ghost store: Store, ghost want: nat -> nat)
    returns (ok: bool, ghost written: seq<Segment>)
    requires forall n | n in store :: n > c.lobIDSeq
    requires forall k: nat :: want(k) > 0
    modifies c, values
    ensures values[..] == Prepare(utf8, types, old(values[..]), 0, old(c.lobIDSeq)).values
    ensures ok <==> forall j: nat | Converted(types, old(values[..]), 0, j) :: Expected(utf8, types[j], old(values[j])).Some?
    ensures ok ==>
              && c.out == old(c.out) + written && Replay(store, written).Some?
              && Delivered(utf8, types, old(values[..]), old(c.lobIDSeq), store, values[..], c.lobIDSeq,
                           Replay(store, written).value, want)
  {
    hide Prepare, Content, Upload, Flatten, Replay, Delivered, Expected;
    ghost var before, next := values[..], c.lobIDSeq;
    written := [];
    var lobs, bound := c.PrepareLobParams(utf8, types, values);
    if !bound {
      ghost var bad, owner := FailedPrepare(utf8, types, before, 0, next);
      ExpectedContent(utf8, types[bad], before[bad]);
      return false, [];
    }
    ghost var uploads;
    ok, uploads := SendObjects(c, lobs);
    ContentsExpected(utf8, types, before, next);
    if ok {
      written := Flatten(uploads);
      EndToEnd(utf8, types, before, next, store, uploads, want);
    }
  }

  /** All objects of a request can be uploaded exactly when every converted slot has a value to hold. */
  lemma ContentsExpected(utf8: Utf8, types: seq<SlotType>, values: seq<Slot>, next: int)
    requires Prepare(utf8, types, values, 0, next).ok
    ensures (forall l | l in Prepare(utf8, types, values, 0, next).lobs :: Content(l.payload).Some?)
       <==> forall j: nat | Converted(types, values, 0, j) :: Expected(utf8, types[j], values[j]).Some?
  {
    hide Prepare, Content, Expected, PayloadOf;
    var r := Prepare(utf8, types, values, 0, next);
    var owner := PrepareOwns(utf8, types, values, 0, next);
    forall k | 0 <= k < |owner|
      ensures Content(r.lobs[k].payload).Some? <==> Expected(utf8, types[owner[k]], values[owner[k]]).Some?
    {
      ExpectedContent(utf8, types[owner[k]], values[owner[k]]);
    }
    forall l | l in r.lobs ensures exists k :: 0 <= k < |owner| && r.lobs[k] == l {
    }
  }

  ghost predicate Landed(store: Store, lobs: seq<Pending>, after: Store)
    requires forall l | l in lobs :: Content(l.payload).Some?
  {
    forall k | 0 <= k < |lobs| ::
      && lobs[k].id in after && lobs[k].id !in store
      && after[lobs[k].id] == Stored(IsClob(lobs[k].payload), Content(lobs[k].payload).value)
  }

  lemma ObjectsLand(utf8: Utf8, types: seq<SlotType>, values: seq<Slot>, next: int, store: Store,
                    r: Prepared, owner: seq<nat>, uploads: seq<seq<Segment>>)
    requires Owns(utf8, types, values, 0, next, r, owner) && Uploaded(r.lobs, uploads)
    requires forall n | n in store :: n > next
    ensures forall l | l in r.lobs :: Content(l.payload).Some?
    ensures var after := Created(store, r.lobs);
            && Replay(store, Flatten(uploads)) == Some(after) && Landed(store, r.lobs, after)
            && (forall n | n in store :: n in after && after[n] == store[n])
            && (forall n | n in after && n !in store :: r.next < n <= next)
  {
    hide Content, Upload, PayloadOf, Flatten, Created, Replay;
    forall l | l in r.lobs ensures Content(l.payload).Some? {
      var k :| 0 <= k < |r.lobs| && r.lobs[k] == l;
    }
    ReplayAll(store, r.lobs, uploads);
    CreatedIds(store, r.lobs);
  }

  lemma SlotLands(utf8: Utf8, types: seq<SlotType>, values: seq<Slot>, next: int, store: Store,
                  r: Prepared, owner: seq<nat>, after: Store, j: nat)
    requires Owns(utf8, types, values, 0, next, r, owner) && Converted(types, values, 0, j)
    requires forall l | l in r.lobs :: Content(l.payload).Some?
    requires Landed(store, r.lobs, after)
    ensures r.values[j].Ref? && r.values[j].isClob == (types[j] == ClobSlot)
    ensures r.values[j].id in after && r.values[j].id !in store
    ensures Expected(utf8, types[j], values[j]) == Some(after[r.values[j].id])
  {
    hide PayloadOf, Expected, Content;
    ExpectedContent(utf8, types[j], values[j]);
  }

  lemma OwnIds(utf8: Utf8, types: seq<SlotType>, values: seq<Slot>, next: int, r: Prepared, owner: seq<nat>, i: nat, j: nat)
    requires Owns(utf8, types, values, 0, next, r, owner)
    requires Converted(types, values, 0, i) && Converted(types, values, 0, j) && i != j
    ensures r.values[i].Ref? && r.values[j].Ref? && r.values[i].id != r.values[j].id
  {
  }

  lemma OthersKept(utf8: Utf8, types: seq<SlotType>, values: seq<Slot>, next: int, r: Prepared, owner: seq<nat>)
    requires Owns(utf8, types, values, 0, next, r, owner)
    ensures |r.values| == |values|
    ensures forall j: nat | j < |values| && !Converted(types, values, 0, j) :: r.values[j] == values[j]
  {
  }

  lemma ExpectedContent(utf8: Utf8, t: SlotType, v: Slot)
    requires Convertible(t, v)
    ensures Expected(utf8, t, v)
         == match PayloadOf(utf8, t, v)
            case None => None
            case Some(p) => (match Content(p) case None => None case Some(us) => Some(Stored(IsClob(p), us)))
    ensures PayloadOf(utf8, t, v).Some? ==> IsClob(PayloadOf(utf8, t, v).value) == (t == ClobSlot)
  {
  }

  lemma {:induction false} CreatedIds(store: Store, lobs: seq<Pending>)
    requires forall l | l in lobs :: Content(l.payload).Some?
    ensures forall n | n in Created(store, lobs) && n !in store :: exists k :: 0 <= k < |lobs| && lobs[k].id == n
    decreases |lobs|
  {
    hide Content;
    if lobs != [] {
      var next := store[lobs[0].id := Stored(IsClob(lobs[0].payload), Content(lobs[0].payload).value)];
      assert forall x | x in lobs[1..] :: x in lobs;
      CreatedIds(next, lobs[1..]);
      forall n | n in Created(store, lobs) && n !in store
        ensures exists k :: 0 <= k < |lobs| && lobs[k].id == n
      {
        if n == lobs[0].id {
        } else {
          assert n in Created(next, lobs[1..]) && n !in next;
          var k :| 0 <= k < |lobs[1..]| && lobs[1..][k].id == n;
          assert lobs[k + 1].id == n;
        }
      }
    }
  }

  /** Bytes bound to a BLOB slot, or the UTF-8 of a text, come back byte for byte. */
  lemma BytesComeBack(utf8: Utf8, v: Slot, b: seq<byte>, want: nat -> nat)
    requires v == Binary(b) || (v.Text? && utf8.encode(v.text) == b)
    requires forall k: nat :: want(k) > 0
    ensures Expected(utf8, BlobSlot, v).Some?
    ensures var back := Fetched(Expected(utf8, BlobSlot, v).value.units, 0, want, 0);
            |back| == |b| && forall i | 0 <= i < |b| :: back[i] == b[i]
  {
    hide Fetched;
    var us := Units(b);
    FetchedIff(us, 0, want, 0);
    assert us[0..] == us;
  }

  /** What a list of reads has delivered. */
  function Joined(feed: seq<Read>): seq<byte> {
    if feed == [] then [] else Joined(feed[..|feed| - 1]) + feed[|feed| - 1].data
  }

  lemma {:induction false} JoinedFirst(feed: seq<Read>)
    requires feed != []
    ensures Joined(feed) == feed[0].data + Joined(feed[1..])
  {
    if |feed| == 1 {
      assert feed[..0] == [] && feed[1..] == [];
    } else {
      var init, last := feed[..|feed| - 1], feed[|feed| - 1].data;
      JoinedFirst(init);
      assert feed[1..][..|feed| - 2] == init[1..];
      assert feed[0].data + (Joined(init[1..]) + last) == (feed[0].data + Joined(init[1..])) + last;
    }
  }

  /**
   * A reader delivers what its reads return up to the first that does not leave it going, data that
   * comes with the end or the failure included, and has failed exactly when that read did.
   */
  lemma {:induction false} StreamIs(feed: seq<Read>, n: nat)
    requires n <= |feed| && forall i | 0 <= i < n :: feed[i].end == Going
    requires n < |feed| ==> feed[n].end != Going
    ensures Stream(feed) == if n == |feed| then (Joined(feed), false) else (Joined(feed[..n + 1]), feed[n].end == Fails)
  {
    if feed != [] {
      JoinedFirst(feed);
      if n == 0 {
        JoinedFirst(feed[..1]);
        assert feed[..1][1..] == [] && Joined([]) == [];
        assert feed[0].data + [] == feed[0].data;
      } else {
        StreamIs(feed[1..], n - 1);
        if n < |feed| {
          JoinedFirst(feed[..n + 1]);
          assert feed[..n + 1][1..] == feed[1..][..n];
        }
      }
    }
  }

  /** Text bound to a CLOB slot comes back as the same text, even from blocks that split a pair. */
  lemma TextComesBack(utf8: Utf8, v: Slot, text: string, want: nat -> nat)
    requires v == Text(text) || (v.ClobReader? && v.runes == text && !v.fails)
    requires forall k: nat :: want(k) > 0
    ensures Expected(utf8, ClobSlot, v).Some?
    ensures Utf16.Decode(Fetched(Expected(utf8, ClobSlot, v).value.units, 0, want, 0)) == text
  {
    hide Utf16.Encode, Utf16.Decode, Fetched;
    var us := Utf16.Encode(text);
    FetchedIff(us, 0, want, 0);
    assert us[0..] == us;
    Utf16.RoundTrip(text);
  }
}

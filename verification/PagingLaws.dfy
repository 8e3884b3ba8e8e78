/** Paging returns the whole of every result set, whatever blocks it comes in. */
module PagingLaws {
  import opened Bytes
  import opened Values
  import opened Paging

  // ----- which results are visited

  /** Results of mode DATA, DATAHEAD or GENERATED with metadata and a row set, in the order they were sent. */
  function Bearing(rs: seq<Result>): seq<Result>
    decreases |rs|
  {
    if rs == [] then []
    else
      var last := rs[|rs| - 1];
      var init := Bearing(rs[..|rs| - 1]);
      if (last.mode == 3 || last.mode == 15 || last.mode == 20) && last.columns.Some? && last.rows.Some? then init + [last]
      else init
  }

  /** The results with rows of a whole response. */
  function RowBearing(r: Result): seq<Result> {
    Bearing([r] + r.chained)
  }

  /** Whether the search of the code begins at the front or at the end makes no difference. */
  lemma {:induction false} RowsOnlyBearing(rs: seq<Result>)
    ensures RowsOnly(rs) == Bearing(rs)
    decreases |rs|
  {
    if rs != [] {
      RowsOnlyLast(rs[..|rs| - 1], rs[|rs| - 1]);
      assert rs[..|rs| - 1] + [rs[|rs| - 1]] == rs;
      RowsOnlyBearing(rs[..|rs| - 1]);
    }
  }

  lemma {:induction false} RowsOnlyLast(rs: seq<Result>, last: Result)
    ensures RowsOnly(rs + [last]) == RowsOnly(rs) + if IsRows(last) then [last] else []
    decreases |rs|
  {
    if rs == [] {
      assert [] + [last] == [last] && RowsOnly([last]) == (if IsRows(last) then [last] else []) + RowsOnly([]);
    } else {
      assert (rs + [last])[1..] == rs[1..] + [last];
      RowsOnlyLast(rs[1..], last);
    }
  }

  /** The results a rows object goes through: the current one and those waiting. A CALL_RESPONSE (43) is not one. */
  function Visited(r: Result): seq<Result> {
    if r.mode == 43 then RowsOnly(r.chained)
    else if IsRows(r) then [r] + RowsOnly(r.chained)
    else []
  }

  /** Chained results of a transmission have none of their own. */
  predicate Flat(r: Result) {
    forall c | c in r.chained :: c.chained == []
  }

  lemma {:induction false} FirstRowsSplits(rs: seq<Result>)
    ensures var i := FirstRows(rs);
            RowsOnly(rs) == if i == |rs| then [] else [rs[i]] + RowsOnly(rs[i + 1..])
  {
    if rs != [] && !IsRows(rs[0]) {
      FirstRowsSplits(rs[1..]);
      assert [] + RowsOnly(rs[1..]) == RowsOnly(rs[1..]);
    }
  }

  /** rowsFromResponse starts on the first visited result with the others waiting in order. */
  lemma StartsOnVisited(r: Result)
    requires Flat(r)
    ensures FromResponse(r) == if Visited(r) == [] then EMPTY else Load(Visited(r)[0], Visited(r)[1..])
  {
    if r.mode == MODE_CALL_RESPONSE {
      FirstRowsSplits(r.chained);
      var i := FirstRows(r.chained);
      if i < |r.chained| {
        assert r.chained[i] in r.chained;
        assert [] + RowsOnly(r.chained[i + 1..]) == RowsOnly(r.chained[i + 1..]);
      }
    }
  }

  /**
   * These are exactly the row-bearing results of the response, in order, unless the main result
   * is neither rows nor a CALL_RESPONSE and yet has rows chained to it: those are never shown.
   */
  lemma VisitsAllIff(r: Result)
    ensures Visited(r) == RowBearing(r) <==>
              (IsRows(r) || r.mode == 43 || RowsOnly(r.chained) == [])
  {
    RowsOnlyBearing([r] + r.chained);
    assert ([r] + r.chained)[1..] == r.chained;
    assert [] + RowsOnly(r.chained) == RowsOnly(r.chained);
  }

  /** An update count with generated keys chained to it: the keys are never shown. */
  lemma KeysHidden(keys: Result, count: Result)
    requires IsRows(keys) && count.mode == MODE_UPDATE_COUNT && count.chained == [keys]
    ensures FromResponse(count) == EMPTY && RowBearing(count) == [keys]
  {
    assert [count] + [keys] == [count, keys] && [count, keys][1..] == [keys] && [keys][1..] == [];
    assert RowsOnly([keys]) == [keys] + RowsOnly([]);
    assert RowsOnly([count, keys]) == [] + RowsOnly([keys]);
    RowsOnlyBearing([count, keys]);
  }

  // ----- one result set

  /** The block held is the stretch of the whole result around the current position. */
  predicate OnTrack(whole: seq<Row>, s: State) {
    && s.total == |whole| && s.columns.Some?
    && s.blockPos <= |s.block| && s.blockPos <= s.absPos
    && s.absPos - s.blockPos + |s.block| <= |whole|
    && s.block == whole[s.absPos - s.blockPos..s.absPos - s.blockPos + |s.block|]
    && (s.done ==> s.absPos == |whole|)
  }

  /** Asked for the rows of a result from an offset, the server sends the next ones, at least one. */
  predicate HonestAnswer(id: int, whole: seq<Row>, request: (int, int), reply: Reply) {
    request.0 == id && 0 <= request.1 < |whole| ==>
      && (reply.Block? ==>
            0 < |reply.rows| <= |whole| - request.1 && reply.rows == whole[request.1..request.1 + |reply.rows|])
      && !reply.NoRows?
  }

  /** The answer to the request that Next makes, if it makes one. */
  predicate HonestReply(id: int, whole: seq<Row>, s: State, reply: Reply) {
    RowRequests(s, Open) != [] ==> HonestAnswer(id, whole, RowRequests(s, Open)[0], reply)
  }

  /** The columns a caller of Next sees: those of the block it fetches, when that brings any. */
  function ColumnsShown(s: State, reply: Reply): nat
    requires s.columns.Some?
  {
    if s.blockPos >= |s.block| && reply.Block? && reply.columns.Some? then reply.columns.value else s.columns.value
  }

  function Least(a: nat, b: nat): nat {
    if a < b then a else b
  }

  /** A row is resolved exactly when each of its values is, each to what is shown for it. */
  lemma {:induction false} ResolvedIff(resolve: Value -> Option<Value>, row: seq<Value>)
    ensures Resolve(resolve, row).Some? <==> forall i | 0 <= i < |row| :: resolve(row[i]).Some?
    ensures var vs := Resolve(resolve, row);
            vs.Some? ==> |vs.value| == |row| && forall i | 0 <= i < |row| :: resolve(row[i]) == Some(vs.value[i])
  {
    if row != [] {
      ResolvedIff(resolve, row[1..]);
      assert row == [row[0]] + row[1..];
    }
  }

  /** What is handed out for a row: its first values, as many as the caller and the columns allow. */
  ghost predicate Yields(resolve: Value -> Option<Value>, row: Row, n: nat, out: Outcome)
    requires n <= |row|
  {
    && (out.Values? <==> forall i | 0 <= i < n :: resolve(row[i]).Some?)
    && (out.Values? ==> |out.row| == n && forall i | 0 <= i < n :: resolve(row[i]) == Some(out.row[i]))
    && (!out.Values? ==> out == Error)
  }

  lemma PartYields(resolve: Value -> Option<Value>, t: State, row: Row, wanted: nat)
    requires t.columns.Some?
    ensures var n := Least(wanted, Least(t.columns.value, |row|));
            Yields(resolve, row, n, match Resolve(resolve, VisiblePart(t, row, wanted))
                                    case None => Error
                                    case Some(vs) => Values(vs))
  {
    hide Resolve;
    var n := Least(wanted, Least(t.columns.value, |row|));
    var part := VisiblePart(t, row, wanted);
    assert |part| == n && forall i | 0 <= i < n :: part[i] == row[i];
    ResolvedIff(resolve, part);
  }

  /**
   * Next hands out the row at the current position, whatever block it arrives in: its first values,
   * each resolved, or an error exactly when one of them cannot be. It reports the end exactly at
   * the end, and a failed request leaves everything as it was.
   */
  lemma NextDelivers(resolve: Value -> Option<Value>, whole: seq<Row>, s: State, wanted: nat, reply: Reply)
    requires OnTrack(whole, s) && HonestReply(s.resultID, whole, s, reply)
    ensures var (t, out) := Next(resolve, s, wanted, reply);
            && OnTrack(whole, t) && t.next == s.next && t.resultID == s.resultID
            && if s.absPos == |whole| then out == EndOfRows && t.absPos == s.absPos
               else if s.blockPos == |s.block| && reply.Fails? then out == Error && t == s
               else
                 var row := whole[s.absPos];
                 && t.absPos == s.absPos + 1
                 && Yields(resolve, row, Least(wanted, Least(ColumnsShown(s, reply), |row|)), out)
  {
    var (t, _) := Next(resolve, s, wanted, reply);
    if t.absPos == s.absPos + 1 && s.absPos < |whole| {
      PartYields(resolve, t, whole[s.absPos], wanted);
    }
    hide Resolve, VisiblePart, Yields;
    if !s.done && s.blockPos < |s.block| {
      assert s.block[s.blockPos] == whole[s.absPos];
    } else if !s.done && s.absPos < |whole| && reply.Block? {
      assert reply.rows[0] == whole[s.absPos];
    }
  }

  /**
   * NextResultSet succeeds exactly when a set waits and the current one needs no closing or is
   * closed; the object is then at the start of that set, with the others waiting behind it.
   * Otherwise it stays where it is.
   */
  lemma NextSetMeans(s: State, link: Link, closes: bool)
    ensures var (t, ok) := NextResultSet(s, link, closes);
            && (ok <==>
                  && s.next != []
                  && (link == Closed || s.resultID == 0 || s.absPos >= s.total || (link == Open && closes)))
            && (!ok ==> t == s)
            && (ok ==>
                  var r := s.next[0];
                  && [r] + t.next == s.next
                  && t.columns == r.columns && t.blockPos == 0 && t.absPos == 0
                  && (t.done <==> r.columns.None?)
                  && (if r.rows.Some? then RowSet(t.resultID, t.total, t.block) == r.rows.value
                      else t.resultID == 0 && t.total == 0 && t.block == []))
  {
  }

  // ----- CLOSE_RESULT

  /** The rows the server has sent so far. */
  function Sent(s: State): int {
    s.absPos - s.blockPos + |s.block|
  }

  /**
   * On an open connection CLOSE_RESULT goes out whenever the server still holds rows, and never
   * once all rows have been consumed; it also goes out when everything was sent but not
   * everything consumed, which is exactly when the server holds no cursor for it. On a broken
   * connection nothing goes out, and closing fails just where it would have.
   */
  lemma CloseGuard(whole: seq<Row>, s: State, link: Link, closes: bool)
    requires OnTrack(whole, s) && s.resultID != 0
    ensures link.Open? && Sent(s) < |whole| ==> SendsClose(s, link)
    ensures s.absPos == |whole| ==> !SendsClose(s, link) && ClosesWell(s, link, closes)
    ensures SendsClose(s, link) && Sent(s) == |whole| <==> link.Open? && Sent(s) == |whole| && s.blockPos < |s.block|
    ensures !link.Open? ==> !SendsClose(s, link)
    ensures link.Broken? ==> (ClosesWell(s, link, closes) <==> !SendsClose(s, Open))
  {
  }

  // ----- whole runs over a chain of result sets

  datatype Op = DoNext(link: Link, wanted: nat, reply: Reply) | DoNextSet(link: Link, closes: bool)

  /** The object, the number of the current set, and the rows delivered from each set so far. */
  datatype World = World(s: State, current: nat, delivered: seq<seq<Row>>)

  /** The row Next has just consumed. */
  function Consumed(t: State): Row
    requires 0 < t.blockPos <= |t.block|
  {
    t.block[t.blockPos - 1]
  }

  function Step(resolve: Value -> Option<Value>, w: World, op: Op): World {
    match op
    case DoNext(link, wanted, reply) =>
      var t := Next(resolve, w.s, wanted, Answer(link, reply)).0;
      if t.absPos == w.s.absPos + 1 && 0 < t.blockPos <= |t.block| && w.current < |w.delivered| then
        World(t, w.current, w.delivered[w.current := w.delivered[w.current] + [Consumed(t)]])
      else w.(s := t)
    case DoNextSet(link, closes) =>
      var (t, ok) := NextResultSet(w.s, link, closes);
      if ok then World(t, w.current + 1, w.delivered + [[]]) else w
  }

  function Run(resolve: Value -> Option<Value>, w: World, ops: seq<Op>): World
    decreases |ops|
  {
    if ops == [] then w else Run(resolve, Step(resolve, w, ops[0]), ops[1..])
  }

  /** `wholes[k]` is the whole of the k-th visited result; its first block is a prefix of it. */
  predicate Describes(visited: seq<Result>, wholes: seq<seq<Row>>) {
    && |visited| == |wholes|
    && forall k | 0 <= k < |visited| ::
         IsRows(visited[k]) && visited[k].rows.value.size == |wholes[k]| && visited[k].rows.value.block <= wholes[k]
  }

  predicate Inv(visited: seq<Result>, wholes: seq<seq<Row>>, w: World)
    requires Describes(visited, wholes)
  {
    && w.current < |visited| && |w.delivered| == w.current + 1
    && w.s.next == visited[w.current + 1..]
    && OnTrack(wholes[w.current], w.s) && w.s.resultID == visited[w.current].rows.value.id
    && w.delivered[w.current] == wholes[w.current][..w.s.absPos]
    && forall k | 0 <= k < w.current :: w.delivered[k] <= wholes[k]
  }

  predicate HonestStep(visited: seq<Result>, wholes: seq<seq<Row>>, w: World, op: Op)
    requires Describes(visited, wholes)
  {
    op.DoNext? && w.current < |wholes| ==>
      HonestReply(visited[w.current].rows.value.id, wholes[w.current], w.s, Answer(op.link, op.reply))
  }

  predicate HonestRun(resolve: Value -> Option<Value>, visited: seq<Result>, wholes: seq<seq<Row>>, w: World, ops: seq<Op>)
    requires Describes(visited, wholes)
    decreases |ops|
  {
    ops != [] ==>
      && HonestStep(visited, wholes, w, ops[0])
      && HonestRun(resolve, visited, wholes, Step(resolve, w, ops[0]), ops[1..])
  }

  lemma LoadOnTrack(visited: seq<Result>, wholes: seq<seq<Row>>, k: nat)
    requires Describes(visited, wholes) && k < |visited|
    ensures OnTrack(wholes[k], Load(visited[k], visited[k + 1..]))
  {
  }

  lemma NextStepKeepsInv(resolve: Value -> Option<Value>, visited: seq<Result>, wholes: seq<seq<Row>>, w: World, op: Op)
    requires Describes(visited, wholes) && Inv(visited, wholes, w) && op.DoNext? && HonestStep(visited, wholes, w, op)
    ensures Inv(visited, wholes, Step(resolve, w, op))
  {
    var whole := wholes[w.current];
    var reply := Answer(op.link, op.reply);
    NextDelivers(resolve, whole, w.s, op.wanted, reply);
    var t := Next(resolve, w.s, op.wanted, reply).0;
    NextConsumes(resolve, whole, w.s, op.wanted, reply);
    hide Next, OnTrack, Describes;
    if t.absPos == w.s.absPos + 1 {
      assert whole[..t.absPos] == whole[..w.s.absPos] + [whole[w.s.absPos]];
    }
  }

  lemma NextConsumes(resolve: Value -> Option<Value>, whole: seq<Row>, s: State, wanted: nat, reply: Reply)
    requires OnTrack(whole, s) && HonestReply(s.resultID, whole, s, reply)
    ensures var t := Next(resolve, s, wanted, reply).0;
            t.absPos == s.absPos + 1 ==>
              0 < t.blockPos <= |t.block| && t.absPos <= |whole| && Consumed(t) == whole[s.absPos]
  {
  }

  lemma StepKeepsInv(resolve: Value -> Option<Value>, visited: seq<Result>, wholes: seq<seq<Row>>, w: World, op: Op)
    requires Describes(visited, wholes) && Inv(visited, wholes, w) && HonestStep(visited, wholes, w, op)
    ensures Inv(visited, wholes, Step(resolve, w, op))
  {
    match op {
      case DoNext(_, _, _) => NextStepKeepsInv(resolve, visited, wholes, w, op);
      case DoNextSet(link, closes) =>
        if NextResultSet(w.s, link, closes).1 {
          LoadOnTrack(visited, wholes, w.current + 1);
          assert visited[w.current + 1..][0] == visited[w.current + 1];
          assert visited[w.current + 1..][1..] == visited[w.current + 2..];
          hide OnTrack;
          assert w.delivered[w.current] <= wholes[w.current];
        }
    }
  }

  lemma {:induction false} RunKeepsInv(
      resolve: Value -> Option<Value>, visited: seq<Result>, wholes: seq<seq<Row>>, w: World, ops: seq<Op>)
    requires Describes(visited, wholes) && Inv(visited, wholes, w) && HonestRun(resolve, visited, wholes, w, ops)
    ensures Inv(visited, wholes, Run(resolve, w, ops))
    decreases |ops|
  {
    hide Step, Inv, HonestStep;
    if ops != [] {
      StepKeepsInv(resolve, visited, wholes, w, ops[0]);
      RunKeepsInv(resolve, visited, wholes, Step(resolve, w, ops[0]), ops[1..]);
    }
  }

  /**
   * Over every run of Next and NextResultSet against a server that splits each result into
   * non-empty blocks as it likes, with requests that may fail: the sets are those of the response
   * in order, the rows delivered from each are its first rows in order, `absPos` of them from the
   * current one, and Next reports the end exactly when all of them have been delivered.
   */
  lemma PagingRuns(resolve: Value -> Option<Value>, r: Result, wholes: seq<seq<Row>>, ops: seq<Op>, wanted: nat, reply: Reply)
    requires Flat(r) && Visited(r) != [] && Describes(Visited(r), wholes)
    requires HonestRun(resolve, Visited(r), wholes, World(FromResponse(r), 0, [[]]), ops)
    ensures var w := Run(resolve, World(FromResponse(r), 0, [[]]), ops);
            && w.current < |wholes| && |w.delivered| == w.current + 1
            && (forall k | 0 <= k <= w.current :: w.delivered[k] <= wholes[k])
            && |w.delivered[w.current]| == w.s.absPos
            && w.s.next == Visited(r)[w.current + 1..]
            && (HonestReply(Visited(r)[w.current].rows.value.id, wholes[w.current], w.s, reply) ==>
                  (Next(resolve, w.s, wanted, reply).1 == EndOfRows <==> w.delivered[w.current] == wholes[w.current]))
  {
    var start := World(FromResponse(r), 0, [[]]);
    StartsOnVisited(r);
    LoadOnTrack(Visited(r), wholes, 0);
    assert wholes[0][..0] == [];
    RunKeepsInv(resolve, Visited(r), wholes, start, ops);
    var w := Run(resolve, start, ops);
    hide Run, Visited, Describes;
    var whole := wholes[w.current];
    if HonestReply(w.s.resultID, whole, w.s, reply) {
      NextDelivers(resolve, whole, w.s, wanted, reply);
    }
    assert w.s.absPos == |whole| ==> whole[..w.s.absPos] == whole;
  }
}

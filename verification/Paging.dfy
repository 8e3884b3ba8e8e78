/** rows.go and conn_query.go: result sets fetched block by block, and the chain they come in. */
module Paging {
  import opened Bytes
  import opened Values

  type Row = seq<Value>

  const MODE_UPDATE_COUNT := 1
  const MODE_DATA := 3
  const MODE_DATA_HEAD := 15
  const MODE_GENERATED := 20
  const MODE_CALL_RESPONSE := 43

  /** A row set: the cursor id, the size of the whole result, and the rows of the first block. */
  datatype RowSet = RowSet(id: int, size: int, block: seq<Row>)

  /** A decoded result: its visible columns when it has metadata, its rows, and what was chained to it. */
  datatype Result = Result(mode: int, columns: Option<nat>, rows: Option<RowSet>, chained: seq<Result>)

  /** The answer to REQUESTDATA. */
  datatype Reply = Block(rows: seq<Row>, columns: Option<nat>) | NoRows | Fails

  /** The connection as it stands: requests go out on an open one only. */
  datatype Link = Open | Closed | Broken

  datatype State = State(
    columns: Option<nat>, resultID: int, total: int, block: seq<Row>, blockPos: nat, absPos: nat, done: bool,
    next: seq<Result>)

  /** What Next returns: the values of a row, the end, or an error. */
  datatype Outcome = Values(row: seq<Value>) | EndOfRows | Error

  predicate IsRows(r: Result) {
    r.mode in {MODE_DATA, MODE_DATA_HEAD, MODE_GENERATED} && r.columns.Some? && r.rows.Some?
  }

  function RowsOnly(rs: seq<Result>): (out: seq<Result>)
    ensures forall r | r in out :: IsRows(r)
  {
    if rs == [] then [] else (if IsRows(rs[0]) then [rs[0]] else []) + RowsOnly(rs[1..])
  }

  // ----- the operations as functions

  function Load(r: Result, next: seq<Result>): State {
    match r.rows
    case None => State(r.columns, 0, 0, [], 0, 0, r.columns.None?, next)
    case Some(rs) => State(r.columns, rs.id, rs.size, rs.block, 0, 0, r.columns.None?, next)
  }

  /** newRows: chained results that carry rows wait in order. */
  function NewRows(r: Result): State {
    Load(r, RowsOnly(r.chained))
  }

  /** What waits behind a result set has no part in the rest of the state. */
  lemma LoadNext(r: Result, some: seq<Result>, others: seq<Result>)
    ensures Load(r, some).(next := others) == Load(r, others)
  {
  }

  const EMPTY := State(None, 0, 0, [], 0, 0, true, [])

  /** The index of the first result with rows, or the length. */
  function FirstRows(rs: seq<Result>): (i: nat)
    ensures i <= |rs|
    ensures i < |rs| ==> IsRows(rs[i])
  {
    if rs == [] || IsRows(rs[0]) then 0 else 1 + FirstRows(rs[1..])
  }

  /** rowsFromResponse. */
  function FromResponse(r: Result): State {
    if r.mode == MODE_CALL_RESPONSE then
      var i := FirstRows(r.chained);
      if i == |r.chained| then EMPTY
      else
        var s := NewRows(r.chained[i]);
        s.(next := s.next + RowsOnly(r.chained[i + 1..]))
    else if IsRows(r) then NewRows(r)
    else EMPTY
  }

  /** fetchMore; the request asks for the first row not yet consumed. */
  function FetchMore(s: State, reply: Reply): (State, bool) {
    if s.absPos >= s.total then (s.(done := true), true)
    else
      match reply
      case Fails => (s, false)
      case NoRows => (s.(done := true), true)
      case Block(rows, columns) =>
        if rows == [] then (s.(done := true), true)
        else (s.(block := rows, blockPos := 0, columns := if columns.Some? then columns else s.columns), true)
  }

  /** The values handed out for a row: as many as fit, each resolved, or an error. */
  function Resolve(resolve: Value -> Option<Value>, row: seq<Value>): Option<seq<Value>> {
    if row == [] then Some([])
    else
      match resolve(row[0])
      case None => None
      case Some(v) =>
        match Resolve(resolve, row[1..])
        case None => None
        case Some(vs) => Some([v] + vs)
  }

  function VisiblePart(s: State, row: Row, wanted: nat): Row {
    var n := if s.columns.Some? && s.columns.value < wanted then s.columns.value else wanted;
    if n <= |row| then row[..n] else row
  }

  /** Next: the row is consumed even when one of its values cannot be resolved. */
  function Next(resolve: Value -> Option<Value>, s: State, wanted: nat, reply: Reply): (State, Outcome) {
    if s.done then (s, EndOfRows)
    else
      var (t, ok) := if s.blockPos >= |s.block| then FetchMore(s, reply) else (s, true);
      if !ok then (t, Error)
      else if t.done || t.blockPos >= |t.block| then (t.(done := true), EndOfRows)
      else
        var row := t.block[t.blockPos];
        (t.(blockPos := t.blockPos + 1, absPos := t.absPos + 1),
         match Resolve(resolve, VisiblePart(t, row, wanted))
         case None => Error
         case Some(vs) => Values(vs))
  }

  /** On a connection that cannot be used, exec fails without sending anything. */
  function Answer(link: Link, reply: Reply): Reply {
    if link.Open? then reply else Fails
  }

  /** The requests for rows that Next makes: none while the block lasts or when all were delivered. */
  function RowRequests(s: State, link: Link): seq<(int, int)> {
    if !s.done && s.blockPos >= |s.block| && s.absPos < s.total && link.Open? then [(s.resultID, s.absPos)] else []
  }

  /** closeCurrent has a cursor to close while rows remain to be consumed. */
  predicate HasCursor(s: State, link: Link) {
    !link.Closed? && s.resultID != 0 && s.absPos < s.total
  }

  predicate SendsClose(s: State, link: Link) {
    HasCursor(s, link) && link.Open?
  }

  /** Whether closeCurrent returns nil; `closes` is what the server makes of the request. */
  predicate ClosesWell(s: State, link: Link, closes: bool) {
    HasCursor(s, link) ==> link.Open? && closes
  }

  /** NextResultSet; closing the current set can fail. */
  function NextResultSet(s: State, link: Link, closes: bool): (State, bool) {
    if s.next == [] || !ClosesWell(s, link, closes) then (s, false)
    else (Load(s.next[0], s.next[1..]), true)
  }

  // ----- the rows object

  class Rows {
    var columns: Option<nat>
    var resultID: int
    var total: int
    var block: seq<Row>
    var blockPos: nat
    var absPos: nat
    var done: bool
    var next: seq<Result>
    /** The requests sent: CLOSE_RESULT by id, REQUESTDATA by id and row offset. */
    var closeRequests: seq<int>
    var dataRequests: seq<(int, int)>

    ghost function Now(): State
      reads this
    {
      State(columns, resultID, total, block, blockPos, absPos, done, next)
    }

    constructor (r: Result)
      ensures Now() == FromResponse(r) && closeRequests == [] && dataRequests == []
    {
      columns, resultID, total, block, blockPos, absPos, done, next := None, 0, 0, [], 0, 0, true, [];
      closeRequests, dataRequests := [], [];
      new;
      hide IsRows, NewRows, RowsOnly, FirstRows;
      if r.mode == MODE_CALL_RESPONSE {
        var i := FindRows(r.chained);
        if i < |r.chained| {
          Start(r.chained[i]);
          AddChained(r.chained[i + 1..]);
        }
      } else if IsRows(r) {
        Start(r);
      }
    }

    /** newRows on a fresh object. */
    method Start(r: Result)
      requires next == []
      modifies this
      ensures Now() == NewRows(r) && closeRequests == old(closeRequests) && dataRequests == old(dataRequests)
    {
      hide Load, RowsOnly;
      LoadResult(r);
      AddChained(r.chained);
      assert next == RowsOnly(r.chained);
      LoadNext(r, [], next);
    }

    /** The search for the first result of a procedure call. */
    method FindRows(rs: seq<Result>) returns (i: nat)
      ensures i == FirstRows(rs)
    {
      hide IsRows;
      i := 0;
      while i < |rs| && !IsRows(rs[i])
        invariant i <= |rs|
        invariant FirstRows(rs) == i + FirstRows(rs[i..])
      {
        assert rs[i..][1..] == rs[i + 1..];
        i := i + 1;
      }
    }

    /** The loops that queue the chained results with rows. */
    method AddChained(rs: seq<Result>)
      modifies this`next
      ensures next == old(next) + RowsOnly(rs)
    {
      for i := 0 to |rs|
        invariant old(next) + RowsOnly(rs) == next + RowsOnly(rs[i..])
      {
        assert rs[i..][1..] == rs[i + 1..];
        ghost var before, rest := next, RowsOnly(rs[i + 1..]);
        if IsRows(rs[i]) {
          next := next + [rs[i]];
          assert before + ([rs[i]] + rest) == next + rest;
        } else {
          assert before + ([] + rest) == next + rest;
        }
      }
      assert next + [] == next;
    }

    method LoadResult(r: Result)
      modifies this`columns, this`resultID, this`total, this`block, this`blockPos, this`absPos, this`done
      ensures Now() == Load(r, old(next))
    {
      columns, resultID, total, block, blockPos, absPos, done := r.columns, 0, 0, [], 0, 0, false;
      match r.rows {
        case None =>
        case Some(rs) => resultID, total, block := rs.id, rs.size, rs.block;
      }
      if columns.None? {
        done := true;
      }
    }

    method FetchBlock(link: Link, reply: Reply) returns (ok: bool)
      modifies this`block, this`blockPos, this`done, this`columns, this`dataRequests
      ensures (Now(), ok) == FetchMore(old(Now()), Answer(link, reply))
      ensures dataRequests == old(dataRequests) + if absPos < total && link.Open? then [(resultID, absPos)] else []
    {
      if absPos >= total {
        done := true;
        return true;
      }
      if !link.Open? {
        return false;
      }
      dataRequests := dataRequests + [(resultID, absPos)];
      match reply {
        case Fails => return false;
        case NoRows =>
          done := true;
          return true;
        case Block(rows, cols) =>
          if rows == [] {
            done := true;
            return true;
          }
          block, blockPos := rows, 0;
          if cols.Some? {
            columns := cols;
          }
          return true;
      }
    }

    method NextRow(resolve: Value -> Option<Value>, link: Link, wanted: nat, reply: Reply) returns (out: Outcome)
      modifies this
      ensures (Now(), out) == Next(resolve, old(Now()), wanted, Answer(link, reply))
      ensures dataRequests == old(dataRequests) + RowRequests(old(Now()), link) && closeRequests == old(closeRequests)
    {
      hide FetchMore;
      if done {
        return EndOfRows;
      }
      if blockPos >= |block| {
        var ok := FetchBlock(link, reply);
        if !ok {
          return Error;
        }
        if done || blockPos >= |block| {
          done := true;
          return EndOfRows;
        }
      }
      var row := block[blockPos];
      blockPos := blockPos + 1;
      absPos := absPos + 1;
      var part := VisiblePart(State(columns, resultID, total, block, blockPos, absPos, done, next), row, wanted);
      var vs := ResolveAll(resolve, part);
      match vs {
        case None => return Error;
        case Some(values) => return Values(values);
      }
    }

    method ResolveAll(resolve: Value -> Option<Value>, row: seq<Value>) returns (r: Option<seq<Value>>)
      ensures r == Resolve(resolve, row)
    {
      var dest: seq<Value> := [];
      assert row[0..] == row && forall vs: seq<Value> :: [] + vs == vs;
      for i := 0 to |row|
        invariant Resolve(resolve, row) == match Resolve(resolve, row[i..]) { case None => None case Some(vs) => Some(dest + vs) }
      {
        assert row[i..][1..] == row[i + 1..];
        ghost var before := dest;
        match resolve(row[i]) {
          case None => return None;
          case Some(v) =>
            dest := dest + [v];
            assert forall vs: seq<Value> :: before + ([v] + vs) == dest + vs;
        }
      }
      assert dest + [] == dest;
      r := Some(dest);
    }

    method CloseCurrent(link: Link, closes: bool) returns (ok: bool)
      modifies this`closeRequests
      ensures ok == ClosesWell(Now(), link, closes)
      ensures closeRequests == old(closeRequests) + if SendsClose(Now(), link) then [resultID] else []
    {
      if link.Closed? || resultID == 0 || absPos >= total {
        return true;
      }
      if !link.Open? {
        return false;
      }
      closeRequests := closeRequests + [resultID];
      return closes;
    }

    method Close(link: Link, closes: bool) returns (ok: bool)
      modifies this`done, this`next, this`closeRequests
      ensures Now() == old(Now()).(done := true, next := []) && ok == ClosesWell(Now(), link, closes)
      ensures closeRequests == old(closeRequests) + if SendsClose(Now(), link) then [resultID] else []
    {
      done := true;
      next := [];
      ok := CloseCurrent(link, closes);
    }

    method AdvanceSet(link: Link, closes: bool) returns (ok: bool)
      modifies this
      ensures (Now(), ok) == NextResultSet(old(Now()), link, closes)
      ensures dataRequests == old(dataRequests)
      ensures closeRequests
           == old(closeRequests) + if old(next) != [] && SendsClose(old(Now()), link) then [old(resultID)] else []
    {
      if next == [] {
        return false;
      }
      ok := CloseCurrent(link, closes);
      if !ok {
        return;
      }
      var r := next[0];
      next := next[1..];
      LoadResult(r);
    }
  }
}

/**
 * updatable.go: a result set held by the client and changed through a server-side cursor. The
 * client's copy closes up when a row is deleted; the server keeps the numbers it gave the rows.
 */
module UpdatableRows {
  import opened Bytes
  import opened Values

  type Row = seq<Value>

  const SYS_ROW_ID := 0
  const SYS_ROW_NUM := 2

  datatype Action = UpdateCursor | DeleteCursor | InsertCursor

  /** Label and name of each visible column, and the types of all columns, system ones included. */
  datatype Meta = Meta(columns: seq<(string, string)>, types: seq<ColumnType>) {
    function Visible(): nat { |columns| }
    function IdIndex(): nat { |columns| + SYS_ROW_ID }
    function NumIndex(): nat { |columns| + SYS_ROW_NUM }
  }

  datatype Request = Request(action: Action, types: seq<ColumnType>, values: Row)

  /** The answer to a request: rows, a server error, or a connection that broke or was not used. */
  datatype Reply = Accepted(echo: seq<Row>) | Rejected | Dropped | Unsent

  datatype Client = Client(rows: seq<Row>, nums: seq<int>, pos: int, closed: bool, broken: bool)

  /** The client after a call, whether it returned nil, and the request that went out. */
  datatype Called = Called(client: Client, ok: bool, sent: Option<Request>)

  type Fold = string -> string

  predicate Matches(fold: Fold, column: (string, string), name: string) {
    fold(column.0) == fold(name) || fold(column.1) == fold(name)
  }

  /** columnIndex: the first column whose label or name matches, letter case aside. */
  function ColumnIndex(fold: Fold, columns: seq<(string, string)>, name: string): (i: Option<nat>)
    ensures i.Some? ==> i.value < |columns| && Matches(fold, columns[i.value], name)
    ensures i.Some? ==> forall j | 0 <= j < i.value :: !Matches(fold, columns[j], name)
    ensures i.None? ==> forall c | c in columns :: !Matches(fold, c, name)
  {
    if columns == [] then None
    else if Matches(fold, columns[0], name) then Some(0)
    else
      match ColumnIndex(fold, columns[1..], name)
      case None => None
      case Some(j) => Some(j + 1)
  }

  // ----- the client as functions

  function HasCurrent(c: Client): bool {
    !c.closed && 0 <= c.pos < |c.rows|
  }

  function Next(c: Client): (Client, bool) {
    if c.closed || c.pos + 1 >= |c.rows| then (c, false) else (c.(pos := c.pos + 1), true)
  }

  /** The new values by column, in the order the map of updates happens to be visited. */
  function Assign(fold: Fold, m: Meta, values: seq<Option<Value>>, updates: seq<(string, Value)>): (r: Option<seq<Option<Value>>>)
    requires |values| == m.Visible()
    ensures r.Some? ==> |r.value| == m.Visible()
    decreases |updates|
  {
    if updates == [] then Some(values)
    else
      match ColumnIndex(fold, m.columns, updates[0].0)
      case None => None
      case Some(i) => Assign(fold, m, values[i := Some(updates[0].1)], updates[1..])
  }

  function Unset(n: nat): (r: seq<Option<Value>>)
    ensures |r| == n
  {
    seq(n, i => None)
  }

  /** Columns not updated are sent with type ALL_TYPES, which is not the same as an update to NULL. */
  function MarkedTypes(m: Meta, chosen: seq<Option<Value>>): (r: seq<ColumnType>)
    requires |chosen| == m.Visible() <= |m.types|
    ensures |r| == |m.types|
  {
    seq(|m.types|, i requires 0 <= i < |m.types| =>
      if i < |chosen| && chosen[i].None? then ElemType(SQL_ALL_TYPES) else m.types[i])
  }

  function SetValues(n: nat, chosen: seq<Option<Value>>): (r: Row)
    ensures |r| == n
  {
    seq(n, i requires 0 <= i < n => if i < |chosen| && chosen[i].Some? then chosen[i].value else Null)
  }

  /** fillRowIdentity: the row id and the server's number of the current row. */
  function FillIdentity(m: Meta, values: Row, row: Row, num: int): (r: Row)
    ensures |r| == |values|
  {
    var v := if m.IdIndex() < |row| && m.IdIndex() < |values| then values[m.IdIndex() := row[m.IdIndex()]] else values;
    if m.NumIndex() < |v| then v[m.NumIndex() := Int(num)] else v
  }

  /** sendCursorAction on the connection: what went out, and the rows when it was accepted. */
  function Send(c: Client, req: Request, reply: Reply): (Called, seq<Row>) {
    if c.broken || reply.Unsent? then (Called(c, false, None), [])
    else
      match reply
      case Accepted(echo) => (Called(c, true, Some(req)), echo)
      case Rejected => (Called(c, false, Some(req)), [])
      case _ => (Called(c.(broken := true), false, Some(req)), [])
  }

  /** The index of a server number, or the length when no cached row has it. */
  function Find(nums: seq<int>, n: int): (i: nat)
    ensures i <= |nums|
    ensures i < |nums| ==> nums[i] == n
    ensures forall j | 0 <= j < i :: nums[j] != n
  {
    if nums == [] || nums[0] == n then 0 else 1 + Find(nums[1..], n)
  }

  /** One round of the loop of mergeUpdatedRows. */
  function MergeRow(m: Meta, rows: seq<Row>, nums: seq<int>, updated: Row): (r: seq<Row>)
    requires |rows| == |nums|
    ensures |r| == |rows|
  {
    if m.NumIndex() >= |updated| || !updated[m.NumIndex()].Int? then rows
    else
      var i := Find(nums, updated[m.NumIndex()].i);
      if i < |nums| then rows[i := updated] else rows
  }

  function Merge(m: Meta, rows: seq<Row>, nums: seq<int>, echo: seq<Row>): (r: seq<Row>)
    requires |rows| == |nums|
    ensures |r| == |rows|
    decreases |echo|
  {
    if echo == [] then rows else Merge(m, MergeRow(m, rows, nums, echo[0]), nums, echo[1..])
  }

  function UpdateRequest(m: Meta, c: Client, chosen: seq<Option<Value>>): Request
    requires |chosen| == m.Visible() <= |m.types| && |c.rows| == |c.nums| && HasCurrent(c)
  {
    Request(UpdateCursor, MarkedTypes(m, chosen),
            FillIdentity(m, SetValues(|m.types|, chosen), c.rows[c.pos], c.nums[c.pos]))
  }

  function UpdateRow(fold: Fold, m: Meta, c: Client, updates: seq<(string, Value)>, reply: Reply): Called
    requires m.Visible() <= |m.types| && |c.rows| == |c.nums|
  {
    if !HasCurrent(c) then Called(c, false, None)
    else if updates == [] then Called(c, true, None)
    else
      match Assign(fold, m, Unset(m.Visible()), updates)
      case None => Called(c, false, None)
      case Some(chosen) =>
        var (called, echo) := Send(c, UpdateRequest(m, c, chosen), reply);
        if !called.ok then called
        else called.(client := called.client.(rows := Merge(m, c.rows, c.nums, echo)))
  }

  function DeleteRequest(m: Meta, c: Client): Request
    requires |c.rows| == |c.nums| && HasCurrent(c)
  {
    Request(DeleteCursor, m.types, FillIdentity(m, SetValues(|m.types|, []), c.rows[c.pos], c.nums[c.pos]))
  }

  function RemoveAt<T>(s: seq<T>, i: int): (r: seq<T>)
    requires 0 <= i < |s|
    ensures |r| == |s| - 1
  {
    s[..i] + s[i + 1..]
  }

  function DeleteRow(m: Meta, c: Client, reply: Reply): Called
    requires |c.rows| == |c.nums|
  {
    if !HasCurrent(c) then Called(c, false, None)
    else
      var (called, _) := Send(c, DeleteRequest(m, c), reply);
      if !called.ok then called
      else called.(client := called.client.(
        rows := RemoveAt(c.rows, c.pos), nums := RemoveAt(c.nums, c.pos), pos := c.pos - 1))
  }

  function InsertRow(fold: Fold, m: Meta, c: Client, values: seq<(string, Value)>, reply: Reply): Called
    requires m.Visible() <= |m.types|
  {
    if c.closed then Called(c, false, None)
    else
      match Assign(fold, m, Unset(m.Visible()), values)
      case None => Called(c, false, None)
      case Some(chosen) => Send(c, Request(InsertCursor, m.types, SetValues(|m.types|, chosen)), reply).0
  }

  // ----- the client as an object

  class Rows {
    const fold: Fold
    const meta: Meta
    var rows: seq<Row>
    var serverNums: seq<int>
    var pos: int
    var closed: bool
    /** The broken flag of the connection underneath. */
    var broken: bool

    ghost predicate Valid()
      reads this
    {
      meta.Visible() <= |meta.types| && |rows| == |serverNums|
    }

    ghost function Now(): Client
      reads this
    {
      Client(rows, serverNums, pos, closed, broken)
    }

    /** The end of QueryUpdatable: the server numbers the rows from 0. */
    constructor (fold: Fold, meta: Meta, result: seq<Row>)
      requires meta.Visible() < |meta.types|
      ensures Valid() && Now() == Client(result, Upto(0, |result|), -1, false, false)
      ensures this.fold == fold && this.meta == meta
    {
      this.fold, this.meta := fold, meta;
      rows := result;
      serverNums := seq(|result|, i => i);
      pos, closed, broken := -1, false, false;
      new;
      assert serverNums == Upto(0, |result|);
    }

    method Advance() returns (ok: bool)
      modifies this`pos
      ensures (Now(), ok) == Next(old(Now()))
    {
      if closed || pos + 1 >= |rows| {
        return false;
      }
      pos := pos + 1;
      return true;
    }

    method SendCursorAction(req: Request, reply: Reply) returns (ok: bool, sent: Option<Request>, echo: seq<Row>)
      modifies this`broken
      ensures (Called(Now(), ok, sent), echo) == Send(old(Now()), req, reply)
    {
      if broken || reply.Unsent? {
        return false, None, [];
      }
      match reply {
        case Accepted(rs) => return true, Some(req), rs;
        case Rejected => return false, Some(req), [];
        case Dropped =>
          broken := true;
          return false, Some(req), [];
      }
    }

    /** The loop over the named values in UpdateRow and InsertRow. */
    method Collect(named: seq<(string, Value)>) returns (r: Option<seq<Option<Value>>>)
      ensures r == Assign(fold, meta, Unset(meta.Visible()), named)
    {
      var chosen := Unset(meta.Visible());
      for k := 0 to |named|
        invariant |chosen| == meta.Visible()
        invariant Assign(fold, meta, Unset(meta.Visible()), named) == Assign(fold, meta, chosen, named[k..])
      {
        assert named[k..][1..] == named[k + 1..];
        var idx := ColumnIndex(fold, meta.columns, named[k].0);
        if idx.None? {
          return None;
        }
        chosen := chosen[idx.value := Some(named[k].1)];
      }
      r := Some(chosen);
    }

    method Update(updates: seq<(string, Value)>, reply: Reply) returns (ok: bool, ghost sent: Option<Request>)
      requires Valid()
      modifies this`rows, this`broken
      ensures Valid() && Called(Now(), ok, sent) == UpdateRow(fold, meta, old(Now()), updates, reply)
    {
      hide Assign, MarkedTypes, SetValues, FillIdentity, Merge;
      if closed || pos < 0 || pos >= |rows| {
        return false, None;
      }
      if updates == [] {
        return true, None;
      }
      var chosen := Collect(updates);
      if chosen.None? {
        return false, None;
      }
      var types := MarkedTypes(meta, chosen.value);
      var values := FillIdentity(meta, SetValues(|meta.types|, chosen.value), rows[pos], serverNums[pos]);
      var echo;
      ok, sent, echo := SendCursorAction(Request(UpdateCursor, types, values), reply);
      if ok {
        MergeUpdatedRows(echo);
      }
    }

    method MergeUpdatedRows(echo: seq<Row>)
      requires Valid()
      modifies this`rows
      ensures Valid() && rows == Merge(meta, old(rows), serverNums, echo)
    {
      var numIdx := meta.NumIndex();
      for k := 0 to |echo|
        invariant |rows| == |serverNums|
        invariant Merge(meta, old(rows), serverNums, echo) == Merge(meta, rows, serverNums, echo[k..])
      {
        assert echo[k..][1..] == echo[k + 1..];
        var updated := echo[k];
        if numIdx < |updated| && updated[numIdx].Int? {
          var n := updated[numIdx].i;
          var i := 0;
          while i < |serverNums| && serverNums[i] != n
            invariant i <= |serverNums|
            invariant forall j | 0 <= j < i :: serverNums[j] != n
          {
            i := i + 1;
          }
          assert i == Find(serverNums, n) by { FindUnique(serverNums, n, i); }
          if i < |serverNums| {
            rows := rows[i := updated];
          }
        }
      }
    }

    method Delete(reply: Reply) returns (ok: bool, ghost sent: Option<Request>)
      requires Valid()
      modifies this`rows, this`serverNums, this`pos, this`broken
      ensures Valid() && Called(Now(), ok, sent) == DeleteRow(meta, old(Now()), reply)
    {
      hide SetValues, FillIdentity;
      if closed || pos < 0 || pos >= |rows| {
        return false, None;
      }
      var values := FillIdentity(meta, SetValues(|meta.types|, []), rows[pos], serverNums[pos]);
      var echo;
      ok, sent, echo := SendCursorAction(Request(DeleteCursor, meta.types, values), reply);
      if ok {
        rows := rows[..pos] + rows[pos + 1..];
        serverNums := serverNums[..pos] + serverNums[pos + 1..];
        pos := pos - 1;
      }
    }

    method Insert(named: seq<(string, Value)>, reply: Reply) returns (ok: bool, ghost sent: Option<Request>)
      requires Valid()
      modifies this`broken
      ensures Valid() && Called(Now(), ok, sent) == InsertRow(fold, meta, old(Now()), named, reply)
    {
      hide Assign, SetValues;
      if closed {
        return false, None;
      }
      var chosen := Collect(named);
      if chosen.None? {
        return false, None;
      }
      var echo;
      ok, sent, echo := SendCursorAction(Request(InsertCursor, meta.types, SetValues(|meta.types|, chosen.value)), reply);
    }
  }

  /** lo, lo + 1, ..., hi - 1. */
  function Upto(lo: int, hi: int): (r: seq<int>)
    requires lo <= hi
    ensures |r| == hi - lo
    ensures forall i | 0 <= i < hi - lo :: r[i] == lo + i
  {
    seq(hi - lo, i => lo + i)
  }

  lemma {:induction false} FindUnique(nums: seq<int>, n: int, i: nat)
    requires i <= |nums| && (i < |nums| ==> nums[i] == n) && forall j | 0 <= j < i :: nums[j] != n
    ensures i == Find(nums, n)
  {
  }
}

/** The client's copy and the server's cursor over whole runs of the operations of updatable.go. */
module CursorLaws {
  import opened Bytes
  import opened Values
  import opened UpdatableRows

  /** How the server stores a value put into a column. */
  type Store = (nat, Value) -> Value

  /**
   * Client and server: the server's live rows by their original number, and the numbers on which
   * successful Next calls have landed.
   */
  datatype World = World(c: Client, live: map<int, Row>, landed: seq<int>)

  /** An operation together with what the server does; a lost update or delete may have happened. */
  datatype Op =
    | DoNext
    | DoUpdate(updates: seq<(string, Value)>, reply: Reply, applied: bool, image: Row)
    | DoDelete(reply: Reply, applied: bool)
    | DoInsert(values: seq<(string, Value)>, reply: Reply)
    | DoClose

  /** Three system columns follow the visible ones, and no visible column is untyped. */
  predicate UpdatableMeta(m: Meta) {
    && m.NumIndex() < |m.types|
    && forall i | 0 <= i < m.Visible() :: m.types[i].code != SQL_ALL_TYPES
  }

  /** The server finds the row by number and checks that the row id is still its current one. */
  predicate NamesLiveRow(m: Meta, live: map<int, Row>, req: Request) {
    && |req.values| == |req.types| == |m.types| && m.NumIndex() < |m.types|
    && req.values[m.NumIndex()].Int?
    && req.values[m.NumIndex()].i in live
    && |live[req.values[m.NumIndex()].i]| == |m.types|
    && req.values[m.IdIndex()] == live[req.values[m.NumIndex()].i][m.IdIndex()]
  }

  function RowNumber(m: Meta, req: Request): int
    requires m.NumIndex() < |req.values| && req.values[m.NumIndex()].Int?
  {
    req.values[m.NumIndex()].i
  }

  /**
   * The image an update leaves: marked columns keep their value, the others hold what was sent as
   * the server stores it. Row id and status are the server's business; the number stays.
   */
  predicate Updated(m: Meta, store: Store, before: Row, req: Request, image: Row)
    requires |before| == |m.types| == |req.types| == |req.values| && m.NumIndex() < |m.types|
    requires req.values[m.NumIndex()].Int?
  {
    && |image| == |m.types|
    && image[m.NumIndex()] == req.values[m.NumIndex()]
    && forall i | 0 <= i < m.Visible() ::
         image[i] == if req.types[i].code == SQL_ALL_TYPES then before[i] else store(i, req.values[i])
  }

  /** The echo shows rows only as they are now, and the updated row among them. */
  predicate HonestEcho(m: Meta, live: map<int, Row>, image: Row, echo: seq<Row>) {
    && image in echo
    && forall e: Row | e in echo ::
         m.NumIndex() < |e| && e[m.NumIndex()].Int? && e[m.NumIndex()].i in live ==> e == live[e[m.NumIndex()].i]
  }

  /** What the client did in an operation, given the server's answer. */
  function ClientStep(fold: Fold, m: Meta, c: Client, op: Op): Called
    requires m.Visible() <= |m.types| && |c.rows| == |c.nums|
  {
    match op
    case DoNext => var (d, ok) := Next(c); Called(d, ok, None)
    case DoUpdate(us, reply, _, _) => UpdateRow(fold, m, c, us, reply)
    case DoDelete(reply, _) => DeleteRow(m, c, reply)
    case DoInsert(vs, reply) => InsertRow(fold, m, c, vs, reply)
    case DoClose => Called(c.(closed := true), true, None)
  }

  /** Whether the server carried the request out: when it accepted it, or before the answer was lost. */
  predicate CarriedOut(op: Op) {
    match op
    case DoUpdate(_, reply, applied, _) => reply.Accepted? || (reply.Dropped? && applied)
    case DoDelete(reply, applied) => reply.Accepted? || (reply.Dropped? && applied)
    case _ => false
  }

  function ServerStep(m: Meta, live: map<int, Row>, op: Op, sent: Option<Request>): map<int, Row>
  {
    if sent.None? || !CarriedOut(op) || !NumberSent(m, sent.value) then live
    else
      match op
      case DoUpdate(_, _, _, image) => live[RowNumber(m, sent.value) := image]
      case DoDelete(_, _) => live - {RowNumber(m, sent.value)}
      case _ => live
  }

  predicate NumberSent(m: Meta, req: Request) {
    m.NumIndex() < |req.values| && req.values[m.NumIndex()].Int?
  }

  function Step(fold: Fold, m: Meta, w: World, op: Op): (x: World)
    requires m.Visible() <= |m.types| && |w.c.rows| == |w.c.nums|
    ensures |x.c.rows| == |x.c.nums|
  {
    var called := ClientStep(fold, m, w.c, op);
    var c := called.client;
    World(c, ServerStep(m, w.live, op, called.sent),
          if op.DoNext? && called.ok && 0 <= c.pos < |c.nums| then w.landed + [c.nums[c.pos]] else w.landed)
  }

  /**
   * The server only accepts requests that name a live row with its current id, leaves an image
   * as `Updated` says, and echoes rows as they are.
   */
  predicate HonestStep(fold: Fold, m: Meta, store: Store, w: World, op: Op)
    requires UpdatableMeta(m) && |w.c.rows| == |w.c.nums|
  {
    var sent := ClientStep(fold, m, w.c, op).sent;
    sent.Some? && CarriedOut(op) ==>
      && NamesLiveRow(m, w.live, sent.value)
      && (op.DoUpdate? ==>
            && Updated(m, store, w.live[RowNumber(m, sent.value)], sent.value, op.image)
            && (op.reply.Accepted? ==>
                  HonestEcho(m, ServerStep(m, w.live, op, sent), op.image, op.reply.echo)))
  }

  // ----- the invariant

  predicate Increasing(nums: seq<int>) {
    forall i, j | 0 <= i < j < |nums| :: nums[i] < nums[j]
  }

  /** Positions, and the order of the numbers: what the client alone guarantees. */
  predicate Ordered(nums: seq<int>, pos: int) {
    Increasing(nums) && -1 <= pos && (pos < |nums| || pos == -1)
  }

  /** Rows not yet visited carry exactly the numbers from `v` to the last; the visited ones lie below. */
  predicate Frontier(nums: seq<int>, pos: int, v: int, total: int)
    requires -1 <= pos && (pos < |nums| || pos == -1)
  {
    && v <= total
    && nums[pos + 1..] == Upto(v, total)
    && forall i | 0 <= i <= pos :: 0 <= nums[i] < v
  }

  /** The cached rows are the live rows: the same numbers, and the same image at each. */
  ghost predicate Agree(m: Meta, rows: seq<Row>, nums: seq<int>, live: map<int, Row>) {
    && |rows| == |nums|
    && (forall n :: n in live <==> n in nums)
    && (forall i | 0 <= i < |rows| :: nums[i] in live && live[nums[i]] == rows[i])
    && (forall i | 0 <= i < |rows| :: |rows[i]| == |m.types|)
  }

  ghost predicate Inv(m: Meta, total: nat, w: World) {
    && |w.c.rows| == |w.c.nums| && Ordered(w.c.nums, w.c.pos)
    && w.landed == Upto(0, |w.landed|)
    && Frontier(w.c.nums, w.c.pos, |w.landed|, total)
    && (w.c.broken || Agree(m, w.c.rows, w.c.nums, w.live))
  }

  // ----- single operations

  /** A request for the current row names its live number and its current row id. */
  lemma IdentityFilled(m: Meta, c: Client, live: map<int, Row>, types: seq<ColumnType>, values: Row, action: Action)
    requires UpdatableMeta(m) && HasCurrent(c) && Agree(m, c.rows, c.nums, live)
    requires |types| == |values| == |m.types|
    ensures var req := Request(action, types, FillIdentity(m, values, c.rows[c.pos], c.nums[c.pos]));
            && NamesLiveRow(m, live, req) && RowNumber(m, req) == c.nums[c.pos]
            && forall i | 0 <= i < m.Visible() :: req.values[i] == values[i]
  {
  }

  /** Merging an honest echo brings every cached row up to date. */
  lemma {:induction false} MergeUpToDate(m: Meta, rows: seq<Row>, nums: seq<int>, live: map<int, Row>, stale: set<int>, echo: seq<Row>)
    requires |rows| == |nums| && Increasing(nums)
    requires forall i | 0 <= i < |nums| :: nums[i] in live && (rows[i] == live[nums[i]] || nums[i] in stale)
    requires forall e: Row | e in echo ::
               m.NumIndex() < |e| && e[m.NumIndex()].Int? && e[m.NumIndex()].i in live ==> e == live[e[m.NumIndex()].i]
    requires forall n | n in stale && n in nums ::
               exists e :: e in echo && m.NumIndex() < |e| && e[m.NumIndex()] == Int(n)
    ensures var merged := Merge(m, rows, nums, echo);
            forall i | 0 <= i < |nums| :: merged[i] == live[nums[i]]
    decreases |echo|
  {
    if echo == [] {
      forall i | 0 <= i < |nums|
        ensures rows[i] == live[nums[i]]
      {
        assert nums[i] in nums;
      }
    } else {
      var e := echo[0];
      assert e in echo;
      var next := MergeRow(m, rows, nums, e);
      var done := if m.NumIndex() < |e| && e[m.NumIndex()].Int? then {e[m.NumIndex()].i} else {};
      MergeRowEffect(m, rows, nums, live, stale, e);
      forall n | n in stale - done && n in nums
        ensures exists x :: x in echo[1..] && m.NumIndex() < |x| && x[m.NumIndex()] == Int(n)
      {
        var x :| x in echo && m.NumIndex() < |x| && x[m.NumIndex()] == Int(n);
        assert x != e;
        assert x in echo[1..];
      }
      MergeUpToDate(m, next, nums, live, stale - done, echo[1..]);
    }
  }

  lemma MergeRowEffect(m: Meta, rows: seq<Row>, nums: seq<int>, live: map<int, Row>, stale: set<int>, e: Row)
    requires |rows| == |nums| && Increasing(nums)
    requires forall i | 0 <= i < |nums| :: nums[i] in live && (rows[i] == live[nums[i]] || nums[i] in stale)
    requires m.NumIndex() < |e| && e[m.NumIndex()].Int? && e[m.NumIndex()].i in live ==> e == live[e[m.NumIndex()].i]
    ensures var next := MergeRow(m, rows, nums, e);
            var done := if m.NumIndex() < |e| && e[m.NumIndex()].Int? then {e[m.NumIndex()].i} else {};
            forall i | 0 <= i < |nums| :: next[i] == live[nums[i]] || nums[i] in stale - done
  {
  }

  lemma RemoveKeepsOrder(nums: seq<int>, p: nat)
    requires Increasing(nums) && p < |nums|
    ensures Increasing(RemoveAt(nums, p))
    ensures forall n :: n in RemoveAt(nums, p) <==> n in nums && n != nums[p]
    ensures RemoveAt(nums, p)[p..] == nums[p + 1..]
  {
  }

  // ----- the invariant is kept by every operation

  lemma NextKeepsInv(fold: Fold, m: Meta, total: nat, w: World)
    requires UpdatableMeta(m) && Inv(m, total, w)
    ensures Inv(m, total, Step(fold, m, w, DoNext))
  {
    hide Agree, Increasing;
    var c, v := w.c, |w.landed|;
    if !c.closed && c.pos + 1 < |c.rows| {
      FrontierMoves(c.nums, c.pos, v, total);
      assert Upto(0, v) + [v] == Upto(0, v + 1);
    }
  }

  lemma FrontierMoves(nums: seq<int>, pos: int, v: int, total: int)
    requires -1 <= pos && pos + 1 < |nums| && Frontier(nums, pos, v, total)
    ensures nums[pos + 1] == v && (v >= 0 ==> Frontier(nums, pos + 1, v + 1, total))
  {
  }

  /** A finished update leaves the numbers alone and every cached row up to date. */
  lemma UpdateAgrees(fold: Fold, m: Meta, store: Store, w: World, op: Op)
    requires UpdatableMeta(m) && Increasing(w.c.nums) && Agree(m, w.c.rows, w.c.nums, w.live)
    requires op.DoUpdate? && HonestStep(fold, m, store, w, op)
    ensures var x := Step(fold, m, w, op); x.c.broken || Agree(m, x.c.rows, x.c.nums, x.live)
  {
    var called := ClientStep(fold, m, w.c, op);
    if called.sent.Some? && called.ok {
      var n := RowNumber(m, called.sent.value);
      UpdateIdentity(fold, m, w.c, w.live, op.updates, op.reply);
      ImageNumbered(m, store, w.live[n], called.sent.value, op.image);
      MergedAgrees(m, w.c.rows, w.c.nums, w.live, n, op.image, op.reply.echo);
    }
  }

  lemma MergedAgrees(m: Meta, rows: seq<Row>, nums: seq<int>, live: map<int, Row>, n: int, image: Row, echo: seq<Row>)
    requires m.NumIndex() < |m.types| && Increasing(nums) && Agree(m, rows, nums, live) && n in nums
    requires |image| == |m.types| && image[m.NumIndex()] == Int(n)
    requires HonestEcho(m, live[n := image], image, echo)
    ensures Agree(m, Merge(m, rows, nums, echo), nums, live[n := image])
  {
    hide Merge;
    MergeUpToDate(m, rows, nums, live[n := image], {n}, echo);
  }

  /** The request of an update that was sent. */
  lemma UpdateIdentity(fold: Fold, m: Meta, c: Client, live: map<int, Row>, updates: seq<(string, Value)>, reply: Reply)
    requires UpdatableMeta(m) && Agree(m, c.rows, c.nums, live)
    requires UpdateRow(fold, m, c, updates, reply).sent.Some?
    ensures HasCurrent(c) && Assign(fold, m, Unset(m.Visible()), updates).Some?
    ensures var req := UpdateRow(fold, m, c, updates, reply).sent.value;
            var chosen := Assign(fold, m, Unset(m.Visible()), updates).value;
            && req == UpdateRequest(m, c, chosen)
            && NamesLiveRow(m, live, req) && RowNumber(m, req) == c.nums[c.pos] && c.nums[c.pos] in c.nums
            && req.types == MarkedTypes(m, chosen)
            && forall i | 0 <= i < m.Visible() :: req.values[i] == SetValues(|m.types|, chosen)[i]
  {
  }

  lemma ImageNumbered(m: Meta, store: Store, before: Row, req: Request, image: Row)
    requires |before| == |m.types| == |req.types| == |req.values| && m.NumIndex() < |m.types|
    requires req.values[m.NumIndex()].Int?
    requires Updated(m, store, before, req, image)
    ensures |image| == |m.types| && image[m.NumIndex()] == Int(RowNumber(m, req))
  {
  }

  lemma UpdateKeepsInv(fold: Fold, m: Meta, store: Store, total: nat, w: World, op: Op)
    requires UpdatableMeta(m) && Inv(m, total, w) && op.DoUpdate? && HonestStep(fold, m, store, w, op)
    ensures Inv(m, total, Step(fold, m, w, op))
  {
    hide Agree, Frontier, Increasing, HonestStep, Assign, Merge;
    if !w.c.broken {
      UpdateAgrees(fold, m, store, w, op);
    }
  }

  lemma DeleteKeepsInv(fold: Fold, m: Meta, store: Store, total: nat, w: World, op: Op)
    requires UpdatableMeta(m) && Inv(m, total, w) && op.DoDelete? && HonestStep(fold, m, store, w, op)
    ensures Inv(m, total, Step(fold, m, w, op))
  {
    var c := w.c;
    var called := DeleteRow(m, c, op.reply);
    if called.ok {
      hide Agree, Frontier, FillIdentity, SetValues, Increasing;
      IdentityFilled(m, c, w.live, m.types, SetValues(|m.types|, []), DeleteCursor);
      RemoveKeepsOrder(c.nums, c.pos);
      RemoveKeepsFrontier(c.nums, c.pos, |w.landed|, total);
      RemovedAgrees(m, c.rows, c.nums, w.live, c.pos);
    }
  }

  lemma RemoveKeepsFrontier(nums: seq<int>, pos: nat, v: int, total: int)
    requires pos < |nums| && Frontier(nums, pos, v, total)
    ensures Frontier(RemoveAt(nums, pos), pos - 1, v, total)
  {
  }

  lemma RemovedAgrees(m: Meta, rows: seq<Row>, nums: seq<int>, live: map<int, Row>, p: nat)
    requires Agree(m, rows, nums, live) && Increasing(nums) && p < |nums|
    ensures Agree(m, RemoveAt(rows, p), RemoveAt(nums, p), live - {nums[p]})
  {
  }

  /** Every operation keeps the invariant, whatever the server's answer. */
  lemma StepKeepsInv(fold: Fold, m: Meta, store: Store, total: nat, w: World, op: Op)
    requires UpdatableMeta(m) && Inv(m, total, w) && HonestStep(fold, m, store, w, op)
    ensures Inv(m, total, Step(fold, m, w, op))
  {
    match op {
      case DoNext => NextKeepsInv(fold, m, total, w);
      case DoUpdate(_, _, _, _) => UpdateKeepsInv(fold, m, store, total, w, op);
      case DoDelete(_, _) => DeleteKeepsInv(fold, m, store, total, w, op);
      case DoInsert(_, _) =>
        hide Assign, SetValues;
      case DoClose =>
    }
  }

  /**
   * While the connection is usable, every update or delete that goes out names the current row by
   * its live number and its current id, so the server never has to refuse it as stale.
   */
  lemma RequestsAreCurrent(fold: Fold, m: Meta, total: nat, w: World, op: Op)
    requires UpdatableMeta(m) && Inv(m, total, w) && (op.DoUpdate? || op.DoDelete?)
    requires ClientStep(fold, m, w.c, op).sent.Some?
    ensures var req := ClientStep(fold, m, w.c, op).sent.value;
            && HasCurrent(w.c) && NamesLiveRow(m, w.live, req) && RowNumber(m, req) == w.c.nums[w.c.pos]
            && req.action == if op.DoUpdate? then UpdateCursor else DeleteCursor
  {
    hide Agree, Frontier, Increasing, Assign;
    if op.DoUpdate? {
      UpdateIdentity(fold, m, w.c, w.live, op.updates, op.reply);
    } else {
      IdentityFilled(m, w.c, w.live, m.types, SetValues(|m.types|, []), DeleteCursor);
    }
  }

  /** A call that fails changes nothing in the client's copy, and nothing at all unless the wire broke. */
  lemma FailureChangesNothing(fold: Fold, m: Meta, w: World, op: Op)
    requires m.Visible() <= |m.types| && |w.c.rows| == |w.c.nums|
    requires !ClientStep(fold, m, w.c, op).ok
    ensures var x := Step(fold, m, w, op);
            && x.c == w.c.(broken := x.c.broken) && x.landed == w.landed
            && (x.c.broken == w.c.broken ==> x == w)
  {
  }

  // ----- runs

  function Run(fold: Fold, m: Meta, w: World, ops: seq<Op>): (x: World)
    requires m.Visible() <= |m.types| && |w.c.rows| == |w.c.nums|
    ensures |x.c.rows| == |x.c.nums|
    decreases |ops|
  {
    if ops == [] then w else Run(fold, m, Step(fold, m, w, ops[0]), ops[1..])
  }

  predicate HonestRun(fold: Fold, m: Meta, store: Store, w: World, ops: seq<Op>)
    requires UpdatableMeta(m) && |w.c.rows| == |w.c.nums|
    decreases |ops|
  {
    ops != [] ==>
      HonestStep(fold, m, store, w, ops[0]) && HonestRun(fold, m, store, Step(fold, m, w, ops[0]), ops[1..])
  }

  /** What QueryUpdatable hands out, and the server's rows numbered in the order they came. */
  function Start(rows: seq<Row>): World {
    World(Client(rows, Upto(0, |rows|), -1, false, false), map i | 0 <= i < |rows| :: rows[i], [])
  }

  lemma StartInv(m: Meta, rows: seq<Row>)
    requires UpdatableMeta(m) && forall r | r in rows :: |r| == |m.types|
    ensures Inv(m, |rows|, Start(rows))
  {
    var w := Start(rows);
    forall n ensures n in w.live <==> n in w.c.nums {
      if n in w.live {
        assert w.c.nums[n] == n;
      }
    }
    assert w.c.nums[w.c.pos + 1..] == w.c.nums;
  }

  lemma {:induction false} RunKeepsInv(fold: Fold, m: Meta, store: Store, total: nat, w: World, ops: seq<Op>)
    requires UpdatableMeta(m) && Inv(m, total, w) && HonestRun(fold, m, store, w, ops)
    ensures Inv(m, total, Run(fold, m, w, ops))
    decreases |ops|
  {
    hide Step, HonestStep, Agree, Frontier, Increasing;
    if ops != [] {
      StepKeepsInv(fold, m, store, total, w, ops[0]);
      RunKeepsInv(fold, m, store, total, Step(fold, m, w, ops[0]), ops[1..]);
    }
  }

  /**
   * Over every run of Next, UpdateRow, DeleteRow, InsertRow and Close with an honest server: the
   * cached numbers are strictly increasing and, on a usable connection, are exactly the live rows
   * with the server's image at each; the rows Next has landed on are 0, 1, 2, ... with none
   * skipped or seen twice; and when Next finds no more rows on an open result, all of them have
   * been visited.
   */
  lemma CursorRuns(fold: Fold, m: Meta, store: Store, rows: seq<Row>, ops: seq<Op>)
    requires UpdatableMeta(m) && forall r | r in rows :: |r| == |m.types|
    requires HonestRun(fold, m, store, Start(rows), ops)
    ensures var w := Run(fold, m, Start(rows), ops);
            && Increasing(w.c.nums) && -1 <= w.c.pos
            && (w.c.pos < |w.c.rows| || w.c.pos == -1)
            && (!w.c.broken ==> Agree(m, w.c.rows, w.c.nums, w.live))
            && w.landed == Upto(0, |w.landed|)
            && (!w.c.closed && !Next(w.c).1 ==> w.landed == Upto(0, |rows|))
  {
    StartInv(m, rows);
    RunKeepsInv(fold, m, store, |rows|, Start(rows), ops);
    hide Run;
  }

  // ----- what a call does

  /** Column `i` is the first whose label or name is the one given, letter case aside. */
  predicate FirstMatch(fold: Fold, columns: seq<(string, string)>, name: string, i: nat) {
    && i < |columns|
    && (fold(columns[i].0) == fold(name) || fold(columns[i].1) == fold(name))
    && forall j | 0 <= j < i :: fold(columns[j].0) != fold(name) && fold(columns[j].1) != fold(name)
  }

  /** Every name given is the label or the name of a column. */
  predicate Known(fold: Fold, columns: seq<(string, string)>, named: seq<(string, Value)>) {
    forall u | u in named :: exists c :: c in columns && (fold(c.0) == fold(u.0) || fold(c.1) == fold(u.0))
  }

  lemma ColumnIndexIff(fold: Fold, columns: seq<(string, string)>, name: string, i: nat)
    ensures ColumnIndex(fold, columns, name) == Some(i) <==> FirstMatch(fold, columns, name, i)
  {
    var found := ColumnIndex(fold, columns, name);
    assert forall j | 0 <= j < |columns| :: columns[j] in columns;
    if FirstMatch(fold, columns, name, i) {
      assert Matches(fold, columns[i], name);
      assert found.Some?;
      assert !(found.value < i);
    } else if found == Some(i) {
      assert forall j | 0 <= j < i :: !Matches(fold, columns[j], name);
    }
  }

  lemma {:induction false} AssignedIff(fold: Fold, m: Meta, values: seq<Option<Value>>, named: seq<(string, Value)>)
    requires |values| == m.Visible()
    ensures Assign(fold, m, values, named).Some? <==> Known(fold, m.columns, named)
    decreases |named|
  {
    if named != [] {
      var i := ColumnIndex(fold, m.columns, named[0].0);
      assert named[0] in named && forall u :: u in named <==> u == named[0] || u in named[1..];
      if i.Some? {
        assert m.columns[i.value] in m.columns;
        AssignedIff(fold, m, values[i.value := Some(named[0].1)], named[1..]);
      }
    }
  }

  /** The connection carries a request and its answer. */
  predicate Usable(c: Client, reply: Reply) {
    !c.broken && !reply.Unsent?
  }

  /**
   * An insert goes out exactly when the rows are open, every name is a column's and the connection
   * can be used, and succeeds exactly when it is accepted then. The row sent holds the value given
   * last for each visible column, and NULL everywhere else.
   */
  lemma InsertMeans(fold: Fold, m: Meta, c: Client, named: seq<(string, Value)>, reply: Reply)
    requires m.Visible() <= |m.types|
    ensures var r := InsertRow(fold, m, c, named, reply);
            var acts := !c.closed && Known(fold, m.columns, named) && Usable(c, reply);
            && (r.sent.Some? <==> acts)
            && (r.ok <==> acts && reply.Accepted?)
            && r.client == c.(broken := c.broken || (acts && reply.Dropped?))
    ensures var sent := InsertRow(fold, m, c, named, reply).sent;
            sent.Some? ==>
              && sent.value.action == InsertCursor && sent.value.types == m.types && |sent.value.values| == |m.types|
              && forall i: nat | i < |m.types| ::
                   var given := LastNamed(fold, m, named, i);
                   sent.value.values[i] == if i < m.Visible() && given.Some? then given.value else Null
  {
    AssignedIff(fold, m, Unset(m.Visible()), named);
    hide Assign, LastNamed, Known;
    if Assign(fold, m, Unset(m.Visible()), named).Some? {
      AssignLast(fold, m, Unset(m.Visible()), named);
    }
  }

  /** The system columns of a request for the current row: its row id, NULL, its number. */
  predicate Identified(m: Meta, c: Client, req: Request)
    requires |c.rows| == |c.nums| && HasCurrent(c)
  {
    && |req.values| == |req.types| == |m.types| == |c.rows[c.pos]|
    && forall i: nat | m.Visible() <= i < |m.types| ::
         && req.types[i] == m.types[i]
         && req.values[i] == if i == m.Visible() then c.rows[c.pos][i]
                             else if i == m.Visible() + 2 then Int(c.nums[c.pos]) else Null
  }

  /**
   * An update goes out exactly when there is a current row, something is given, every name is a
   * column's and the connection can be used. It succeeds exactly when it is accepted then, or when
   * nothing is given for a current row. Columns without a value are sent untyped.
   */
  lemma UpdateActs(fold: Fold, m: Meta, c: Client, named: seq<(string, Value)>, reply: Reply)
    requires UpdatableMeta(m) && |c.rows| == |c.nums|
    ensures var r := UpdateRow(fold, m, c, named, reply);
            var acts := HasCurrent(c) && named != [] && Known(fold, m.columns, named) && Usable(c, reply);
            && (r.sent.Some? <==> acts)
            && (r.ok <==> HasCurrent(c) && (named == [] || (acts && reply.Accepted?)))
            && r.client == c.(broken := c.broken || (acts && reply.Dropped?), rows := r.client.rows)
            && |r.client.rows| == |c.rows| && (!(acts && reply.Accepted?) ==> r.client.rows == c.rows)
    ensures var sent := UpdateRow(fold, m, c, named, reply).sent;
            sent.Some? && |c.rows[c.pos]| == |m.types| ==>
              && sent.value.action == UpdateCursor && Identified(m, c, sent.value)
              && forall i: nat | i < m.Visible() ::
                   var given := LastNamed(fold, m, named, i);
                   && sent.value.values[i] == (if given.Some? then given.value else Null)
                   && sent.value.types[i] == (if given.Some? then m.types[i] else ColumnType(0, 0, 0, 0))
  {
    AssignedIff(fold, m, Unset(m.Visible()), named);
    hide Assign, LastNamed, Known, Merge;
    if Assign(fold, m, Unset(m.Visible()), named).Some? {
      AssignLast(fold, m, Unset(m.Visible()), named);
    }
  }

  /**
   * A delete goes out exactly when there is a current row and the connection can be used, and
   * succeeds exactly when it is accepted then. The row leaves the copy and its predecessor is the
   * current one.
   */
  lemma DeleteActs(m: Meta, c: Client, reply: Reply)
    requires UpdatableMeta(m) && |c.rows| == |c.nums|
    ensures var r := DeleteRow(m, c, reply);
            var acts := HasCurrent(c) && Usable(c, reply);
            && (r.sent.Some? <==> acts)
            && (r.ok <==> acts && reply.Accepted?)
            && (r.ok ==>
                  && r.client.rows == c.rows[..c.pos] + c.rows[c.pos + 1..]
                  && r.client.nums == c.nums[..c.pos] + c.nums[c.pos + 1..]
                  && r.client.pos == c.pos - 1 && !r.client.closed && !r.client.broken)
            && (!r.ok ==> r.client == c.(broken := c.broken || (acts && reply.Dropped?)))
            && (acts && |c.rows[c.pos]| == |m.types| ==>
                  && r.sent.value.action == DeleteCursor && r.sent.value.types == m.types
                  && Identified(m, c, r.sent.value)
                  && forall i: nat | i < m.Visible() :: r.sent.value.values[i] == Null)
  {
    var nothing := SetValues(|m.types|, []);
    assert forall i: nat | i < |m.types| :: nothing[i] == Null;
    hide SetValues;
  }

  /** The last value given to column `i`, by label or name. */
  function LastNamed(fold: Fold, m: Meta, updates: seq<(string, Value)>, i: nat): Option<Value>
    decreases |updates|
  {
    if updates == [] then None
    else
      var last := updates[|updates| - 1];
      if FirstMatch(fold, m.columns, last.0, i) then Some(last.1)
      else LastNamed(fold, m, updates[..|updates| - 1], i)
  }

  lemma {:induction false} LastNamedFirst(fold: Fold, m: Meta, updates: seq<(string, Value)>, i: nat)
    requires updates != []
    ensures LastNamed(fold, m, updates, i)
         == if LastNamed(fold, m, updates[1..], i).Some? then LastNamed(fold, m, updates[1..], i)
            else if FirstMatch(fold, m.columns, updates[0].0, i) then Some(updates[0].1) else None
    decreases |updates|
  {
    hide FirstMatch;
    if |updates| == 1 {
      assert updates[..0] == [] && updates[1..] == [];
    } else {
      var init := updates[..|updates| - 1];
      assert updates[1..][..|updates| - 2] == init[1..];
      LastNamedFirst(fold, m, init, i);
    }
  }

  lemma {:induction false} AssignLast(fold: Fold, m: Meta, values: seq<Option<Value>>, updates: seq<(string, Value)>)
    requires |values| == m.Visible() && Assign(fold, m, values, updates).Some?
    ensures forall i: nat | i < m.Visible() ::
              var last := LastNamed(fold, m, updates, i);
              Assign(fold, m, values, updates).value[i] == if last.Some? then last else values[i]
    decreases |updates|
  {
    hide ColumnIndex, FirstMatch;
    if updates != [] {
      var k := ColumnIndex(fold, m.columns, updates[0].0).value;
      AssignLast(fold, m, values[k := Some(updates[0].1)], updates[1..]);
      forall i: nat | i < m.Visible()
        ensures var last := LastNamed(fold, m, updates, i);
                Assign(fold, m, values, updates).value[i] == if last.Some? then last else values[i]
      {
        LastNamedFirst(fold, m, updates, i);
        ColumnIndexIff(fold, m.columns, updates[0].0, i);
      }
    }
  }

  /**
   * After an accepted update the current row holds, in every visible column, the value given for
   * it as the server stores it, or else what it held before; no other cached row has changed.
   */
  lemma UpdateMeans(fold: Fold, m: Meta, store: Store, total: nat, w: World, op: Op)
    requires UpdatableMeta(m) && Inv(m, total, w) && HonestStep(fold, m, store, w, op)
    requires op.DoUpdate? && ClientStep(fold, m, w.c, op).ok && ClientStep(fold, m, w.c, op).sent.Some?
    ensures var after := Step(fold, m, w, op).c.rows;
            HasCurrent(w.c) && |after| == |w.c.rows| && |after[w.c.pos]| == |w.c.rows[w.c.pos]| == |m.types|
    ensures var after := Step(fold, m, w, op).c.rows;
            forall i: nat | i < m.Visible() ::
              var given := LastNamed(fold, m, op.updates, i);
              after[w.c.pos][i] == if given.Some? then store(i, given.value) else w.c.rows[w.c.pos][i]
    ensures var after := Step(fold, m, w, op).c.rows;
            forall j | 0 <= j < |w.c.rows| && j != w.c.pos :: after[j] == w.c.rows[j]
  {
    var c := w.c;
    var x := Step(fold, m, w, op);
    UpdateIdentity(fold, m, c, w.live, op.updates, op.reply);
    AssignLast(fold, m, Unset(m.Visible()), op.updates);
    UpdateAgrees(fold, m, store, w, op);
    var n := c.nums[c.pos];
    assert x.live == w.live[n := op.image];
    hide Assign, LastNamed, FillIdentity, Merge;
    assert x.c.rows[c.pos] == op.image;
    forall j | 0 <= j < |c.rows| && j != c.pos
      ensures x.c.rows[j] == c.rows[j]
    {
      assert x.c.nums[j] != n;
    }
  }
}

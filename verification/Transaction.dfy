/** tx.go and ResetSession: transactions over a session whose settings outlive them. */
module Transaction {
  datatype Level = ReadUncommitted | ReadCommitted | RepeatableRead | Serializable

  /** How a transaction ends on the server. */
  datatype TxEnd = Committed | RolledBack

  /**
   * The server's session. Setting the isolation of a transaction to READ UNCOMMITTED raises a
   * read-only flag of its own, which only a change of the default isolation takes down. `ended` tells how its transactions have ended so far.
   */
  datatype Server = Server(
    isolation: Level, defaultIsolation: Level, readOnly: bool, stickyReadOnly: bool, autocommit: bool,
    ended: seq<TxEnd>)

  datatype Client = Client(closed: bool, broken: bool, autocommit: bool, altered: bool)

  datatype World = World(c: Client, s: Server)

  datatype Request =
    | SetTransactionIsolation(level: Level)
    | SetTransactionReadOnly
    | AttrIsolation(level: Level)
    | AttrReadOnly(on: bool)
    | AttrAutocommit(on: bool)
    | EndTransaction(how: TxEnd, reverts: Reverts)
    | AutocommitStatement

  /** Which transaction settings the server takes back by itself when a transaction ends. */
  datatype Reverts = Reverts(isolation: bool, readOnly: bool)

  /** How an exchange ends; a lost one may have reached the server or not. */
  datatype Fault = Fine | Refused | Lost(applied: bool)

  /** An exchange under a context, which may be canceled before anything is sent. */
  datatype Attempt = Canceled | Tried(fault: Fault)

  predicate ReadWriteDefault(s: Server) {
    s.isolation == ReadCommitted && s.defaultIsolation == ReadCommitted && !s.readOnly && !s.stickyReadOnly
  }

  /** The server's reaction to a request it accepts. */
  function Apply(s: Server, req: Request): Server {
    match req
    case SetTransactionIsolation(l) => s.(isolation := l, stickyReadOnly := s.stickyReadOnly || l == ReadUncommitted)
    case SetTransactionReadOnly => s.(readOnly := true)
    case AttrIsolation(l) =>
      if l == s.defaultIsolation then s
      else s.(isolation := l, defaultIsolation := l, stickyReadOnly := l == ReadUncommitted)
    case AttrReadOnly(on) => s.(readOnly := on)
    case AttrAutocommit(on) => s.(autocommit := on)
    case AutocommitStatement => s.(autocommit := true)
    case EndTransaction(how, r) =>
      s.(ended := s.ended + [how],
         isolation := if r.isolation then s.defaultIsolation else s.isolation,
         readOnly := if r.readOnly then false else s.readOnly)
  }

  // ----- the client as functions

  /** execCtx: an unusable connection sends nothing, a lost exchange breaks it. */
  function Exec(w: World, req: Request, f: Fault): (World, bool) {
    if w.c.closed || w.c.broken then (w, false)
    else
      match f
      case Fine => (w.(s := Apply(w.s, req)), true)
      case Refused => (w, false)
      case Lost(applied) => (World(w.c.(broken := true), if applied then Apply(w.s, req) else w.s), false)
  }

  function ExecUnder(w: World, req: Request, a: Attempt): (World, bool) {
    match a
    case Canceled => (w, false)
    case Tried(f) => Exec(w, req, f)
  }

  /** The isolation asked for: the default, one of HSQLDB's levels, or one it does not have. */
  datatype IsolationOption = Default | Known(level: Level) | Unsupported

  datatype TxOptions = TxOptions(isolation: IsolationOption, readOnly: bool)

  function BeginTx(w: World, opts: TxOptions, a1: Attempt, a2: Attempt, a3: Attempt): (World, bool) {
    if w.c.closed || w.c.broken || !w.c.autocommit || opts.isolation.Unsupported? then (w, false)
    else
      var (w1, ok1) :=
        if opts.isolation.Default? then (w, true)
        else
          var (x, ok) := ExecUnder(w, SetTransactionIsolation(opts.isolation.level), a1);
          (if ok then x.(c := x.c.(altered := true)) else x, ok);
      if !ok1 then (w1, false)
      else
        var (w2, ok2) :=
          if !opts.readOnly then (w1, true)
          else
            var (x, ok) := ExecUnder(w1, SetTransactionReadOnly, a2);
            (if ok then x.(c := x.c.(altered := true)) else x, ok);
        if !ok2 then (w2, false)
        else
          var (w3, ok3) := ExecUnder(w2, AttrAutocommit(false), a3);
          (if ok3 then w3.(c := w3.c.(autocommit := false)) else w3, ok3)
  }

  /** The faults of a finish: ENDTRAN, autocommit, and the three of the reset. */
  datatype FinishFaults = FinishFaults(end: Fault, auto: Fault, iso1: Fault, iso2: Fault, ro: Fault)

  /** resetSessionCharacteristics: all three requests are made before any result is looked at. */
  function ResetCharacteristics(w: World, f: FinishFaults): World {
    if !w.c.altered || w.c.closed || w.c.broken then w
    else
      var (w1, ok1) := Exec(w.(c := w.c.(altered := false)), AttrIsolation(Serializable), f.iso1);
      var (w2, ok2) := Exec(w1, AttrIsolation(ReadCommitted), f.iso2);
      var (w3, ok3) := Exec(w2, AttrReadOnly(false), f.ro);
      if ok1 && ok2 && ok3 then w3 else w3.(c := w3.c.(broken := true))
  }

  /** Commit and Rollback. */
  function Finish(w: World, how: TxEnd, r: Reverts, f: FinishFaults): (World, bool) {
    if w.c.closed || w.c.broken then (w, false)
    else
      var (w1, ended) := Exec(w, EndTransaction(how, r), f.end);
      var (w2, restored) := Exec(w1, AttrAutocommit(true), f.auto);
      if ended && !restored then (w2, false)
      else (ResetCharacteristics(w2.(c := w2.c.(autocommit := true)), f), ended)
  }

  function ResetSession(w: World, r: Reverts, a1: Attempt, a2: Attempt): (World, bool) {
    if w.c.closed || w.c.broken then (w, false)
    else
      var (w1, ok1) := ExecUnder(w, EndTransaction(RolledBack, r), a1);
      if !ok1 then (w1, false)
      else
        var (w2, ok2) := ExecUnder(w1, AutocommitStatement, a2);
        (if ok2 then w2.(c := w2.c.(autocommit := true)) else w2, ok2)
  }

  // ----- the connection

  class Conn {
    var closed: bool
    var broken: bool
    var autocommit: bool
    var txAlteredSession: bool
    /** The server at the other end; only requests reach it. */
    var server: Server

    constructor (s: Server)
      ensures Now() == World(Client(false, false, true, false), s)
    {
      closed, broken, autocommit, txAlteredSession := false, false, true, false;
      server := s;
    }

    ghost function Now(): World
      reads this
    {
      World(Client(closed, broken, autocommit, txAlteredSession), server)
    }

    method ExecCtx(req: Request, a: Attempt) returns (ok: bool)
      modifies this
      ensures (Now(), ok) == ExecUnder(old(Now()), req, a)
    {
      if closed || broken || a.Canceled? {
        return false;
      }
      match a.fault {
        case Fine =>
          server := Apply(server, req);
          ok := true;
        case Refused => ok := false;
        case Lost(applied) =>
          if applied {
            server := Apply(server, req);
          }
          broken := true;
          ok := false;
      }
    }

    method Begin(opts: TxOptions, a1: Attempt, a2: Attempt, a3: Attempt) returns (ok: bool)
      modifies this
      ensures (Now(), ok) == BeginTx(old(Now()), opts, a1, a2, a3)
    {
      if closed || broken {
        return false;
      }
      if !autocommit {
        return false;
      }
      hide Apply;
      match opts.isolation {
        case Default =>
        case Unsupported => return false;
        case Known(level) =>
          ok := ExecCtx(SetTransactionIsolation(level), a1);
          if !ok {
            return;
          }
          txAlteredSession := true;
      }
      if opts.readOnly {
        ok := ExecCtx(SetTransactionReadOnly, a2);
        if !ok {
          return;
        }
        txAlteredSession := true;
      }
      ok := ExecCtx(AttrAutocommit(false), a3);
      if ok {
        autocommit := false;
      }
    }

    method Commit(r: Reverts, f: FinishFaults) returns (ok: bool)
      modifies this
      ensures (Now(), ok) == Finish(old(Now()), Committed, r, f)
    {
      ok := FinishTx(Committed, r, f);
    }

    method Rollback(r: Reverts, f: FinishFaults) returns (ok: bool)
      modifies this
      ensures (Now(), ok) == Finish(old(Now()), RolledBack, r, f)
    {
      ok := FinishTx(RolledBack, r, f);
    }

    method FinishTx(how: TxEnd, r: Reverts, f: FinishFaults) returns (ok: bool)
      modifies this
      ensures (Now(), ok) == Finish(old(Now()), how, r, f)
    {
      hide Apply, ResetCharacteristics;
      if closed || broken {
        return false;
      }
      var ended := ExecCtx(EndTransaction(how, r), Tried(f.end));
      if !ended {
        var _ := ExecCtx(AttrAutocommit(true), Tried(f.auto));
        autocommit := true;
        ResetSessionCharacteristics(f);
        return false;
      }
      ok := ExecCtx(AttrAutocommit(true), Tried(f.auto));
      if !ok {
        return;
      }
      autocommit := true;
      ResetSessionCharacteristics(f);
    }

    method ResetSessionCharacteristics(f: FinishFaults)
      modifies this
      ensures Now() == ResetCharacteristics(old(Now()), f)
    {
      hide Apply;
      if !txAlteredSession || closed || broken {
        return;
      }
      txAlteredSession := false;
      var ok1 := ExecCtx(AttrIsolation(Serializable), Tried(f.iso1));
      var ok2 := ExecCtx(AttrIsolation(ReadCommitted), Tried(f.iso2));
      var ok3 := ExecCtx(AttrReadOnly(false), Tried(f.ro));
      if !ok1 || !ok2 || !ok3 {
        broken := true;
      }
    }

    method Reset(r: Reverts, a1: Attempt, a2: Attempt) returns (ok: bool)
      modifies this
      ensures (Now(), ok) == ResetSession(old(Now()), r, a1, a2)
    {
      hide Apply;
      if closed || broken {
        return false;
      }
      ok := ExecCtx(EndTransaction(RolledBack, r), a1);
      if !ok {
        return;
      }
      ok := ExecCtx(AutocommitStatement, a2);
      if ok {
        autocommit := true;
      }
    }
  }

  // ----- what a call that succeeds has done

  predicate UsableClient(c: Client) {
    !c.closed && !c.broken
  }

  /**
   * BeginTx succeeds exactly on an idle usable connection, for a level the server has, when every
   * request it has to make is carried out. The session then has what the options ask for, keeps
   * its default level, and does not commit by itself; the client knows of both.
   */
  lemma BeginMeans(w: World, opts: TxOptions, a1: Attempt, a2: Attempt, a3: Attempt)
    ensures var (x, ok) := BeginTx(w, opts, a1, a2, a3);
            ok <==>
            && UsableClient(w.c) && w.c.autocommit && !opts.isolation.Unsupported?
            && (opts.isolation.Known? ==> a1 == Tried(Fine)) && (opts.readOnly ==> a2 == Tried(Fine)) && a3 == Tried(Fine)
    ensures var (x, ok) := BeginTx(w, opts, a1, a2, a3);
            ok ==>
              && x.s.isolation == (if opts.isolation.Known? then opts.isolation.level else w.s.isolation)
              && x.s.defaultIsolation == w.s.defaultIsolation
              && x.s.readOnly == (opts.readOnly || w.s.readOnly)
              && x.s.stickyReadOnly == (w.s.stickyReadOnly || opts.isolation == Known(ReadUncommitted))
              && x.s.ended == w.s.ended && !x.s.autocommit
              && x.c == Client(false, false, false, w.c.altered || opts.isolation.Known? || opts.readOnly)
  {
  }

  /** One request that is carried out, refused or lost. */
  lemma ExecMeans(w: World, req: Request, f: Fault)
    ensures var (x, ok) := Exec(w, req, f);
            && (ok <==> UsableClient(w.c) && f == Fine)
            && x.s == (if UsableClient(w.c) && (f == Fine || f == Lost(true)) then Apply(w.s, req) else w.s)
            && x.c == (if UsableClient(w.c) && f.Lost? then w.c.(broken := true) else w.c)
  {
  }

  /** The resetting requests leave autocommit and finished transactions alone. */
  lemma ResetTouches(w: World, f: FinishFaults)
    ensures var x := ResetCharacteristics(w, f);
            && x.s.autocommit == w.s.autocommit && x.c.autocommit == w.c.autocommit && x.s.ended == w.s.ended
            && (!w.c.altered ==> x == w)
  {
    hide Exec;
    var w0 := w.(c := w.c.(altered := false));
    var w1 := Exec(w0, AttrIsolation(Serializable), f.iso1).0;
    var w2 := Exec(w1, AttrIsolation(ReadCommitted), f.iso2).0;
    ExecOutcome(w0, AttrIsolation(Serializable), f.iso1);
    ExecOutcome(w1, AttrIsolation(ReadCommitted), f.iso2);
    ExecOutcome(w2, AttrReadOnly(false), f.ro);
  }

  /**
   * Commit and Rollback return nil exactly on a usable connection whose two requests are carried
   * out; autocommit is then on at both ends. The transaction has ended as asked if and only if
   * ENDTRAN reached the server, whatever was returned.
   */
  lemma FinishMeans(w: World, how: TxEnd, r: Reverts, f: FinishFaults)
    ensures var (x, ok) := Finish(w, how, r, f);
            && (ok <==> UsableClient(w.c) && f.end == Fine && f.auto == Fine)
            && (ok ==> x.c.autocommit && x.s.autocommit)
            && x.s.ended == w.s.ended + if UsableClient(w.c) && (f.end == Fine || f.end == Lost(true)) then [how] else []
    ensures var (x, ok) := Finish(w, how, r, f);
            ok && !w.c.altered ==>
              && x.s.isolation == (if r.isolation then w.s.defaultIsolation else w.s.isolation)
              && x.s.readOnly == (w.s.readOnly && !r.readOnly)
              && x.s.defaultIsolation == w.s.defaultIsolation && x.s.stickyReadOnly == w.s.stickyReadOnly
              && x.c == w.c.(autocommit := true)
  {
    hide Exec, ResetCharacteristics;
    var (w1, ended) := Exec(w, EndTransaction(how, r), f.end);
    var (w2, restored) := Exec(w1, AttrAutocommit(true), f.auto);
    ExecMeans(w, EndTransaction(how, r), f.end);
    ExecMeans(w1, AttrAutocommit(true), f.auto);
    ResetTouches(w2.(c := w2.c.(autocommit := true)), f);
    assert w.s.ended + [] == w.s.ended;
  }

  /** ResetSession succeeds exactly when both statements do, and has rolled back and restored autocommit. */
  lemma ResetMeans(w: World, r: Reverts, a1: Attempt, a2: Attempt)
    ensures var (x, ok) := ResetSession(w, r, a1, a2);
            && (ok <==> UsableClient(w.c) && a1 == Tried(Fine) && a2 == Tried(Fine))
            && (ok ==> x.c == w.c.(autocommit := true) && x.s.autocommit && x.s.ended == w.s.ended + [RolledBack])
  {
  }

  // ----- every run

  datatype Op =
    | Begin(opts: TxOptions, a1: Attempt, a2: Attempt, a3: Attempt)
    | End(how: TxEnd, reverts: Reverts, faults: FinishFaults)
    | Reset(reverts: Reverts, a1: Attempt, a2: Attempt)

  function Step(w: World, op: Op): (World, bool) {
    match op
    case Begin(opts, a1, a2, a3) => BeginTx(w, opts, a1, a2, a3)
    case End(how, r, f) => Finish(w, how, r, f)
    case Reset(r, a1, a2) => ResetSession(w, r, a1, a2)
  }

  function Run(w: World, ops: seq<Op>): World
    decreases |ops|
  {
    if ops == [] then w else Run(Step(w, ops[0]).0, ops[1..])
  }

  /** A session away from its defaults is known to be: the client will reset it or drop it. */
  predicate LeakKnown(w: World) {
    ReadWriteDefault(w.s) || w.c.altered || w.c.broken
  }

  /** A client that believes it is in a transaction has a server that does not commit by itself. */
  predicate InTransaction(w: World) {
    w.c.autocommit || !w.s.autocommit || w.c.broken
  }

  predicate Safe(w: World) {
    LeakKnown(w) && InTransaction(w)
  }

  /** One request that does not concern autocommit. */
  lemma ExecOutcome(w: World, req: Request, f: Fault)
    requires req.AttrIsolation? || req.AttrReadOnly?
    ensures var (x, ok) := Exec(w, req, f);
            && x.c.autocommit == w.c.autocommit && x.s.autocommit == w.s.autocommit && x.c.closed == w.c.closed
            && x.s.ended == w.s.ended
            && (ok ==> x.s == Apply(w.s, req))
  {
  }

  lemma ResetCharacteristicsOutcome(w: World, f: FinishFaults)
    requires Safe(w)
    ensures var x := ResetCharacteristics(w, f);
            && Safe(x) && x.c.autocommit == w.c.autocommit && x.s.autocommit == w.s.autocommit
            && (w.c.closed || x.c.broken || ReadWriteDefault(x.s))
  {
    if w.c.altered && !w.c.closed && !w.c.broken {
      assert Apply(Apply(Apply(w.s, AttrIsolation(Serializable)), AttrIsolation(ReadCommitted)), AttrReadOnly(false))
          == w.s.(isolation := ReadCommitted, defaultIsolation := ReadCommitted, readOnly := false, stickyReadOnly := false);
      hide Exec, Apply;
      var w0 := w.(c := w.c.(altered := false));
      var w1 := Exec(w0, AttrIsolation(Serializable), f.iso1).0;
      var w2 := Exec(w1, AttrIsolation(ReadCommitted), f.iso2).0;
      ExecOutcome(w0, AttrIsolation(Serializable), f.iso1);
      ExecOutcome(w1, AttrIsolation(ReadCommitted), f.iso2);
      ExecOutcome(w2, AttrReadOnly(false), f.ro);
    }
  }

  lemma StepKeepsSafe(w: World, op: Op)
    requires Safe(w)
    ensures Safe(Step(w, op).0)
    ensures w.c.broken ==> Step(w, op) == (w, false)
  {
    match op {
      case Begin(_, _, _, _) =>
      case Reset(_, _, _) =>
      case End(how, r, f) =>
        if !w.c.closed && !w.c.broken {
          hide ResetCharacteristics;
          var (w1, ended) := Exec(w, EndTransaction(how, r), f.end);
          var (w2, restored) := Exec(w1, AttrAutocommit(true), f.auto);
          if !ended || restored {
            ResetCharacteristicsOutcome(w2.(c := w2.c.(autocommit := true)), f);
          }
        }
    }
  }

  /** Over every run with any faults, both invariants hold at the end, hence at every point. */
  lemma {:induction false} RunKeepsSafe(w: World, ops: seq<Op>)
    requires Safe(w)
    ensures Safe(Run(w, ops))
    ensures w.c.broken ==> Run(w, ops) == w
    decreases |ops|
  {
    hide Step, Safe;
    if ops != [] {
      StepKeepsSafe(w, ops[0]);
      RunKeepsSafe(Step(w, ops[0]).0, ops[1..]);
    }
  }

  /**
   * After any run, a Commit or Rollback that returns nil leaves autocommit on at both ends, and
   * either the session at its defaults or the connection broken, so that the pool drops it.
   */
  lemma FinishNilCleans(start: World, ops: seq<Op>, how: TxEnd, r: Reverts, f: FinishFaults)
    requires Safe(start)
    requires Finish(Run(start, ops), how, r, f).1
    ensures var x := Finish(Run(start, ops), how, r, f).0;
            x.c.autocommit && x.s.autocommit && (ReadWriteDefault(x.s) || x.c.broken)
  {
    RunKeepsSafe(start, ops);
    var w := Run(start, ops);
    hide Run, ResetCharacteristics;
    var (w1, ended) := Exec(w, EndTransaction(how, r), f.end);
    var (w2, restored) := Exec(w1, AttrAutocommit(true), f.auto);
    ResetCharacteristicsOutcome(w2.(c := w2.c.(autocommit := true)), f);
  }

  /** If any of the three resetting requests does not succeed, the connection is dropped. */
  lemma FailedResetBreaks(w: World, f: FinishFaults)
    requires w.c.altered && !w.c.closed && !w.c.broken
    ensures ResetCharacteristics(w, f).c.broken <==> !(f.iso1 == Fine && f.iso2 == Fine && f.ro == Fine)
  {
  }

  /**
   * A finish can leave the two ends disagreeing on autocommit on a connection still in use. It
   * does so exactly when the server refuses both ENDTRAN and the autocommit attribute and then
   * accepts whatever the reset sends.
   */
  lemma AutocommitDisagreesIff(w: World, how: TxEnd, r: Reverts, f: FinishFaults)
    requires !w.c.closed && !w.c.broken && !w.c.autocommit && !w.s.autocommit
    ensures var x := Finish(w, how, r, f).0;
            (!x.c.broken && x.c.autocommit != x.s.autocommit) <==>
            (f.end == Refused && f.auto == Refused
             && (w.c.altered ==> f.iso1 == Fine && f.iso2 == Fine && f.ro == Fine))
  {
    if f.end == Refused && f.auto == Refused && w.c.altered {
      FailedResetBreaks(w.(c := w.c.(autocommit := true)), f);
    }
  }

  /** Restoring the default isolation takes the read-only flag down only when the default changes. */
  lemma RestoreAloneIff(s: Server)
    ensures Apply(s, AttrIsolation(ReadCommitted)).stickyReadOnly <==>
              s.stickyReadOnly && s.defaultIsolation == ReadCommitted
  {
  }

  /** Going through another level first clears the flag from every state, whichever level it is. */
  lemma ToggleClearsIff(l: Level)
    ensures (forall s: Server ::
               var x := Apply(Apply(Apply(s, AttrIsolation(l)), AttrIsolation(ReadCommitted)), AttrReadOnly(false));
               ReadWriteDefault(x)) <==> l != ReadCommitted
  {
    var stuck := Server(ReadUncommitted, ReadCommitted, false, true, true, []);
    RestoreAloneIff(stuck);
    assert l == ReadCommitted ==>
      !ReadWriteDefault(Apply(Apply(Apply(stuck, AttrIsolation(l)), AttrIsolation(ReadCommitted)), AttrReadOnly(false)));
  }

  /** What a ResetSession that succeeds makes of the session's settings. */
  lemma ResetSessionOutcome(w: World, r: Reverts, a1: Attempt, a2: Attempt)
    requires ResetSession(w, r, a1, a2).1
    ensures !w.c.closed && !w.c.broken
    ensures ResetSession(w, r, a1, a2).0.s
         == w.s.(isolation := if r.isolation then w.s.defaultIsolation else w.s.isolation,
                 readOnly := !r.readOnly && w.s.readOnly, autocommit := true, ended := w.s.ended + [RolledBack])
  {
  }

  /** BeginTx asked for a level, and the server took the request. */
  predicate LevelSet(opts: TxOptions, a1: Attempt) {
    opts.isolation.Known? && a1 == Tried(Fine)
  }

  /** BeginTx came to ask for a read-only transaction, and the server took the request. */
  predicate ReadOnlySet(opts: TxOptions, a1: Attempt, a2: Attempt) {
    opts.readOnly && (opts.isolation.Default? || LevelSet(opts, a1)) && a2 == Tried(Fine)
  }

  /**
   * ResetSession does not undo everything a failed BeginTx has set. From an idle session at its
   * defaults, a BeginTx that fails and a ResetSession that succeeds leave a session away from
   * them if and only if the server had taken READ UNCOMMITTED, or another level but the default
   * or a read-only request that it does not itself take back at the end of a transaction.
   */
  lemma ResetSessionCleansIff(w: World, opts: TxOptions, a1: Attempt, a2: Attempt, a3: Attempt,
                              r: Reverts, b1: Attempt, b2: Attempt)
    requires ReadWriteDefault(w.s) && w.c.autocommit && w.s.autocommit
    requires !BeginTx(w, opts, a1, a2, a3).1
    requires ResetSession(BeginTx(w, opts, a1, a2, a3).0, r, b1, b2).1
    ensures !ReadWriteDefault(ResetSession(BeginTx(w, opts, a1, a2, a3).0, r, b1, b2).0.s) <==>
              || (LevelSet(opts, a1)
                  && (opts.isolation.level == ReadUncommitted || (opts.isolation.level != ReadCommitted && !r.isolation)))
              || (ReadOnlySet(opts, a1, a2) && !r.readOnly)
  {
    hide ResetSession;
    ResetSessionOutcome(BeginTx(w, opts, a1, a2, a3).0, r, b1, b2);
  }

  /** A run in which the next user of a pooled, valid connection finds a read-only session. */
  lemma FailedBeginLeaks() returns (ops: seq<Op>)
    ensures var idle := World(Client(false, false, true, false), Server(ReadCommitted, ReadCommitted, false, false, true, []));
            var w := Run(idle, ops);
            && !w.c.broken && !w.c.closed && w.c.autocommit && w.s.autocommit && w.s.stickyReadOnly
            && |ops| == 2 && ops[1].Reset? && Step(Run(idle, ops[..1]), ops[1]).1
  {
    var fine := Tried(Fine);
    var begin := Begin(TxOptions(Known(ReadUncommitted), false), fine, fine, Tried(Refused));
    var reset := Reset(Reverts(true, true), fine, fine);
    ops := [begin, reset];
    var idle := World(Client(false, false, true, false), Server(ReadCommitted, ReadCommitted, false, false, true, []));
    var w1 := Step(idle, begin).0;
    assert ops[1..] == [reset] && [reset][1..] == [];
    assert Run(idle, ops) == Run(w1, [reset]) == Run(Step(w1, reset).0, []);
    assert ops[..1] == [begin] && [begin][1..] == [];
    assert Run(idle, [begin]) == Run(w1, []);
  }
}

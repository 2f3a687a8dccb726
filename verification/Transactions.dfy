/** The pending-transaction protocol of one connection. */
module Transactions {
  import opened Odbc

  /** Is there a server connection, is a transaction believed pending, is auto-commit on -
      as the driver has it, and as the server connection has it. */
  datatype Tran = Tran(open: bool, pending: bool, autoCommit: bool, serverAutoCommit: bool)

  const Fresh := Tran(false, false, true, true)

  /** What happens to a connection; `ok` is the server's answer, and a new server
      connection has an auto-commit of its own. */
  datatype TranOp =
    | Connecting(ok: bool, serverAutoCommit: bool)
    | Executed
    | Ending(ok: bool)
    | SettingAutoCommit(on: bool, ok: bool)
    | SettingIsolation(ok: bool)
    | Disconnecting(ok: bool)

  /** Statements execute over an open connection only. */
  predicate Possible(t: Tran, op: TranOp)
  {
    op.Executed? ==> t.open
  }

  function TranStep(t: Tran, op: TranOp): (Tran, RetCode)
  {
    match op
    case Connecting(ok, serverAutoCommit) =>
      if t.open then (t, SqlError)
      else if ok then (t.(open := true, serverAutoCommit := serverAutoCommit), SqlSuccess)
      else (t, SqlError)
    case Executed => (t.(pending := t.pending || !t.autoCommit), SqlSuccess)
    case Ending(ok) =>
      if !t.open then (t, SqlSuccess)
      else if ok then (t.(pending := false), SqlSuccess) else (t, SqlError)
    case SettingAutoCommit(on, ok) =>
      (t.(autoCommit := on, serverAutoCommit := if t.open && ok then on else t.serverAutoCommit),
       if t.open && !ok then SqlError else SqlSuccess)
    case SettingIsolation(ok) =>
      (t, if t.pending || (t.open && !ok) then SqlError else SqlSuccess)
    case Disconnecting(ok) =>
      if t.pending then (t, SqlError)
      else if !t.open then (t, SqlSuccess)
      else (t.(open := false), if ok then SqlSuccess else SqlSuccessWithInfo)
  }

  /** When each call is an error.  A second connect is one; so is whatever the server
      refuses over an open connection, except the commit of a disconnect, which is
      information only; and so are a disconnect and an isolation change while pending. */
  lemma ErrorsExactly(t: Tran, op: TranOp)
    ensures TranStep(t, op).1 == SqlError <==>
      match op
      case Connecting(ok, _) => t.open || !ok
      case Executed => false
      case Ending(ok) => t.open && !ok
      case SettingAutoCommit(_, ok) => t.open && !ok
      case SettingIsolation(ok) => t.pending || (t.open && !ok)
      case Disconnecting(_) => t.pending
    ensures TranStep(t, op).1 == SqlSuccessWithInfo <==> op == Disconnecting(false) && t.open && !t.pending
    ensures TranStep(t, op).1 in {SqlSuccess, SqlSuccessWithInfo, SqlError}
    ensures op.Connecting? ==> TranStep(t, op).0.open == (t.open || op.ok)
  {
  }

  predicate AllPossible(ops: Run<TranOp>)
    decreases ops, 0
  {
    ops.Then? ==> AllPossible(ops.earlier) && Possible(TranAfter(ops.earlier), ops.last)
  }

  function TranAfter(ops: Run<TranOp>): Tran
    requires AllPossible(ops)
    decreases ops, 1
  {
    match ops
    case Start => Fresh
    case Then(earlier, op) => TranStep(TranAfter(earlier), op).0
  }

  // ----- the history that makes a transaction pending --------------------------------

  /** The first `i` calls of a run. */
  function Prefix(ops: Run<TranOp>, i: nat): Run<TranOp>
    requires i <= ops.Length()
  {
    if i == ops.Length() then ops else Prefix(ops.earlier, i)
  }

  /** Call number `i`, counted from 0. */
  function Nth(ops: Run<TranOp>, i: nat): TranOp
    requires i < ops.Length()
  {
    if i + 1 == ops.Length() then ops.last else Nth(ops.earlier, i)
  }

  lemma {:induction false} PrefixPossible(ops: Run<TranOp>, i: nat)
    requires AllPossible(ops) && i <= ops.Length()
    ensures AllPossible(Prefix(ops, i))
  {
    if i < ops.Length() {
      PrefixPossible(ops.earlier, i);
    }
  }

  /** Call `i` executed a statement with auto-commit off, and no later call ended a transaction. */
  predicate PendingSince(ops: Run<TranOp>, i: nat)
    requires AllPossible(ops)
  {
    && i < ops.Length() && Nth(ops, i) == Executed
    && (PrefixPossible(ops, i); !TranAfter(Prefix(ops, i)).autoCommit)
    && forall j :: i < j < ops.Length() ==> Nth(ops, j) != Ending(true)
  }

  lemma {:induction false} PendingNeedsConnection(ops: Run<TranOp>)
    requires AllPossible(ops)
    ensures TranAfter(ops).pending ==> TranAfter(ops).open
  {
    if ops.Then? {
      PendingNeedsConnection(ops.earlier);
    }
  }

  /** In every run, a transaction is pending exactly when some statement was
      executed with auto-commit off and no transaction has been ended since. */
  lemma {:induction false} PendingExactly(ops: Run<TranOp>)
    requires AllPossible(ops)
    ensures TranAfter(ops).pending <==> exists i: nat :: PendingSince(ops, i)
  {
    match ops
    case Start =>
    case Then(earlier, op) =>
      PendingExactly(earlier);
      PendingNeedsConnection(earlier);
      var n := earlier.Length();
      if op == Executed && !TranAfter(earlier).autoCommit {
        assert Prefix(ops, n) == earlier;
        assert PendingSince(ops, n);
      } else if op == Ending(true) {
        assert Nth(ops, n) == Ending(true);
      } else {
        forall i: nat | i < n ensures PendingSince(ops, i) <==> PendingSince(earlier, i) {
          StillPending(earlier, op, i);
        }
        assert !PendingSince(ops, n) by {
          assert Prefix(ops, n) == earlier;
        }
        if TranAfter(earlier).pending {
          var i: nat :| PendingSince(earlier, i);
          assert PendingSince(ops, i);
        }
      }
  }

  lemma StillPending(earlier: Run<TranOp>, op: TranOp, i: nat)
    requires AllPossible(Then(earlier, op)) && op != Ending(true) && i < earlier.Length()
    ensures PendingSince(Then(earlier, op), i) <==> PendingSince(earlier, i)
  {
    var ops := Then(earlier, op);
    assert Nth(ops, i) == Nth(earlier, i) && Prefix(ops, i) == Prefix(earlier, i);
    assert forall j :: i < j < earlier.Length() ==> Nth(ops, j) == Nth(earlier, j);
    assert Nth(ops, earlier.Length()) == op;
    if PendingSince(ops, i) {
      forall j | i < j < earlier.Length() ensures Nth(earlier, j) != Ending(true) {
        assert Nth(ops, j) != Ending(true);
      }
    }
  }

  /** Disconnecting and changing the isolation level are refused exactly while a
      transaction is pending; disconnecting ends with no connection otherwise. */
  lemma RefusedExactlyWhilePending(ops: Run<TranOp>, ok: bool)
    requires AllPossible(ops)
    ensures var t := TranAfter(ops); var (t', code) := TranStep(t, Disconnecting(ok));
      && (code == SqlError <==> exists i: nat :: PendingSince(ops, i))
      && (code == SqlError ==> t' == t) && (code != SqlError ==> !t'.open && !t'.pending)
    ensures TranStep(TranAfter(ops), SettingIsolation(true)).1 == SqlError <==> exists i: nat :: PendingSince(ops, i)
  {
    PendingExactly(ops);
  }

  // ----- the driver's auto-commit and the server's -----------------------------------

  /** What the application last asked for. */
  function LastAsked(ops: Run<TranOp>): bool
  {
    match ops
    case Start => true
    case Then(_, SettingAutoCommit(on, _)) => on
    case Then(earlier, _) => LastAsked(earlier)
  }

  /** The auto-commit the present server connection was opened with. */
  function OpenedWith(ops: Run<TranOp>): bool
    requires AllPossible(ops)
  {
    match ops
    case Start => true
    case Then(earlier, Connecting(ok, serverAutoCommit)) =>
      if !TranAfter(earlier).open && ok then serverAutoCommit else OpenedWith(earlier)
    case Then(earlier, _) => OpenedWith(earlier)
  }

  /** What the server was last told, or else opened with; a refusal tells it nothing. */
  function LastTold(ops: Run<TranOp>): bool
    requires AllPossible(ops)
  {
    match ops
    case Start => true
    case Then(earlier, Connecting(ok, serverAutoCommit)) =>
      if !TranAfter(earlier).open && ok then serverAutoCommit else LastTold(earlier)
    case Then(earlier, SettingAutoCommit(on, ok)) =>
      if TranAfter(earlier).open && ok then on else LastTold(earlier)
    case Then(earlier, _) => LastTold(earlier)
  }

  /** Auto-commit was set since the present server connection was opened. */
  predicate SetSinceOpened(ops: Run<TranOp>)
    requires AllPossible(ops)
  {
    match ops
    case Start => false
    case Then(earlier, Connecting(ok, _)) => if !TranAfter(earlier).open && ok then false else SetSinceOpened(earlier)
    case Then(earlier, SettingAutoCommit(_, _)) => TranAfter(earlier).open || SetSinceOpened(earlier)
    case Then(earlier, _) => SetSinceOpened(earlier)
  }

  /** The server accepted every setting it was told. */
  predicate NoneRefused(ops: Run<TranOp>)
    requires AllPossible(ops)
  {
    ops.Then? ==>
      && NoneRefused(ops.earlier)
      && (ops.last.SettingAutoCommit? && TranAfter(ops.earlier).open ==> ops.last.ok)
  }

  lemma {:induction false} SettingsByHistory(ops: Run<TranOp>)
    requires AllPossible(ops)
    ensures TranAfter(ops).autoCommit == LastAsked(ops)
    ensures TranAfter(ops).serverAutoCommit == LastTold(ops)
  {
    if ops.Then? {
      SettingsByHistory(ops.earlier);
    }
  }

  lemma {:induction false} ToldByHistory(ops: Run<TranOp>)
    requires AllPossible(ops) && NoneRefused(ops) && TranAfter(ops).open
    ensures LastTold(ops) == if SetSinceOpened(ops) then LastAsked(ops) else OpenedWith(ops)
  {
    if ops.Then? && TranAfter(ops.earlier).open {
      ToldByHistory(ops.earlier);
    }
  }

  /** Over all runs the driver and its server connection agree on auto-commit exactly when
      what was last asked for is what the server was last told.  When the server refuses
      nothing, that is: auto-commit was set since the connection was opened, or what was
      asked for before is what a new server connection has anyway - `connect` passes on the
      isolation level only. */
  lemma AutoCommitAgrees(ops: Run<TranOp>)
    requires AllPossible(ops) && TranAfter(ops).open
    ensures var t := TranAfter(ops);
      && (t.autoCommit == t.serverAutoCommit <==> LastAsked(ops) == LastTold(ops))
      && (NoneRefused(ops) ==>
            (t.autoCommit == t.serverAutoCommit <==> SetSinceOpened(ops) || LastAsked(ops) == OpenedWith(ops)))
  {
    SettingsByHistory(ops);
    if NoneRefused(ops) {
      ToldByHistory(ops);
    }
  }

  /** Switching auto-commit off before connecting: after the first statement the driver
      believes a transaction pending and refuses to disconnect, while a server connection
      that opens with auto-commit has committed it. */
  lemma PhantomTransaction(ok: bool)
    ensures var ops := Then(Then(Then(Start, SettingAutoCommit(false, true)), Connecting(true, true)), Executed);
      && AllPossible(ops) && TranAfter(ops).serverAutoCommit && TranAfter(ops).pending
      && TranStep(TranAfter(ops), Disconnecting(ok)).1 == SqlError
  {
    var off := Then(Start, SettingAutoCommit(false, true));
    var on := Then(off, Connecting(true, true));
    assert TranAfter(off) == Tran(false, false, false, true);
    assert TranAfter(on) == Tran(true, false, false, true);
  }
}

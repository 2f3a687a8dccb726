/** What holds over whole runs of the data-at-execution protocol. */
module ExecutionProtocol {
  import opened Odbc
  import opened Bindings
  import opened DataAtExecution

  // ----- the parameter loop ----------------------------------------------------------

  /** The effect of one handling on a binding and on the value the server statement holds. */
  predicate HandledAs(h: Handling, before: Binding, after: Binding,
                      heldBefore: Option<ParamValue>, heldAfter: Option<ParamValue>)
  {
    match h
    case Skipped => after == before && heldAfter == heldBefore
    case Awaiting(a) => after == a && heldAfter == heldBefore
    case Given(v, a) => after == a && heldAfter == Some(v)
    case Refused(_) => false
  }

  lemma {:induction false} SetInputsSpec(hs: seq<Handling>, n: nat, ps: seq<Binding>, values: Values, code: RetCode)
    requires n <= |hs| <= |ps| && code != SqlError
    ensures var r := SetInputs(hs, n, ps, values, code);
      && (forall i :: 0 <= i < |ps| && !(n <= i < |hs|) ==> r.parameters[i] == ps[i])
      && (forall k: nat :: !(n < k <= |hs|) ==> ValueAt(r.values, k) == ValueAt(values, k))
      && (r.code == code || r.code == SqlNeedData || r.code == SqlError)
      && (r.code != SqlError ==> forall i :: n <= i < |hs| ==>
            HandledAs(hs[i], ps[i], r.parameters[i], ValueAt(values, i + 1), ValueAt(r.values, i + 1)))
      && (r.code == SqlSuccess ==> code == SqlSuccess && forall i :: n <= i < |hs| ==> !hs[i].Awaiting?)
    decreases |hs| - n
  {
    if n < |hs| {
      match hs[n]
      case Skipped => SetInputsSpec(hs, n + 1, ps, values, code);
      case Awaiting(after) => SetInputsSpec(hs, n + 1, ps[n := after], values, SqlNeedData);
      case Given(value, after) => SetInputsSpec(hs, n + 1, ps[n := after], values[n + 1 := value], code);
      case Refused(_) =>
    }
  }

  // ----- runs ------------------------------------------------------------------------

  datatype Op =
    | Bind(p: Bound, bindApp: App)
    | Exec(app: App, execOk: bool)
    | Prompt(serverOk: bool)
    | Put(data: Option<Buffer>, length: int)
    | ResetParams

  predicate Legal(s: State, types: seq<CType>, op: Op)
  {
    match op
    case Bind(_, _) => true
    case Exec(app, _) => InputsDescribed(s.parameters, types, app)
    case Prompt(_) => 1 <= s.current
    case Put(data, length) => PieceDescribed(s, types, data, length)
    case ResetParams => true
  }

  function Step(s: State, types: seq<CType>, op: Op): (State, RetCode)
    requires Legal(s, types, op)
  {
    match op
    case Bind(p, app) => BindParameter(s, types, p, app)
    case Exec(app, serverOk) => Execute(s, types, app, serverOk)
    case Prompt(serverOk) => ParamData(s, serverOk)
    case Put(data, length) => PutData(s, types, data, length)
    case ResetParams => (s.(parameters := [], infoPosted := false), SqlSuccess)
  }

  predicate AllLegal(start: State, types: seq<CType>, ops: Run<Op>)
    decreases ops, 0
  {
    ops.Then? ==> AllLegal(start, types, ops.earlier) && Legal(After(start, types, ops.earlier), types, ops.last)
  }

  function After(start: State, types: seq<CType>, ops: Run<Op>): State
    requires AllLegal(start, types, ops)
    decreases ops, 1
  {
    match ops
    case Start => start
    case Then(earlier, op) => Step(After(start, types, earlier), types, op).0
  }

  // ----- the execution gate ----------------------------------------------------------

  predicate Settled(s: State)
  {
    forall i :: 0 <= i < |s.parameters| ==> s.parameters[i].dataAtExecLength == 0
  }

  /** Everything before the put-data cursor owes nothing. */
  predicate Ordered(s: State)
  {
    0 <= s.current && forall i :: 0 <= i < s.current - 1 && i < |s.parameters| ==> s.parameters[i].dataAtExecLength == 0
  }

  lemma ExecuteGate(s: State, types: seq<CType>, app: App, serverOk: bool)
    requires InputsDescribed(s.parameters, types, app)
    ensures var (s', code) := Execute(s, types, app, serverOk);
      && Ordered(s') && s'.current == 1
      && (s'.executions == s.executions || (Settled(s') && |s'.executions| == |s.executions| + 1))
      && (code == SqlNeedData ==> s'.executions == s.executions)
  {
    var cleared := ResetAll(s.parameters);
    var hs := Handlings(cleared, types, app);
    SetInputsSpec(hs, 0, cleared, s.values, SqlSuccess);
    var r := SetInputs(hs, 0, cleared, s.values, SqlSuccess);
    if r.code == SqlSuccess {
      forall i | 0 <= i < |cleared| ensures r.parameters[i].dataAtExecLength == 0 {
        if i < |hs| {
          assert HandledAs(hs[i], cleared[i], r.parameters[i], ValueAt(s.values, i + 1), ValueAt(r.values, i + 1));
        }
      }
    }
  }

  /** One step of any interleaving: the order is kept, and if the server statement
      was executed, no parameter owed anything. */
  lemma StepGate(s: State, types: seq<CType>, op: Op)
    requires Ordered(s) && Legal(s, types, op)
    ensures var s' := Step(s, types, op).0;
      && Ordered(s')
      && s.executions <= s'.executions
      && (s'.executions != s.executions ==> Settled(s'))
      && (op.Prompt? ==> (Settled(s) <==> s'.executions != s.executions) && s'.parameters == s.parameters)
  {
    match op
    case Exec(app, serverOk) => ExecuteGate(s, types, app, serverOk);
    case Prompt(_) =>
      var n := FirstOwing(s.parameters, s.current);
      assert n <= |s.parameters| ==> !Settled(s);
    case _ =>
  }

  /** The execution gate: after any run of bind, execute, param-data, put-data and
      reset-params calls on a new statement, everything before the cursor is
      satisfied; a next step that executes the server statement leaves no parameter
      owing, and param-data executes it exactly when none does. */
  lemma {:induction false} ExecutionGate(types: seq<CType>, ops: Run<Op>, op: Op)
    requires AllLegal(Initial, types, Then(ops, op))
    ensures var s := After(Initial, types, ops); var s' := Step(s, types, op).0;
      && Ordered(s) && Ordered(s')
      && s.executions <= s'.executions
      && (s'.executions != s.executions ==> Settled(s'))
      && (op.Prompt? ==> (Settled(s) <==> s'.executions != s.executions))
  {
    match ops
    case Start =>
    case Then(earlier, last) => ExecutionGate(types, earlier, last);
    StepGate(After(Initial, types, ops), types, op);
  }

  predicate NoExec(ops: Run<Op>)
  {
    ops.Then? ==> NoExec(ops.earlier) && !ops.last.Exec?
  }

  /** The parameters the application is prompted for, in order. */
  function Prompts(start: State, types: seq<CType>, ops: Run<Op>): seq<int>
    requires AllLegal(start, types, ops)
  {
    match ops
    case Start => []
    case Then(earlier, op) =>
      var (s', code) := Step(After(start, types, earlier), types, op);
      Prompts(start, types, earlier) + (if op.Prompt? && code == SqlNeedData then [s'.current] else [])
  }

  predicate Ascending(s: seq<int>)
  {
    forall i, j :: 0 <= i < j < |s| ==> s[i] <= s[j]
  }

  lemma StepMovesForward(s: State, types: seq<CType>, op: Op)
    requires Legal(s, types, op) && !op.Exec?
    ensures s.current <= Step(s, types, op).0.current
  {
  }

  /** Between two executes the prompts never go back. */
  lemma {:induction false} PromptsAscend(start: State, types: seq<CType>, ops: Run<Op>)
    requires AllLegal(start, types, ops) && NoExec(ops)
    ensures var prompts := Prompts(start, types, ops);
      && Ascending(prompts)
      && start.current <= After(start, types, ops).current
      && forall i :: 0 <= i < |prompts| ==> start.current <= prompts[i] <= After(start, types, ops).current
  {
    match ops
    case Start =>
    case Then(earlier, op) =>
      PromptsAscend(start, types, earlier);
      StepMovesForward(After(start, types, earlier), types, op);
  }

  lemma StepKeepsSatisfied(s: State, types: seq<CType>, op: Op, n: nat)
    requires Legal(s, types, op) && !op.Exec? && !s.Owes(n)
    ensures var (s', code) := Step(s, types, op);
      !s'.Owes(n) && (op.Prompt? && code == SqlNeedData ==> s'.current != n)
  {
  }

  /** A parameter that owes nothing is not prompted for until the next execute. */
  lemma {:induction false} SatisfiedStaysSatisfied(start: State, types: seq<CType>, ops: Run<Op>, n: nat)
    requires AllLegal(start, types, ops) && NoExec(ops) && !start.Owes(n)
    ensures !After(start, types, ops).Owes(n) && n !in Prompts(start, types, ops)
  {
    match ops
    case Start =>
    case Then(earlier, op) =>
      SatisfiedStaysSatisfied(start, types, earlier, n);
      StepKeepsSatisfied(After(start, types, earlier), types, op, n);
  }

  // ----- return codes ----------------------------------------------------------------

  /** Param-data asks for more exactly while something is owed; otherwise it executes the
      server statement with the values it holds and returns the server's answer. */
  lemma ParamDataOutcome(s: State, serverOk: bool)
    requires Ordered(s) && 1 <= s.current
    ensures var (s', code) := ParamData(s, serverOk);
      && (code == SqlNeedData <==> !Settled(s))
      && (code == SqlNeedData ==> s'.executions == s.executions && !s'.infoPosted)
      && (code != SqlNeedData ==>
           && s'.executions == s.executions + [Execution(s.values, serverOk)]
           && code == (if serverOk then SqlSuccess else SqlError) && s'.infoPosted == !serverOk)
  {
    var n := FirstOwing(s.parameters, s.current);
    assert n <= |s.parameters| ==> s.parameters[n - 1].dataAtExecLength != 0;
  }

  lemma {:induction false} SetInputsCode(hs: seq<Handling>, n: nat, ps: seq<Binding>, values: Values, code: RetCode)
    requires n <= |hs| <= |ps| && (code == SqlSuccess || code == SqlNeedData)
    ensures SetInputs(hs, n, ps, values, code).code ==
      if exists i :: n <= i < |hs| && hs[i].Refused? then SqlError
      else if exists i :: n <= i < |hs| && hs[i].Awaiting? then SqlNeedData
      else code
    decreases |hs| - n
  {
    if n < |hs| {
      match hs[n]
      case Skipped => SetInputsCode(hs, n + 1, ps, values, code);
      case Awaiting(after) => SetInputsCode(hs, n + 1, ps[n := after], values, SqlNeedData);
      case Given(value, after) => SetInputsCode(hs, n + 1, ps[n := after], values[n + 1 := value], code);
      case Refused(_) =>
    }
  }

  /** Execute fails exactly when a parameter is refused, or nothing is put off and the
      server refuses; it asks for data exactly when nothing is refused and something is
      put off; and it executes the server statement, once, exactly when neither is. */
  lemma ExecuteOutcome(s: State, types: seq<CType>, app: App, serverOk: bool)
    requires InputsDescribed(s.parameters, types, app)
    ensures var (s', code) := Execute(s, types, app, serverOk);
      var hs := Handlings(ResetAll(s.parameters), types, app);
      var refused := exists i :: 0 <= i < |hs| && hs[i].Refused?;
      var putOff := exists i :: 0 <= i < |hs| && hs[i].Awaiting?;
      && code == (if refused then SqlError else if putOff then SqlNeedData else if serverOk then SqlSuccess else SqlError)
      && s'.infoPosted == (code == SqlError) && s'.current == 1
      && s'.executions == if refused || putOff then s.executions else s.executions + [Execution(s'.values, serverOk)]
  {
    var cleared := ResetAll(s.parameters);
    SetInputsCode(Handlings(cleared, types, app), 0, cleared, s.values, SqlSuccess);
  }

  /** A piece is refused without a parameter that needs it.  Otherwise, SQL_SUCCESS_WITH_INFO
      says exactly that a counted piece is longer than what is owed; and SQL_ERROR, that the
      type cannot be sent. */
  lemma PieceOutcome(s: State, types: seq<CType>, data: Option<Buffer>, length: int)
    requires PieceDescribed(s, types, data, length)
    ensures var (s', code) := PutData(s, types, data, length);
      if s.current < 1 || s.parameters[s.current - 1].dataAtExecLength == 0 then
        code == SqlError && s' == s.(infoPosted := true)
      else
        var b := s.parameters[s.current - 1]; var t := TypeOf(b, s.current, types);
        var tooLong := length != -3 && b.dataAtExecLength != -2 && length > b.dataAtExecLength;
        var unsendable := data.Some? && length != -1 && !(t.CChar? || t.CBinary? || t.CFixed?);
        && code == (if tooLong then SqlSuccessWithInfo else if unsendable then SqlError else SqlSuccess)
        && s'.infoPosted == (s.infoPosted || tooLong || unsendable)
        && s'.current == s.current && s'.executions == s.executions
  {
  }

  /** What a bind makes execute read: the length variable, if one is given.  Otherwise it is
      fixed at the bind: for character input the length of the text then, cut to the column
      size; for other input of a sized type the column size; and the buffer length for the rest. */
  lemma BindDeclares(s: State, types: seq<CType>, p: Bound, atBind: App, atExecute: App)
    ensures var (s', code) := BindParameter(s, types, p, atBind);
      && (code == SqlError <==> p.parameter == 0 || p.cType.CWide? || p.cType.CUnsupported? || p.bufferLength < 0)
      && (code != SqlError ==>
           && code == SqlSuccess && p.parameter <= |s'.parameters|
           && var b := s'.parameters[p.parameter - 1];
           && (b.direction, b.cType, b.sqlType, b.pointer) == (p.direction, p.cType, p.sqlType, p.pointer)
           && Declared(b, atExecute) ==
                if p.lengthPointer != 0 then atExecute.lengths(p.lengthPointer)
                else if p.direction != 1 || p.sqlType.OtherSql? then p.bufferLength
                else if p.sqlType.SizedSql? then p.columnSize
                else if p.pointer == 0 then 0
                else Min(|CString(atBind.buffers(p.pointer).bytes)|, p.columnSize))
      && (forall i :: 0 <= i < |s.parameters| && i != p.parameter - 1 ==> i < |s'.parameters| && s'.parameters[i] == s.parameters[i])
      && s'.values == s.values && s'.executions == s.executions && s'.current == s.current
  {
  }

  // ----- what is delivered -----------------------------------------------------------

  /** The call supplies data for parameter `n`, which needs it. */
  predicate Supplies(s: State, op: Op, n: nat)
  {
    op.Put? && s.current == n && s.Owes(n)
  }

  /** Between an execute that needs data and the execution: prompts, and pieces that for
      parameter `n` are counted and not null; the others may get theirs in any form. */
  predicate DataCalls(start: State, types: seq<CType>, ops: Run<Op>, n: nat)
    requires AllLegal(start, types, ops)
  {
    ops.Then? ==>
      && DataCalls(start, types, ops.earlier, n) && (ops.last.Prompt? || ops.last.Put?)
      && (Supplies(After(start, types, ops.earlier), ops.last, n) ==> Counted(ops.last.data, ops.last.length))
  }

  predicate Counted(data: Option<Buffer>, length: int)
  {
    data.Some? && 0 <= length <= |data.value.bytes|
  }

  /** All the bytes supplied for parameter `n`, in order. */
  function Supplied(start: State, types: seq<CType>, ops: Run<Op>, n: nat): seq<byte>
    requires AllLegal(start, types, ops) && DataCalls(start, types, ops, n)
  {
    match ops
    case Start => []
    case Then(earlier, op) =>
      Supplied(start, types, earlier, n) +
      (if Supplies(After(start, types, earlier), op, n) then op.data.value.bytes[..op.length] else [])
  }

  function AsValue(t: CType, bytes: seq<byte>): ParamValue
  {
    if t.CChar? then Text(bytes) else Blob(bytes)
  }

  /** Where parameter `n` stands when `bytes` have been supplied for it: `declared`
      is the length it was executed with and `before` what the server statement held. */
  predicate Standing(b: Binding, t: CType, declared: int, bytes: seq<byte>, value: Option<ParamValue>, before: Option<ParamValue>)
    requires AtExecution(declared)
  {
    if b.count == 0 then
      bytes == [] && b.dataAtExecLength == Owed(declared) && value == before
    else if declared == SQL_DATA_AT_EXEC then
      b.dataAtExecLength == 0 && b.accumulator == bytes && value == Some(AsValue(t, bytes))
    else
      && b.dataAtExecLength == Max(0, Owed(declared) - |bytes|)
      && |b.accumulator| + b.dataAtExecLength == Owed(declared)
      && b.accumulator <= bytes
      && value == Some(AsValue(t, b.accumulator))
  }

  /** Parameter `n` of a state is a character or binary parameter executed with length `declared`. */
  predicate Streams(s: State, types: seq<CType>, n: nat)
  {
    1 <= n <= |s.parameters| &&
    (TypeOf(s.parameters[n - 1], n, types).CChar? || TypeOf(s.parameters[n - 1], n, types).CBinary?)
  }

  lemma PutKeepsStanding(s: State, types: seq<CType>, data: Buffer, length: nat, n: nat, declared: int,
                         bytes: seq<byte>, before: Option<ParamValue>)
    requires Streams(s, types, n) && s.current == n && s.Owes(n)
    requires length <= |data.bytes| && PieceDescribed(s, types, Some(data), length)
    requires AtExecution(declared)
    requires var b := s.parameters[n - 1];
      Standing(b, TypeOf(b, n, types), declared, bytes, ValueAt(s.values, n), before)
    ensures var s' := PutData(s, types, Some(data), length).0; var b := s'.parameters[n - 1];
      && Streams(s', types, n)
      && Standing(b, TypeOf(b, n, types), declared, bytes + data.bytes[..length], ValueAt(s'.values, n), before)
  {
    var b := s.parameters[n - 1];
    assert declared != SQL_DATA_AT_EXEC || b.count == 0;
    if b.count > 0 {
      assert b.accumulator == bytes;
    }
  }

  /** Conservation.  Whatever character or binary data a run of counted pieces
      supplies: with a declared length, the accumulated bytes and the bytes owed add
      up to it and are the first of the bytes supplied, in order; with an unknown
      length, they are the one piece taken; and the server statement holds them. */
  lemma {:induction false} Conservation(start: State, types: seq<CType>, ops: Run<Op>, n: nat, declared: int)
    requires AllLegal(start, types, ops) && DataCalls(start, types, ops, n)
    requires Streams(start, types, n) && AtExecution(declared)
    requires start.parameters[n - 1].count == 0 && start.parameters[n - 1].dataAtExecLength == Owed(declared)
    ensures var s := After(start, types, ops);
      && Streams(s, types, n)
      && var b := s.parameters[n - 1];
         Standing(b, TypeOf(b, n, types), declared, Supplied(start, types, ops, n), ValueAt(s.values, n), ValueAt(start.values, n))
  {
    match ops
    case Start =>
    case Then(earlier, op) =>
      Conservation(start, types, earlier, n, declared);
      var s := After(start, types, earlier);
      if Supplies(s, op, n) {
        PutKeepsStanding(s, types, op.data.value, op.length, n, declared, Supplied(start, types, earlier, n), ValueAt(start.values, n));
      } else {
        OthersUntouched(s, types, op, n);
      }
  }

  lemma OthersUntouched(s: State, types: seq<CType>, op: Op, n: nat)
    requires (op.Prompt? || op.Put?) && Legal(s, types, op)
    requires !Supplies(s, op, n) && 1 <= n <= |s.parameters|
    ensures var s' := Step(s, types, op).0;
      && |s'.parameters| == |s.parameters|
      && s'.parameters[n - 1] == s.parameters[n - 1] && ValueAt(s'.values, n) == ValueAt(s.values, n)
  {
  }

  /** A parameter that needed no data keeps what execute gave it. */
  lemma {:induction false} GivenValueStays(start: State, types: seq<CType>, ops: Run<Op>, n: nat)
    requires AllLegal(start, types, ops) && DataCalls(start, types, ops, n)
    requires 1 <= n <= |start.parameters| && start.parameters[n - 1].dataAtExecLength == 0
    ensures var s := After(start, types, ops);
      && |s.parameters| == |start.parameters|
      && s.parameters[n - 1] == start.parameters[n - 1] && ValueAt(s.values, n) == ValueAt(start.values, n)
  {
    match ops
    case Start =>
    case Then(earlier, op) =>
      GivenValueStays(start, types, earlier, n);
      OthersUntouched(After(start, types, earlier), types, op, n);
  }

  /** What the last execution handed to the server for parameter `n`. */
  function Handed(s: State, n: nat): Option<ParamValue>
    requires s.executions != []
  {
    ValueAt(s.executions[|s.executions| - 1].values, n)
  }

  /** The value that data at hand stands for, if its type can be sent: NULL for no data or
      a length of SQL_NULL_DATA; text up to its first zero for SQL_NTS, and the counted
      bytes otherwise. */
  function AtHand(t: CType, data: Option<Buffer>, length: int): Option<ParamValue>
    requires Described(t, data, length)
  {
    if data.None? || length == -1 then Some(NullValue)
    else if t.CChar? then Some(Text(if length == -3 then CString(data.value.bytes) else data.value.bytes[..length]))
    else if t.CBinary? then Some(Blob(data.value.bytes[..length]))
    else if t.CFixed? then Some(Scalar(data.value.scalar))
    else None
  }

  /** How execute deals with a parameter, in the application's terms: outputs are skipped; a
      declared length of -2, or of -100 and less, puts the data off and notes what is owed;
      otherwise the value at hand is taken, or refused if its type cannot be sent. */
  lemma HandlingExactly(b: Binding, n: nat, types: seq<CType>, app: App)
    requires b.direction == SQL_PARAM_OUTPUT || AtExecution(Declared(b, app)) ||
             Described(TypeOf(b, n, types), app.At(b.pointer), Declared(b, app))
    ensures var h := SetParameter(b, n, types, app);
      var t := if !b.cType.CDefault? then b.cType else if 1 <= n <= |types| then types[n - 1] else CUnsupported;
      var length := if b.indicatorPointer != 0 then app.lengths(b.indicatorPointer) else b.bufferLength;
      var data := if b.pointer != 0 then Some(app.buffers(b.pointer)) else None;
      if b.direction == 4 then h == Skipped
      else if length == -2 then h == Awaiting(b.(dataAtExecLength := -2))
      else if length <= -100 then h == Awaiting(b.(dataAtExecLength := -length - 100))
      else match AtHand(t, data, length)
        case Some(value) => h.Given? && h.value == value
        case None => h.Refused?
  {
  }

  /** What the completed execution must hand to the server for parameter `n`. */
  function Expected(b: Binding, n: nat, types: seq<CType>, app: App, bytes: seq<byte>, before: Option<ParamValue>): Option<ParamValue>
    requires b.direction == SQL_PARAM_OUTPUT || AtExecution(Declared(b, app)) ||
             Described(TypeOf(b, n, types), app.At(b.pointer), Declared(b, app))
    requires b.direction != SQL_PARAM_OUTPUT && AtExecution(Declared(b, app)) && Declared(b, app) != SQL_DATA_AT_EXEC ==>
             Owed(Declared(b, app)) <= |bytes|
  {
    var declared := Declared(b, app);
    if b.direction == SQL_PARAM_OUTPUT then before
    else if AtExecution(declared) then
      if declared == SQL_DATA_AT_EXEC then Some(AsValue(TypeOf(b, n, types), bytes))
      else if Owed(declared) == 0 then before
      else Some(AsValue(TypeOf(b, n, types), bytes[..Owed(declared)]))
    else AtHand(TypeOf(b, n, types), app.At(b.pointer), declared)
  }

  /** The whole protocol.  Take any state, execute with data at execution, make any
      run of prompts and counted pieces, and let the last param-data execute: for
      every bound character or binary input parameter the server statement then
      holds exactly the first declared number of the bytes supplied for it (the one
      piece, for an unknown length), and for the others the value execute gave it.
      A parameter declared with a length of 0 is never given a value at all. */
  lemma CompletedExecution(s0: State, types: seq<CType>, app: App, ok: bool, ops: Run<Op>, serverOk: bool, n: nat)
    requires InputsDescribed(s0.parameters, types, app)
    requires Execute(s0, types, app, ok).1 == SqlNeedData
    requires var start := Execute(s0, types, app, ok).0;
      && AllLegal(start, types, Then(ops, Prompt(serverOk))) && DataCalls(start, types, ops, n)
      && Step(After(start, types, ops), types, Prompt(serverOk)).1 != SqlNeedData
    requires 1 <= n <= Limit(s0.parameters, types)
    requires var b := s0.parameters[n - 1].Reset();
      SetParameter(b, n, types, app).Awaiting? ==> TypeOf(b, n, types).CChar? || TypeOf(b, n, types).CBinary?
    ensures var start := Execute(s0, types, app, ok).0; var s := After(start, types, ops);
      var s' := Step(s, types, Prompt(serverOk)).0; var b := s0.parameters[n - 1].Reset();
      var bytes := Supplied(start, types, ops, n);
      && (SetParameter(b, n, types, app).Awaiting? && Declared(b, app) != SQL_DATA_AT_EXEC ==> Owed(Declared(b, app)) <= |bytes|)
      && |s'.executions| == |s.executions| + 1
      && Handed(s', n) == Expected(b, n, types, app, bytes, ValueAt(s0.values, n))
  {
    var start := Execute(s0, types, app, ok).0;
    var s := After(start, types, ops);
    var b := s0.parameters[n - 1].Reset();
    AfterExecute(s0, types, app, ok, n);
    RunGate(start, types, ops);
    DataCallsKeepLength(start, types, ops, n);
    PromptExecutes(s, types, serverOk);
    ValueAtCompletion(start, types, app, ops, b, n, ValueAt(s0.values, n));
  }

  /** When parameter `n` owes nothing any more, the server statement holds what is expected. */
  lemma ValueAtCompletion(start: State, types: seq<CType>, app: App, ops: Run<Op>, b: Binding, n: nat, before: Option<ParamValue>)
    requires AllLegal(start, types, ops) && DataCalls(start, types, ops, n)
    requires 1 <= n <= |start.parameters| && b.AtStart() && b.dataAtExecLength == 0
    requires b.direction == SQL_PARAM_OUTPUT || AtExecution(Declared(b, app)) ||
             Described(TypeOf(b, n, types), app.At(b.pointer), Declared(b, app))
    requires SetParameter(b, n, types, app).Awaiting? ==> TypeOf(b, n, types).CChar? || TypeOf(b, n, types).CBinary?
    requires HandledAs(SetParameter(b, n, types, app), b, start.parameters[n - 1], before, ValueAt(start.values, n))
    requires !After(start, types, ops).Owes(n)
    ensures var bytes := Supplied(start, types, ops, n);
      && (SetParameter(b, n, types, app).Awaiting? && Declared(b, app) != SQL_DATA_AT_EXEC ==> Owed(Declared(b, app)) <= |bytes|)
      && ValueAt(After(start, types, ops).values, n) == Expected(b, n, types, app, bytes, before)
  {
    DataCallsKeepLength(start, types, ops, n);
    HandlingExactly(b, n, types, app);
    if SetParameter(b, n, types, app).Awaiting? {
      var declared := Declared(b, app);
      Conservation(start, types, ops, n, declared);
      ConfigurationStays(start, types, ops, n);
      var after := After(start, types, ops).parameters[n - 1];
      if declared != SQL_DATA_AT_EXEC {
        if Owed(declared) == 0 {
          GivenValueStays(start, types, ops, n);
        } else {
          var bytes := Supplied(start, types, ops, n);
          assert after.accumulator == bytes[..|after.accumulator|];
        }
      }
    } else {
      GivenValueStays(start, types, ops, n);
    }
  }

  lemma {:induction false} ConfigurationStays(start: State, types: seq<CType>, ops: Run<Op>, n: nat)
    requires AllLegal(start, types, ops) && DataCalls(start, types, ops, n) && 1 <= n <= |start.parameters|
    ensures |After(start, types, ops).parameters| == |start.parameters|
    ensures After(start, types, ops).parameters[n - 1].SameConfiguration(start.parameters[n - 1])
  {
    if ops.Then? {
      ConfigurationStays(start, types, ops.earlier, n);
    }
  }

  lemma PromptExecutes(s: State, types: seq<CType>, serverOk: bool)
    requires Ordered(s) && 1 <= s.current && ParamData(s, serverOk).1 != SqlNeedData
    ensures Settled(s)
    ensures ParamData(s, serverOk).0.executions == s.executions + [Execution(s.values, serverOk)]
  {
    var n := FirstOwing(s.parameters, s.current);
  }

  lemma {:induction false} DataCallsKeepLength(start: State, types: seq<CType>, ops: Run<Op>, n: nat)
    requires AllLegal(start, types, ops) && DataCalls(start, types, ops, n)
    ensures |After(start, types, ops).parameters| == |start.parameters|
  {
    if ops.Then? {
      DataCallsKeepLength(start, types, ops.earlier, n);
    }
  }

  lemma {:induction false} RunGate(start: State, types: seq<CType>, ops: Run<Op>)
    requires AllLegal(start, types, ops) && Ordered(start)
    ensures Ordered(After(start, types, ops))
  {
    if ops.Then? {
      RunGate(start, types, ops.earlier);
      StepGate(After(start, types, ops.earlier), types, ops.last);
    }
  }

  /** Where every parameter stands when execute asks for data. */
  lemma AfterExecute(s0: State, types: seq<CType>, app: App, ok: bool, n: nat)
    requires InputsDescribed(s0.parameters, types, app)
    requires Execute(s0, types, app, ok).1 == SqlNeedData
    requires 1 <= n <= Limit(s0.parameters, types)
    ensures var s := Execute(s0, types, app, ok).0; var b := s0.parameters[n - 1].Reset();
      && Ordered(s) && |s.parameters| == |s0.parameters|
      && HandledAs(SetParameter(b, n, types, app), b, s.parameters[n - 1], ValueAt(s0.values, n), ValueAt(s.values, n))
  {
    ExecuteGate(s0, types, app, ok);
    var cleared := ResetAll(s0.parameters);
    var hs := Handlings(cleared, types, app);
    SetInputsSpec(hs, 0, cleared, s0.values, SqlSuccess);
    assert hs[n - 1] == SetParameter(cleared[n - 1], n, types, app);
  }

  /** `ops` is a run of prompts and pieces, counted for parameter `n`, that completes an
      execute which asked for data. */
  predicate Completes(s0: State, types: seq<CType>, app: App, ops: Run<Op>, n: nat)
  {
    && InputsDescribed(s0.parameters, types, app)
    && var (start, code) := Execute(s0, types, app, true);
    && code == SqlNeedData
    && AllLegal(start, types, Then(ops, Prompt(true))) && DataCalls(start, types, ops, n)
    && Step(After(start, types, ops), types, Prompt(true)).1 != SqlNeedData
  }

  function Completed(s0: State, types: seq<CType>, app: App, ops: Run<Op>, n: nat): State
    requires Completes(s0, types, app, ops, n)
  {
    After(Execute(s0, types, app, true).0, types, Then(ops, Prompt(true)))
  }

  /** How the bytes were split into pieces is invisible: two completed executions,
      from any two states, hand over the same value for a character or binary
      parameter declared with the same positive length when the bytes supplied
      agree that far. */
  lemma SplittingIsInvisible(s: State, s': State, types: seq<CType>, app: App, ops: Run<Op>, ops': Run<Op>, n: nat, length: nat)
    requires Completes(s, types, app, ops, n) && Completes(s', types, app, ops', n)
    requires 1 <= n <= Limit(s.parameters, types) && n <= Limit(s'.parameters, types)
    requires s.parameters[n - 1].SameConfiguration(s'.parameters[n - 1])
    requires s.parameters[n - 1].direction != SQL_PARAM_OUTPUT && length > 0
    requires Declared(s.parameters[n - 1], app) == SQL_LEN_DATA_AT_EXEC_OFFSET - length
    requires TypeOf(s.parameters[n - 1], n, types).CChar? || TypeOf(s.parameters[n - 1], n, types).CBinary?
    requires var bytes := Supplied(Execute(s, types, app, true).0, types, ops, n);
      var bytes' := Supplied(Execute(s', types, app, true).0, types, ops', n);
      length <= |bytes| && length <= |bytes'| ==> bytes[..length] == bytes'[..length]
    ensures var end := Completed(s, types, app, ops, n); var end' := Completed(s', types, app, ops', n);
      end.executions != [] && end'.executions != [] && Handed(end, n) == Handed(end', n)
  {
    hide Execute, ParamData, PutData, Supplied, Store;
    CompletedExecution(s, types, app, true, ops, true, n);
    CompletedExecution(s', types, app, true, ops', true, n);
  }

  /** A terminated piece pays the whole debt, whatever its length: afterwards nothing is
      owed and everything supplied is held, so the accumulated bytes make up the declared
      length exactly when the piece is as long as what was owed. */
  lemma TerminatedPieceEndsDebt(s: State, types: seq<CType>, n: nat, data: Buffer, declared: int,
                                bytes: seq<byte>, before: Option<ParamValue>)
    requires Streams(s, types, n) && TypeOf(s.parameters[n - 1], n, types).CChar? && s.current == n && s.Owes(n)
    requires AtExecution(declared) && declared != SQL_DATA_AT_EXEC
    requires Standing(s.parameters[n - 1], CChar, declared, bytes, ValueAt(s.values, n), before)
    ensures var (s', code) := PutData(s, types, Some(data), SQL_NTS); var b := s'.parameters[n - 1];
      && code == SqlSuccess && b.dataAtExecLength == 0
      && b.accumulator == bytes + CString(data.bytes) && ValueAt(s'.values, n) == Some(Text(b.accumulator))
      && (|b.accumulator| == Owed(declared) <==> |CString(data.bytes)| == s.parameters[n - 1].dataAtExecLength)
  {
    var b := s.parameters[n - 1];
    assert b.count > 0 ==> b.accumulator == bytes;
  }

  /** An unknown length takes exactly one piece: a second one is refused, so two
      pieces arrive whole if and only if the second is empty. */
  lemma UnknownLengthTakesOnePiece(s: State, types: seq<CType>, n: nat, p: Buffer, l: nat, q: Buffer, m: nat)
    requires Streams(s, types, n) && s.current == n && l <= |p.bytes| && m <= |q.bytes|
    requires s.parameters[n - 1].dataAtExecLength == SQL_DATA_AT_EXEC && s.parameters[n - 1].count == 0
    ensures var (s1, first) := PutData(s, types, Some(p), l); var (s2, second) := PutData(s1, types, Some(q), m);
      var whole := AsValue(TypeOf(s.parameters[n - 1], n, types), p.bytes[..l] + q.bytes[..m]);
      && first == SqlSuccess && second == SqlError && s2.values == s1.values
      && (ValueAt(s2.values, n) == Some(whole) <==> m == 0)
  {
    assert [] + p.bytes[..l] == p.bytes[..l];
    assert |p.bytes[..l] + q.bytes[..m]| == l + m;
    if m == 0 {
      assert p.bytes[..l] + q.bytes[..m] == p.bytes[..l];
    }
  }
}

/** What earlier executions leave behind - accumulators, offsets, counts, owed
    lengths, held values - and exactly when it reaches a later one. */
module ExecutionHistory {
  import opened Odbc
  import opened Bindings
  import opened DataAtExecution
  import opened ExecutionProtocol

  // ----- control ---------------------------------------------------------------------

  predicate SameControlAt(b: Binding, b': Binding)
  {
    b.SameConfiguration(b') && b.dataAtExecLength == b'.dataAtExecLength && b.count == b'.count
  }

  predicate SameControl(ps: seq<Binding>, ps': seq<Binding>)
  {
    |ps| == |ps'| && forall i :: 0 <= i < |ps| ==> SameControlAt(ps[i], ps'[i])
  }

  /** What decides the course of a protocol run. */
  predicate SameCourse(s: State, s': State)
  {
    s.current == s'.current && SameControl(s.parameters, s'.parameters)
  }

  // ----- execute ---------------------------------------------------------------------

  predicate SameHandling(h: Handling, h': Handling)
  {
    match (h, h')
    case (Skipped, Skipped) => true
    case (Awaiting(a), Awaiting(a')) => SameControlAt(a, a')
    case (Given(v, a), Given(v', a')) => v == v' && SameControlAt(a, a')
    case (Refused(a), Refused(a')) => SameControlAt(a, a')
    case _ => false
  }

  lemma {:induction false} SetInputsAgree(hs: seq<Handling>, hs': seq<Handling>, i: nat, ps: seq<Binding>, ps': seq<Binding>,
                                          values: Values, values': Values, code: RetCode)
    requires i <= |hs| == |hs'| <= |ps| && SameControl(ps, ps')
    requires forall j :: 0 <= j < |hs| ==> SameHandling(hs[j], hs'[j])
    ensures var r := SetInputs(hs, i, ps, values, code); var r' := SetInputs(hs', i, ps', values', code);
      r.code == r'.code && SameControl(r.parameters, r'.parameters)
    decreases |hs| - i
  {
    if i < |hs| {
      assert SameHandling(hs[i], hs'[i]);
      match hs[i]
      case Skipped =>
        SetInputsAgree(hs, hs', i + 1, ps, ps', values, values', code);
      case Awaiting(a) =>
        SetInputsAgree(hs, hs', i + 1, ps[i := a], ps'[i := hs'[i].after], values, values', SqlNeedData);
      case Given(v, a) =>
        SetInputsAgree(hs, hs', i + 1, ps[i := a], ps'[i := hs'[i].after], values[i + 1 := v], values'[i + 1 := v], code);
      case Refused(_) =>
    }
  }

  lemma HandlingsAgree(ps: seq<Binding>, ps': seq<Binding>, types: seq<CType>, app: App)
    requires SameConfigurations(ps, ps') && InputsDescribed(ps, types, app)
    ensures InputsDescribed(ps', types, app)
    ensures var cleared := ResetAll(ps); var cleared' := ResetAll(ps');
      var hs := Handlings(cleared, types, app); var hs' := Handlings(cleared', types, app);
      && SameControl(cleared, cleared') && |hs| == |hs'|
      && forall i :: 0 <= i < |hs| ==> SameHandling(hs[i], hs'[i])
  {
    var cleared, cleared' := ResetAll(ps), ResetAll(ps');
    assert forall i :: 0 <= i < |cleared| ==> SameControlAt(cleared[i], cleared'[i]);
  }

  /** Execute takes the same course from the same configurations. */
  lemma ExecuteAgrees(s: State, s': State, types: seq<CType>, app: App, ok: bool)
    requires SameConfigurations(s.parameters, s'.parameters) && InputsDescribed(s.parameters, types, app)
    ensures InputsDescribed(s'.parameters, types, app)
    ensures var (r, code) := Execute(s, types, app, ok); var (r', code') := Execute(s', types, app, ok);
      && code == code' && SameCourse(r, r')
      && (r.executions != s.executions <==> r'.executions != s'.executions)
  {
    var cleared, cleared' := ResetAll(s.parameters), ResetAll(s'.parameters);
    HandlingsAgree(s.parameters, s'.parameters, types, app);
    var hs, hs' := Handlings(cleared, types, app), Handlings(cleared', types, app);
    SetInputsAgree(hs, hs', 0, cleared, cleared', s.values, s'.values, SqlSuccess);
  }

  // ----- prompts and pieces ----------------------------------------------------------

  /** Prompts and pieces of any kind: counted, terminated or NULL. */
  predicate Sends(ops: Run<Op>)
  {
    ops.Then? ==> Sends(ops.earlier) && (ops.last.Prompt? || ops.last.Put?)
  }

  lemma {:induction false} FirstOwingAgrees(ps: seq<Binding>, ps': seq<Binding>, n: pos)
    requires SameControl(ps, ps')
    ensures FirstOwing(ps, n) == FirstOwing(ps', n)
    decreases |ps| + 1 - n
  {
    if n <= |ps| {
      assert SameControlAt(ps[n - 1], ps'[n - 1]);
      if ps[n - 1].dataAtExecLength == 0 {
        FirstOwingAgrees(ps, ps', n + 1);
      }
    }
  }

  lemma PutAgrees(s: State, s': State, types: seq<CType>, data: Option<Buffer>, length: int)
    requires SameCourse(s, s') && PieceDescribed(s, types, data, length)
    ensures PieceDescribed(s', types, data, length)
    ensures var (r, code) := PutData(s, types, data, length); var (r', code') := PutData(s', types, data, length);
      && SameCourse(r, r') && code == code' && SameConfigurations(r.parameters, s.parameters)
  {
    hide Receive;
    if 1 <= s.current {
      var b, b' := s.parameters[s.current - 1], s'.parameters[s.current - 1];
      assert SameControlAt(b, b');
      if b.dataAtExecLength != 0 {
        ReceiveAgrees(b, b', TypeOf(b, s.current, types), data, length);
      }
    }
  }

  lemma ReceiveAgrees(b: Binding, b': Binding, t: CType, data: Option<Buffer>, length: int)
    requires SameControlAt(b, b') && b.dataAtExecLength != 0 && Described(t, data, length)
    ensures var r := Receive(b, t, data, length); var r' := Receive(b', t, data, length);
      && r.value.None? == r'.value.None? && r.truncated == r'.truncated
      && r.after.SameConfiguration(b) && SameControlAt(r.after, r'.after)
  {
  }

  /** A prompt or a piece takes the same course and is answered alike. */
  lemma StepAgrees(s: State, s': State, types: seq<CType>, op: Op)
    requires SameCourse(s, s') && (op.Prompt? || op.Put?) && Legal(s, types, op)
    ensures Legal(s', types, op)
    ensures var (r, code) := Step(s, types, op); var (r', code') := Step(s', types, op);
      && SameCourse(r, r') && (code == SqlNeedData <==> code' == SqlNeedData) && (op.Put? ==> code == code')
      && SameConfigurations(r.parameters, s.parameters)
  {
    hide PutData;
    match op
    case Prompt(_) => FirstOwingAgrees(s.parameters, s'.parameters, s.current);
    case Put(data, length) => PutAgrees(s, s', types, data, length);
  }

  /** What one accepted piece contributes. */
  datatype Piece = NullPiece | Content(bytes: seq<byte>, scalar: int)

  function PieceOf(t: CType, data: Option<Buffer>, taken: int): Piece
    requires Described(t, data, taken)
  {
    if data.None? || taken == SQL_NULL_DATA then NullPiece
    else Content(if t.CChar? || t.CBinary? then Bytes(data.value, taken) else [], data.value.scalar)
  }

  /** The pieces of a run that parameter `n` accepts, as far as they are taken. */
  function Accepted(start: State, types: seq<CType>, ops: Run<Op>, n: nat): seq<Piece>
    requires AllLegal(start, types, ops) && Sends(ops)
  {
    match ops
    case Start => []
    case Then(earlier, op) =>
      var s := After(start, types, earlier);
      Accepted(start, types, earlier, n) +
      (if Supplies(s, op, n) then
         var b := s.parameters[n - 1];
         assert PieceDescribed(s, types, op.data, op.length);
         [PieceOf(TypeOf(b, n, types), op.data, Taken(b, op.length))]
       else [])
  }

  /** The course of a run, and the pieces it makes a parameter accept, depend on
      nothing an earlier execution left. */
  lemma {:induction false} RunAgrees(start: State, start': State, types: seq<CType>, ops: Run<Op>, n: nat)
    requires SameCourse(start, start') && AllLegal(start, types, ops) && Sends(ops)
    ensures AllLegal(start', types, ops)
    ensures SameCourse(After(start, types, ops), After(start', types, ops))
    ensures SameConfigurations(After(start, types, ops).parameters, start.parameters)
    ensures Accepted(start, types, ops, n) == Accepted(start', types, ops, n)
  {
    hide Step, Legal, PieceOf, Described;
    if ops.Then? {
      RunAgrees(start, start', types, ops.earlier, n);
      var s, s' := After(start, types, ops.earlier), After(start', types, ops.earlier);
      StepAgrees(s, s', types, ops.last);
      if 1 <= n <= |s.parameters| {
        assert SameControlAt(s.parameters[n - 1], s'.parameters[n - 1]);
      }
    }
  }

  // ----- what the pieces make of the value -------------------------------------------

  /** A parameter's value in the server statement, and its accumulator. */
  datatype Held = Held(value: Option<ParamValue>, accumulator: seq<byte>)

  /** One piece more: NULL replaces the value only; character and binary data is
      appended to the accumulator, which the first piece empties unless it is NULL; a
      type that cannot be sent takes nothing else. */
  function WithPiece(t: CType, h: Held, p: Piece, first: bool): Held
  {
    match p
    case NullPiece => h.(value := Some(NullValue))
    case Content(bytes, scalar) =>
      if t.CChar? || t.CBinary? then
        var all := (if first then [] else h.accumulator) + bytes;
        Held(Some(AsValue(t, all)), all)
      else if t.CFixed? then h.(value := Some(Scalar(scalar)))
      else h
  }

  /** What a parameter of type `t` holds after its pieces. */
  function Fold(t: CType, pieces: seq<Piece>, before: Held): Held
  {
    if pieces == [] then before
    else WithPiece(t, Fold(t, pieces[..|pieces| - 1], before), pieces[|pieces| - 1], |pieces| == 1)
  }

  lemma FoldMore(t: CType, pieces: seq<Piece>, p: Piece, before: Held)
    ensures Fold(t, pieces + [p], before) == WithPiece(t, Fold(t, pieces, before), p, pieces == [])
  {
    assert (pieces + [p])[..|pieces|] == pieces;
  }

  function HeldIn(s: State, n: nat): Held
    requires 1 <= n <= |s.parameters|
  {
    Held(ValueAt(s.values, n), s.parameters[n - 1].accumulator)
  }

  lemma PutFolds(s: State, types: seq<CType>, data: Option<Buffer>, length: int, n: nat)
    requires 1 <= n <= |s.parameters| && s.current == n && s.Owes(n) && PieceDescribed(s, types, data, length)
    ensures var s' := PutData(s, types, data, length).0; var b := s.parameters[n - 1]; var t := TypeOf(b, n, types);
      && |s'.parameters| == |s.parameters| && s'.parameters[n - 1].count == b.count + 1
      && Described(t, data, Taken(b, length))
      && HeldIn(s', n) == WithPiece(t, HeldIn(s, n), PieceOf(t, data, Taken(b, length)), b.count == 0)
  {
  }

  /** After any run a parameter holds what its accepted pieces make of what it held before. */
  lemma {:induction false} RunFolds(start: State, types: seq<CType>, ops: Run<Op>, n: nat)
    requires AllLegal(start, types, ops) && Sends(ops)
    requires 1 <= n <= |start.parameters| && start.parameters[n - 1].count == 0
    ensures var s := After(start, types, ops); var pieces := Accepted(start, types, ops, n);
      && |s.parameters| == |start.parameters|
      && s.parameters[n - 1].SameConfiguration(start.parameters[n - 1])
      && s.parameters[n - 1].count == |pieces|
      && HeldIn(s, n) == Fold(TypeOf(start.parameters[n - 1], n, types), pieces, HeldIn(start, n))
  {
    hide PieceOf, Fold, WithPiece, Taken, PutData;
    match ops
    case Start => FoldNothing(TypeOf(start.parameters[n - 1], n, types), HeldIn(start, n));
    case Then(earlier, op) =>
      RunFolds(start, types, earlier, n);
      var s := After(start, types, earlier);
      StepAgrees(s, s, types, op) by { assert SameControl(s.parameters, s.parameters); }
      if Supplies(s, op, n) {
        PutFolds(s, types, op.data, op.length, n);
        var b := s.parameters[n - 1];
        FoldMore(TypeOf(b, n, types), Accepted(start, types, earlier, n),
                 PieceOf(TypeOf(b, n, types), op.data, Taken(b, op.length)), HeldIn(start, n));
      } else {
        AnyOtherUntouched(s, types, op, n);
        assert Accepted(start, types, ops, n) == Accepted(start, types, earlier, n);
      }
  }

  lemma FoldNothing(t: CType, before: Held)
    ensures Fold(t, [], before) == before
  {
  }

  lemma AnyOtherUntouched(s: State, types: seq<CType>, op: Op, n: nat)
    requires (op.Prompt? || op.Put?) && Legal(s, types, op)
    requires !Supplies(s, op, n) && 1 <= n <= |s.parameters|
    ensures var s' := Step(s, types, op).0;
      && |s'.parameters| == |s.parameters|
      && s'.parameters[n - 1] == s.parameters[n - 1] && HeldIn(s', n) == HeldIn(s, n)
  {
    OthersUntouched(s, types, op, n);
  }

  /** The pieces alone decide the value: there is one; for a type that cannot be sent,
      one of them is NULL; for character and binary data it is not a NULL first piece
      followed, in the end, by a last one that is not. */
  predicate Determined(t: CType, pieces: seq<Piece>)
  {
    && pieces != []
    && if t.CFixed? then true
       else if t.CChar? || t.CBinary? then pieces[0].Content? || pieces[|pieces| - 1].NullPiece?
       else NullPiece in pieces
  }

  lemma {:induction false} RestartForgets(t: CType, pieces: seq<Piece>, h: Held, h': Held)
    requires (t.CChar? || t.CBinary?) && pieces != [] && pieces[0].Content?
    ensures Fold(t, pieces, h) == Fold(t, pieces, h')
  {
    if |pieces| > 1 {
      RestartForgets(t, pieces[..|pieces| - 1], h, h');
    }
  }

  lemma {:induction false} UnsendableFold(t: CType, pieces: seq<Piece>, h: Held)
    requires !t.CChar? && !t.CBinary? && !t.CFixed?
    ensures Fold(t, pieces, h).value == if NullPiece in pieces then Some(NullValue) else h.value
  {
    if pieces != [] {
      UnsendableFold(t, pieces[..|pieces| - 1], h);
      assert pieces == pieces[..|pieces| - 1] + [pieces[|pieces| - 1]];
    }
  }

  /** A NULL first piece leaves the accumulator, and every later piece is appended to it. */
  lemma {:induction false} AccumulatorSurvives(t: CType, pieces: seq<Piece>, h: Held) returns (added: seq<byte>)
    requires (t.CChar? || t.CBinary?) && pieces != [] && pieces[0].NullPiece?
    ensures forall h': Held :: Fold(t, pieces, h').accumulator == h'.accumulator + added
  {
    if |pieces| == 1 {
      added := [];
      forall h': Held ensures Fold(t, pieces, h').accumulator == h'.accumulator + [] {
        assert Fold(t, pieces[..0], h') == h';
      }
    } else {
      var earlier := pieces[..|pieces| - 1];
      var most := AccumulatorSurvives(t, earlier, h);
      var last := pieces[|pieces| - 1];
      added := most + if last.Content? then last.bytes else [];
      forall h': Held ensures Fold(t, pieces, h').accumulator == h'.accumulator + added {
        assert Fold(t, earlier, h').accumulator == h'.accumulator + most;
        assert h'.accumulator + most + (added[|most|..]) == h'.accumulator + added;
      }
    }
  }

  /** Something else to hold. */
  function Other(h: Held): Held
  {
    Held(if h.value == Some(NullValue) then None else Some(NullValue), h.accumulator + [0])
  }

  /** The value depends on what was held before exactly when the pieces do not determine it. */
  lemma FoldDetermined(t: CType, pieces: seq<Piece>, h: Held, h': Held)
    ensures Determined(t, pieces) ==> Fold(t, pieces, h).value == Fold(t, pieces, h').value
    ensures !Determined(t, pieces) ==> Fold(t, pieces, h).value != Fold(t, pieces, Other(h)).value
  {
    if pieces == [] {
    } else if t.CFixed? {
    } else if t.CChar? || t.CBinary? {
      if pieces[0].Content? {
        RestartForgets(t, pieces, h, h');
      } else {
        var added := AccumulatorSurvives(t, pieces, h);
        assert |Fold(t, pieces, Other(h)).accumulator| == |h.accumulator| + 1 + |added|;
        assert |Fold(t, pieces, h).accumulator| == |h.accumulator| + |added|;
      }
    } else {
      UnsendableFold(t, pieces, h);
      UnsendableFold(t, pieces, h');
      UnsendableFold(t, pieces, Other(h));
    }
  }

  // ----- leakage ---------------------------------------------------------------------

  /** `ops` is a run of prompts and pieces after an execute that asked for data, and
      the next param-data executes. */
  predicate Finishes(s: State, types: seq<CType>, app: App, ops: Run<Op>, serverOk: bool)
  {
    && InputsDescribed(s.parameters, types, app)
    && var (start, code) := Execute(s, types, app, true);
    && code == SqlNeedData
    && AllLegal(start, types, Then(ops, Prompt(serverOk))) && Sends(ops)
    && Step(After(start, types, ops), types, Prompt(serverOk)).1 != SqlNeedData
  }

  /** The value handed to the server for parameter `n` by such a run. */
  function HandedBy(s: State, types: seq<CType>, app: App, ops: Run<Op>, serverOk: bool, n: nat): Option<ParamValue>
    requires Finishes(s, types, app, ops, serverOk)
  {
    var end := After(Execute(s, types, app, true).0, types, Then(ops, Prompt(serverOk)));
    if end.executions == [] then None else Handed(end, n)
  }

  /** Whatever was left behind, the run finishes alike and hands over the same value. */
  ghost predicate Unaffected(s: State, types: seq<CType>, app: App, ops: Run<Op>, serverOk: bool, n: nat)
    requires Finishes(s, types, app, ops, serverOk)
  {
    forall s': State :: SameConfigurations(s.parameters, s'.parameters) ==>
      && Finishes(s', types, app, ops, serverOk)
      && HandedBy(s', types, app, ops, serverOk, n) == HandedBy(s, types, app, ops, serverOk, n)
  }

  lemma FinishesAlike(s: State, s': State, types: seq<CType>, app: App, ops: Run<Op>, serverOk: bool, n: nat)
    requires Finishes(s, types, app, ops, serverOk) && SameConfigurations(s.parameters, s'.parameters)
    ensures Finishes(s', types, app, ops, serverOk)
    ensures var start := Execute(s, types, app, true).0; var start' := Execute(s', types, app, true).0;
      Accepted(start, types, ops, n) == Accepted(start', types, ops, n)
  {
    hide Execute, Step, PutData, ParamData, SetParameter;
    ExecuteAgrees(s, s', types, app, true);
    var start, start' := Execute(s, types, app, true).0, Execute(s', types, app, true).0;
    RunAgrees(start, start', types, ops, n);
    StepAgrees(After(start, types, ops), After(start', types, ops), types, Prompt(serverOk));
  }

  /** What a finished run hands over: what execute gave, or what the pieces make of what was held. */
  lemma HandedOver(s: State, types: seq<CType>, app: App, ops: Run<Op>, serverOk: bool, n: nat)
    requires Finishes(s, types, app, ops, serverOk)
    requires 1 <= n <= Limit(s.parameters, types) && s.parameters[n - 1].direction != SQL_PARAM_OUTPUT
    ensures var b := s.parameters[n - 1]; var pieces := Accepted(Execute(s, types, app, true).0, types, ops, n);
      && (AtExecution(Declared(b, app)) ==>
            HandedBy(s, types, app, ops, serverOk, n) == Fold(TypeOf(b, n, types), pieces, HeldIn(s, n)).value)
      && (!AtExecution(Declared(b, app)) ==>
            && SetParameter(b.Reset(), n, types, app).Given?
            && HandedBy(s, types, app, ops, serverOk, n) == Some(SetParameter(b.Reset(), n, types, app).value)
            && Described(TypeOf(b, n, types), app.At(b.pointer), Declared(b, app))
            && HandedBy(s, types, app, ops, serverOk, n) == AtHand(TypeOf(b, n, types), app.At(b.pointer), Declared(b, app)))
  {
    hide Execute, PutData, SetInputs, Handlings, Accepted, Fold;
    var start := Execute(s, types, app, true).0;
    AfterExecute(s, types, app, true, n);
    HandlingExactly(s.parameters[n - 1].Reset(), n, types, app);
    RunFolds(start, types, ops, n);
    RunGate(start, types, ops);
    PromptExecutes(After(start, types, ops), types, serverOk);
    if !AtExecution(Declared(s.parameters[n - 1], app)) {
      NothingAccepted(start, types, ops, n);
      FoldNothing(TypeOf(start.parameters[n - 1], n, types), HeldIn(start, n));
    }
  }

  lemma UnowedKept(s: State, types: seq<CType>, op: Op, n: nat)
    requires (op.Prompt? || op.Put?) && Legal(s, types, op) && !s.Owes(n)
    ensures ValueAt(Step(s, types, op).0.values, n) == ValueAt(s.values, n)
  {
    hide Receive;
  }

  /** A parameter that owes nothing accepts nothing and keeps its value. */
  lemma {:induction false} NothingAccepted(start: State, types: seq<CType>, ops: Run<Op>, n: nat)
    requires AllLegal(start, types, ops) && Sends(ops) && !start.Owes(n)
    ensures Accepted(start, types, ops, n) == [] && !After(start, types, ops).Owes(n)
    ensures ValueAt(After(start, types, ops).values, n) == ValueAt(start.values, n)
  {
    hide Step, PieceOf, Taken;
    if ops.Then? {
      UnowedKept(After(start, types, ops.earlier), types, ops.last, n) by {
        NothingAccepted(start, types, ops.earlier, n);
      }
      NothingAccepted(start, types, ops.earlier, n);
      StepKeepsSatisfied(After(start, types, ops.earlier), types, ops.last, n);
    }
  }

  /** Execute deals with parameter `n`: it is bound, known to the server, and not an output. */
  predicate IsInput(s: State, types: seq<CType>, n: nat)
  {
    1 <= n <= Limit(s.parameters, types) && s.parameters[n - 1].direction != SQL_PARAM_OUTPUT
  }

  /** Execute leaves any other parameter alone. */
  lemma OthersKept(s: State, types: seq<CType>, app: App, ok: bool, n: nat)
    requires InputsDescribed(s.parameters, types, app) && !IsInput(s, types, n)
    requires Execute(s, types, app, ok).1 == SqlNeedData || Execute(s, types, app, ok).0.executions != s.executions
    ensures var r := Execute(s, types, app, ok).0; !r.Owes(n) && ValueAt(r.values, n) == ValueAt(s.values, n)
  {
    var cleared := ResetAll(s.parameters);
    var hs := Handlings(cleared, types, app);
    SetInputsSpec(hs, 0, cleared, s.values, SqlSuccess);
    if 1 <= n <= |hs| {
      var r := SetInputs(hs, 0, cleared, s.values, SqlSuccess);
      assert hs[n - 1] == SetParameter(cleared[n - 1], n, types, app) == Skipped;
      assert HandledAs(hs[n - 1], cleared[n - 1], r.parameters[n - 1], ValueAt(s.values, n), ValueAt(r.values, n));
    }
  }

  /** So a finished run hands over for it what the server statement held before. */
  lemma OthersHandedOver(s: State, types: seq<CType>, app: App, ops: Run<Op>, serverOk: bool, n: nat)
    requires Finishes(s, types, app, ops, serverOk) && !IsInput(s, types, n)
    ensures HandedBy(s, types, app, ops, serverOk, n) == ValueAt(s.values, n)
  {
    hide Execute, PutData, SetInputs, Handlings, Accepted;
    var start := Execute(s, types, app, true).0;
    OthersKept(s, types, app, true, n);
    ExecuteGate(s, types, app, true);
    NothingAccepted(start, types, ops, n);
    RunGate(start, types, ops);
    PromptExecutes(After(start, types, ops), types, serverOk);
  }

  /** Another history for the same statement: parameter `n` held something else. */
  function WithHeld(s: State, n: nat, h: Held): (r: State)
    requires 1 <= n <= |s.parameters|
    ensures |r.parameters| == |s.parameters| && HeldIn(r, n) == h && SameConfigurations(s.parameters, r.parameters)
  {
    s.(parameters := s.parameters[n - 1 := s.parameters[n - 1].(accumulator := h.accumulator)],
       values := if h.value.Some? then s.values[n := h.value.value] else s.values - {n})
  }

  /** Another history for the same statement: it held something else for parameter `n`. */
  function WithOtherValue(s: State, n: nat): (r: State)
    ensures r.parameters == s.parameters && ValueAt(r.values, n) != ValueAt(s.values, n)
  {
    s.(values := if n in s.values then s.values - {n} else s.values[n := NullValue])
  }

  lemma SameAsItself(ps: seq<Binding>)
    ensures SameConfigurations(ps, ps)
  {
  }

  /** No leakage between executions, exactly.  Take any finished execution with data
      sent in pieces of any kind.  For every other history of the statement the same
      calls finish alike; and a parameter the server knows is handed over with the same
      value for every history if and only if it is bound as an input, and its value was
      taken from the application at execute or the pieces it accepted determine it. */
  lemma NoLeakage(s: State, types: seq<CType>, app: App, ops: Run<Op>, serverOk: bool, n: nat)
    requires Finishes(s, types, app, ops, serverOk) && 1 <= n <= |types|
    ensures forall s': State :: SameConfigurations(s.parameters, s'.parameters) ==> Finishes(s', types, app, ops, serverOk)
    ensures Unaffected(s, types, app, ops, serverOk, n) <==>
      && IsInput(s, types, n)
      && var b := s.parameters[n - 1]; var pieces := Accepted(Execute(s, types, app, true).0, types, ops, n);
      && (!AtExecution(Declared(b, app)) || Determined(TypeOf(b, n, types), pieces))
  {
    if IsInput(s, types, n) {
      NoInputLeaks(s, types, app, ops, serverOk, n);
    } else {
      hide Finishes, HandedBy, Execute, IsInput, SameConfigurations;
      forall s': State | SameConfigurations(s.parameters, s'.parameters) ensures Finishes(s', types, app, ops, serverOk) {
        FinishesAlike(s, s', types, app, ops, serverOk, n);
      }
      var other := WithOtherValue(s, n);
      SameAsItself(s.parameters);
      assert !IsInput(other, types, n) by { StillNoInput(s, other, types, n); }
      OthersHandedOver(s, types, app, ops, serverOk, n);
      OthersHandedOver(other, types, app, ops, serverOk, n);
    }
  }

  lemma StillNoInput(s: State, s': State, types: seq<CType>, n: nat)
    requires SameConfigurations(s.parameters, s'.parameters)
    ensures IsInput(s, types, n) <==> IsInput(s', types, n)
  {
  }

  /** The same for a parameter bound as an input. */
  lemma NoInputLeaks(s: State, types: seq<CType>, app: App, ops: Run<Op>, serverOk: bool, n: nat)
    requires Finishes(s, types, app, ops, serverOk) && IsInput(s, types, n)
    ensures forall s': State :: SameConfigurations(s.parameters, s'.parameters) ==> Finishes(s', types, app, ops, serverOk)
    ensures var b := s.parameters[n - 1]; var pieces := Accepted(Execute(s, types, app, true).0, types, ops, n);
      Unaffected(s, types, app, ops, serverOk, n) <==>
        !AtExecution(Declared(b, app)) || Determined(TypeOf(b, n, types), pieces)
  {
    var b, pieces := s.parameters[n - 1], Accepted(Execute(s, types, app, true).0, types, ops, n);
    hide Finishes, HandedBy, Fold, Accepted, Execute, Determined, SetParameter;
    var t := TypeOf(b, n, types);
    HandedOver(s, types, app, ops, serverOk, n);
    forall s': State | SameConfigurations(s.parameters, s'.parameters)
      ensures Finishes(s', types, app, ops, serverOk)
      ensures !AtExecution(Declared(b, app)) || Determined(t, pieces) ==>
        HandedBy(s', types, app, ops, serverOk, n) == HandedBy(s, types, app, ops, serverOk, n)
    {
      FinishesAlike(s, s', types, app, ops, serverOk, n);
      HandedOver(s', types, app, ops, serverOk, n);
      FoldDetermined(t, pieces, HeldIn(s, n), HeldIn(s', n));
      GivenAlike(b.Reset(), s'.parameters[n - 1].Reset(), n, types, app);
    }
    if AtExecution(Declared(b, app)) && !Determined(t, pieces) {
      var other := WithHeld(s, n, Other(HeldIn(s, n)));
      FinishesAlike(s, other, types, app, ops, serverOk, n);
      HandedOver(other, types, app, ops, serverOk, n);
      FoldDetermined(t, pieces, HeldIn(s, n), HeldIn(s, n));
    }
  }

  lemma GivenAlike(b: Binding, b': Binding, n: nat, types: seq<CType>, app: App)
    requires SameControlAt(b, b')
    requires b.direction == SQL_PARAM_OUTPUT || AtExecution(Declared(b, app)) ||
             Described(TypeOf(b, n, types), app.At(b.pointer), Declared(b, app))
    ensures SameHandling(SetParameter(b, n, types, app), SetParameter(b', n, types, app))
  {
  }

  /** What an execution that asks for no data hands to the server for parameter `n`. */
  function DirectlyHanded(s: State, types: seq<CType>, app: App, ok: bool, n: nat): Option<ParamValue>
    requires InputsDescribed(s.parameters, types, app)
  {
    var r := Execute(s, types, app, ok).0;
    if r.executions == [] then None else Handed(r, n)
  }

  /** Whatever was left behind, the statement is executed alike and hands over the same value. */
  ghost predicate DirectlyUnaffected(s: State, types: seq<CType>, app: App, ok: bool, n: nat)
    requires InputsDescribed(s.parameters, types, app)
  {
    forall s': State :: SameConfigurations(s.parameters, s'.parameters) ==>
      && InputsDescribed(s'.parameters, types, app)
      && Execute(s', types, app, ok).0.executions != s'.executions
      && DirectlyHanded(s', types, app, ok, n) == DirectlyHanded(s, types, app, ok, n)
  }

  /** The same for an execution that asks for no data: a parameter the server knows is
      handed over with the same value for every history if and only if it is bound as an input. */
  lemma DirectExecutionLeaks(s: State, types: seq<CType>, app: App, ok: bool, n: nat)
    requires InputsDescribed(s.parameters, types, app) && 1 <= n <= |types|
    requires Execute(s, types, app, ok).0.executions != s.executions
    ensures DirectlyUnaffected(s, types, app, ok, n) <==> IsInput(s, types, n)
  {
    hide Execute;
    if IsInput(s, types, n) {
      DirectlyGiven(s, types, app, ok, n);
      forall s': State | SameConfigurations(s.parameters, s'.parameters)
        ensures InputsDescribed(s'.parameters, types, app)
        ensures Execute(s', types, app, ok).0.executions != s'.executions
        ensures DirectlyHanded(s', types, app, ok, n) == DirectlyHanded(s, types, app, ok, n)
      {
        ExecuteAgrees(s, s', types, app, ok);
        DirectlyGiven(s', types, app, ok, n);
        GivenAlike(s.parameters[n - 1].Reset(), s'.parameters[n - 1].Reset(), n, types, app);
      }
    } else {
      var other := WithOtherValue(s, n);
      SameAsItself(s.parameters);
      ExecuteAgrees(s, other, types, app, ok);
      DirectlyKept(s, types, app, ok, n);
      DirectlyKept(other, types, app, ok, n);
    }
  }

  lemma DirectlyKept(s: State, types: seq<CType>, app: App, ok: bool, n: nat)
    requires InputsDescribed(s.parameters, types, app) && !IsInput(s, types, n)
    requires Execute(s, types, app, ok).0.executions != s.executions
    ensures DirectlyHanded(s, types, app, ok, n) == ValueAt(s.values, n)
  {
    OthersKept(s, types, app, ok, n);
  }

  lemma DirectlyGiven(s: State, types: seq<CType>, app: App, ok: bool, n: nat)
    requires InputsDescribed(s.parameters, types, app)
    requires Execute(s, types, app, ok).0.executions != s.executions
    requires 1 <= n <= Limit(s.parameters, types) && s.parameters[n - 1].direction != SQL_PARAM_OUTPUT
    ensures var r := Execute(s, types, app, ok).0; var h := SetParameter(s.parameters[n - 1].Reset(), n, types, app);
      |r.executions| == |s.executions| + 1 && h.Given? && Handed(r, n) == Some(h.value)
  {
    var cleared := ResetAll(s.parameters);
    var hs := Handlings(cleared, types, app);
    SetInputsSpec(hs, 0, cleared, s.values, SqlSuccess);
    assert hs[n - 1] == SetParameter(cleared[n - 1], n, types, app);
  }

  /** What an execution that asks for no data hands over for an input: the application's
      data as it is at that moment. */
  lemma DirectlyAtHand(s: State, types: seq<CType>, app: App, ok: bool, n: nat)
    requires InputsDescribed(s.parameters, types, app) && IsInput(s, types, n)
    requires Execute(s, types, app, ok).0.executions != s.executions
    ensures var b := s.parameters[n - 1];
      && Described(TypeOf(b, n, types), app.At(b.pointer), Declared(b, app))
      && DirectlyHanded(s, types, app, ok, n).Some?
      && DirectlyHanded(s, types, app, ok, n) == AtHand(TypeOf(b, n, types), app.At(b.pointer), Declared(b, app))
  {
    DirectlyGiven(s, types, app, ok, n);
    HandlingExactly(s.parameters[n - 1].Reset(), n, types, app);
  }

  // ----- the leaks, one by one -------------------------------------------------------

  /** With a declared length of 0 execute asks for data but nothing is owed, so no
      piece is accepted, and whatever value `v` an earlier execution left is handed over again. */
  lemma ZeroLengthLeaks(v: ParamValue, app: App)
    requires app.lengths(1) == SQL_LEN_DATA_AT_EXEC_OFFSET
    ensures var b := Unbound.(direction := SQL_PARAM_INPUT, cType := CChar, pointer := 1, indicatorPointer := 1);
      var s := Initial.(parameters := [b], values := map[1 := v]);
      && Completes(s, [CChar], app, Start, 1)
      && Completed(s, [CChar], app, Start, 1).executions != []
      && Handed(Completed(s, [CChar], app, Start, 1), 1) == Some(v)
  {
    var b := Unbound.(direction := SQL_PARAM_INPUT, cType := CChar, pointer := 1, indicatorPointer := 1);
    var s := Initial.(parameters := [b], values := map[1 := v]);
    assert ResetAll([b]) == [b] && [b][0 := b] == [b];
    var hs := Handlings([b], [CChar], app);
    assert hs == [Awaiting(b)];
    assert SetInputs(hs, 1, [b], s.values, SqlNeedData) == Inputs([b], s.values, SqlNeedData);
    assert Execute(s, [CChar], app, true) == (s.(current := 1), SqlNeedData);
    assert FirstOwing([b], 2) == 2;
  }

  /** A NULL first piece counts as a piece but leaves
      the accumulator alone, so the next piece is appended to what an earlier
      execution accumulated.  The result is the piece itself exactly when that was empty. */
  lemma NullFirstPieceLeaks(s: State, types: seq<CType>, n: nat, piece: Buffer, length: nat)
    requires Streams(s, types, n) && s.current == n && length <= |piece.bytes|
    requires s.parameters[n - 1].dataAtExecLength > 0 && s.parameters[n - 1].count == 0
    requires length <= s.parameters[n - 1].dataAtExecLength
    ensures var b := s.parameters[n - 1]; var t := TypeOf(b, n, types);
      var (s1, first) := PutData(s, types, None, SQL_NULL_DATA);
      var (s2, second) := PutData(s1, types, Some(piece), length);
      && first == SqlSuccess && second == SqlSuccess
      && ValueAt(s2.values, n) == Some(AsValue(t, b.accumulator + piece.bytes[..length]))
      && (ValueAt(s2.values, n) == Some(AsValue(t, piece.bytes[..length])) <==> b.accumulator == [])
  {
    var b := s.parameters[n - 1];
    assert |b.accumulator + piece.bytes[..length]| == |b.accumulator| + length;
    if b.accumulator == [] {
      assert b.accumulator + piece.bytes[..length] == piece.bytes[..length];
    }
  }

  /** A piece for a type that cannot be sent is refused, yet it pays the debt: the next
      param-data executes with whatever value was held before. */
  lemma UnsendableLeaks(s: State, types: seq<CType>, n: nat, piece: Buffer, length: nat, serverOk: bool)
    requires 1 <= n <= |s.parameters| && s.current == n && Ordered(s)
    requires var t := TypeOf(s.parameters[n - 1], n, types); !t.CChar? && !t.CBinary? && !t.CFixed?
    requires 0 < s.parameters[n - 1].dataAtExecLength <= length
    requires forall i :: n <= i < |s.parameters| ==> s.parameters[i].dataAtExecLength == 0
    ensures var (s1, code) := PutData(s, types, Some(piece), length); var (s2, next) := ParamData(s1, serverOk);
      && (code == SqlError <==> length == s.parameters[n - 1].dataAtExecLength) && next != SqlNeedData
      && |s2.executions| == |s.executions| + 1 && Handed(s2, n) == ValueAt(s.values, n)
  {
    var s1 := PutData(s, types, Some(piece), length).0;
    assert Settled(s1) by {
      forall i | 0 <= i < |s1.parameters| ensures s1.parameters[i].dataAtExecLength == 0 {
        if i != n - 1 {
          assert s1.parameters[i] == s.parameters[i];
        }
      }
    }
    StepGate(s1, types, Prompt(serverOk));
    PromptExecutes(s1, types, serverOk);
  }

  /** A run that starts from a new statement: bind the one parameter, execute, reset the
      parameters, execute again.  The second execution succeeds and hands over the value
      of the first, whatever the application has put elsewhere since. */
  lemma ResetParamsLeaks(first: App, second: App, p: Bound)
    requires p.parameter == 1 && p.direction == SQL_PARAM_INPUT && p.cType == CFixed(4) && p.sqlType == OtherSql
    requires p.pointer != 0 && p.bufferLength == 4 && p.lengthPointer == 0
    ensures var ops := Then(Then(Then(Start, Bind(p, first)), Exec(first, true)), ResetParams);
      && AllLegal(Initial, [CFixed(4)], Then(ops, Exec(second, true)))
      && var (r, code) := Step(After(Initial, [CFixed(4)], ops), [CFixed(4)], Exec(second, true));
      && code == SqlSuccess && |r.executions| == 2
      && Handed(r, 1) == Some(Scalar(first.buffers(p.pointer).scalar))
  {
    var types := [CFixed(4)];
    var bound := BindParameter(Initial, types, p, first).0;
    assert AllLegal(Initial, types, Then(Start, Bind(p, first)));
    assert After(Initial, types, Then(Start, Bind(p, first))) == bound;
    DirectlyGiven(bound, types, first, true, 1) by {
      OneInput(bound, types, first);
    }
    OneInput(bound, types, first);
    var executed := Execute(bound, types, first, true).0;
    var emptied := executed.(parameters := [], infoPosted := false);
    NoInputs(emptied, types, second);
  }

  lemma OneInput(s: State, types: seq<CType>, app: App)
    requires |s.parameters| == |types| == 1 && s.parameters[0].cType == CFixed(4)
    requires s.parameters[0].direction == SQL_PARAM_INPUT && s.parameters[0].pointer != 0
    requires s.parameters[0].indicatorPointer == 0 && s.parameters[0].bufferLength == 4
    ensures InputsDescribed(s.parameters, types, app)
    ensures var (r, code) := Execute(s, types, app, true);
      && code == SqlSuccess && |r.executions| == |s.executions| + 1
      && ValueAt(r.values, 1) == Some(Scalar(app.buffers(s.parameters[0].pointer).scalar))
  {
    var cleared := ResetAll(s.parameters);
    var hs := Handlings(cleared, types, app);
    var after := hs[0].after;
    assert hs[0] == SetParameter(cleared[0], 1, types, app);
    assert SetInputs(hs, 1, cleared[0 := after], s.values[1 := hs[0].value], SqlSuccess).code == SqlSuccess;
  }

  /** With no parameters bound, execute hands over whatever the server statement holds. */
  lemma NoInputs(s: State, types: seq<CType>, app: App)
    requires s.parameters == []
    ensures InputsDescribed(s.parameters, types, app)
    ensures var (r, code) := Execute(s, types, app, true);
      && code == SqlSuccess && r.values == s.values && r.executions == s.executions + [Execution(s.values, true)]
  {
    assert Limit(s.parameters, types) == 0;
  }

  /** A NULL piece described by SQL_NULL_DATA makes a counted parameter owe one byte more. */
  lemma NullPieceRaisesDebt(s: State, types: seq<CType>, n: nat)
    requires 1 <= n <= |s.parameters| && s.current == n && s.parameters[n - 1].dataAtExecLength > 0
    ensures var (s', code) := PutData(s, types, None, SQL_NULL_DATA);
      && code == SqlSuccess && ValueAt(s'.values, n) == Some(NullValue)
      && s'.parameters[n - 1].dataAtExecLength == s.parameters[n - 1].dataAtExecLength + 1
  {
  }
}

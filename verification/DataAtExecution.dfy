/** Sending parameter values at execution time: `executeStatement`, `setParameter`,
    `sqlPutData`, `sqlParamData` and `doExecuteStatement` as steps of one protocol. */
module DataAtExecution {
  import opened Odbc
  import opened Bindings

  /** What an application buffer holds, read as bytes or as one number. */
  datatype Buffer = Buffer(bytes: seq<byte>, scalar: int)

  /** The application's memory when a call is made: buffers and length variables by address. */
  datatype App = App(buffers: nat -> Buffer, lengths: nat -> int)
  {
    function At(pointer: nat): Option<Buffer>
    {
      if pointer == 0 then None else Some(buffers(pointer))
    }
  }

  datatype ParamValue = NullValue | Text(bytes: seq<byte>) | Blob(bytes: seq<byte>) | Scalar(value: int)

  type Values = map<nat, ParamValue>

  function ValueAt(values: Values, n: nat): Option<ParamValue>
  {
    if n in values then Some(values[n]) else None
  }

  /** One call of the server's `execute`, with the values the server statement then held. */
  datatype Execution = Execution(values: Values, succeeded: bool)

  datatype State = State(parameters: seq<Binding>, current: int, values: Values,
                         executions: seq<Execution>, infoPosted: bool)
  {
    /** Parameter `n` still needs data. */
    predicate Owes(n: nat)
    {
      1 <= n <= |parameters| && parameters[n - 1].dataAtExecLength != 0
    }
  }

  const Initial := State([], 0, map[], [], false)

  // ----- setParameter ----------------------------------------------------------------

  /** The lengths with which a piece of character or binary data may be described. */
  predicate Described(t: CType, data: Option<Buffer>, length: int)
  {
    data.None? || length == SQL_NULL_DATA ||
    match t
    case CChar => length == SQL_NTS || 0 <= length <= |data.value.bytes|
    case CBinary => 0 <= length <= |data.value.bytes|
    case _ => true
  }

  function Bytes(data: Buffer, length: int): seq<byte>
    requires length == SQL_NTS || 0 <= length <= |data.bytes|
  {
    if length == SQL_NTS then CString(data.bytes) else data.bytes[..length]
  }

  /** `setParameter` with the data at hand: the value given to the server statement,
      if the type can be sent at all, and the binding with its accumulator. */
  function Store(b: Binding, t: CType, data: Option<Buffer>, length: int, forceReset: bool): (Option<ParamValue>, Binding)
    requires Described(t, data, length)
  {
    if data.None? || length == SQL_NULL_DATA then (Some(NullValue), b)
    else match t
      case CChar =>
        var text := (if forceReset then [] else b.accumulator) + Bytes(data.value, length);
        (Some(Text(text)), b.(accumulator := text))
      case CBinary =>
        var blob := (if forceReset then [] else b.accumulator) + Bytes(data.value, length);
        (Some(Blob(blob)), b.(accumulator := blob))
      case CFixed(_) => (Some(Scalar(data.value.scalar)), b)
      case _ => (None, b)
  }

  function TypeOf(b: Binding, n: nat, types: seq<CType>): CType
  {
    b.cType.OrDefault(if 1 <= n <= |types| then types[n - 1] else CUnsupported)
  }

  /** The length the application declares for a parameter when it executes. */
  function Declared(b: Binding, app: App): int
  {
    if b.indicatorPointer != 0 then app.lengths(b.indicatorPointer) else b.bufferLength
  }

  predicate AtExecution(length: int)
  {
    length == SQL_DATA_AT_EXEC || length <= SQL_LEN_DATA_AT_EXEC_OFFSET
  }

  function Owed(length: int): owed
    requires AtExecution(length)
  {
    if length == SQL_DATA_AT_EXEC then SQL_DATA_AT_EXEC else -length + SQL_LEN_DATA_AT_EXEC_OFFSET
  }

  // ----- executeStatement ------------------------------------------------------------

  /** Parameters `executeStatement` looks at: bound ones the server knows. */
  function Limit(parameters: seq<Binding>, types: seq<CType>): nat
  {
    Min(|types|, |parameters|)
  }

  predicate InputsDescribed(parameters: seq<Binding>, types: seq<CType>, app: App)
  {
    forall i :: 0 <= i < Limit(parameters, types) && parameters[i].direction != SQL_PARAM_OUTPUT ==>
      var b := parameters[i]; var length := Declared(b, app);
      AtExecution(length) || Described(TypeOf(b, i + 1, types), app.At(b.pointer), length)
  }

  /** How `executeStatement` deals with one parameter. */
  datatype Handling =
    | Skipped
    | Awaiting(after: Binding)
    | Given(value: ParamValue, after: Binding)
    | Refused(after: Binding)

  function SetParameter(b: Binding, n: nat, types: seq<CType>, app: App): Handling
    requires b.direction == SQL_PARAM_OUTPUT || AtExecution(Declared(b, app)) ||
             Described(TypeOf(b, n, types), app.At(b.pointer), Declared(b, app))
  {
    var length := Declared(b, app);
    if b.direction == SQL_PARAM_OUTPUT then Skipped
    else if AtExecution(length) then Awaiting(b.(dataAtExecLength := Owed(length)))
    else
      match Store(b.(dataAtExecLength := 0), TypeOf(b, n, types), app.At(b.pointer), length, true)
      case (Some(value), after) => Given(value, after)
      case (None, after) => Refused(after)
  }

  /** The handling of every parameter `executeStatement` looks at; each depends on its own binding only. */
  function Handlings(parameters: seq<Binding>, types: seq<CType>, app: App): (hs: seq<Handling>)
    requires InputsDescribed(parameters, types, app)
    ensures |hs| == Limit(parameters, types)
    ensures forall i :: 0 <= i < |hs| ==> hs[i] == SetParameter(parameters[i], i + 1, types, app)
  {
    seq(Limit(parameters, types), i requires 0 <= i < Limit(parameters, types) =>
      SetParameter(parameters[i], i + 1, types, app))
  }

  datatype Inputs = Inputs(parameters: seq<Binding>, values: Values, code: RetCode)

  /** The parameter loop of `executeStatement`, having done the first `i` parameters. */
  function SetInputs(hs: seq<Handling>, i: nat, parameters: seq<Binding>, values: Values, code: RetCode): (r: Inputs)
    requires i <= |hs| <= |parameters|
    ensures |r.parameters| == |parameters|
    decreases |hs| - i
  {
    if i == |hs| then Inputs(parameters, values, code)
    else
      match hs[i]
      case Skipped => SetInputs(hs, i + 1, parameters, values, code)
      case Awaiting(after) => SetInputs(hs, i + 1, parameters[i := after], values, SqlNeedData)
      case Given(value, after) => SetInputs(hs, i + 1, parameters[i := after], values[i + 1 := value], code)
      case Refused(after) => Inputs(parameters[i := after], values, SqlError)
  }

  function DoExecute(s: State, serverOk: bool): (State, RetCode)
  {
    (s.(executions := s.executions + [Execution(s.values, serverOk)], infoPosted := s.infoPosted || !serverOk),
     if serverOk then Outcome(s.infoPosted, SqlSuccess) else SqlError)
  }

  function Execute(s: State, types: seq<CType>, app: App, serverOk: bool): (State, RetCode)
    requires InputsDescribed(s.parameters, types, app)
  {
    var cleared := ResetAll(s.parameters);
    var inputs := SetInputs(Handlings(cleared, types, app), 0, cleared, s.values, SqlSuccess);
    var s' := s.(parameters := inputs.parameters, values := inputs.values, current := 1, infoPosted := inputs.code == SqlError);
    if inputs.code != SqlSuccess then (s', inputs.code) else DoExecute(s', serverOk)
  }

  // ----- sqlPutData and sqlParamData -------------------------------------------------

  predicate PieceDescribed(s: State, types: seq<CType>, data: Option<Buffer>, length: int)
  {
    1 <= s.current ==>
      s.current <= |s.parameters| && Described(TypeOf(s.parameters[s.current - 1], s.current, types), data, length)
  }

  /** What `sqlPutData` makes of one piece for a parameter that needs data. */
  datatype Receipt = Receipt(value: Option<ParamValue>, after: Binding, truncated: bool)

  function Remaining(b: Binding, length: int): int
  {
    if b.dataAtExecLength == SQL_DATA_AT_EXEC then length else b.dataAtExecLength
  }

  /** How much of a piece is taken. */
  function Taken(b: Binding, length: int): int
  {
    if length == SQL_NTS then SQL_NTS else Min(Remaining(b, length), length)
  }

  function Receive(b: Binding, t: CType, data: Option<Buffer>, length: int): Receipt
    requires b.dataAtExecLength != 0 && Described(t, data, length)
  {
    var taken := Taken(b, length);
    assert Described(t, data, taken);
    var (value, stored) := Store(b, t, data, taken, b.count == 0);
    Receipt(value,
            stored.(count := b.count + 1, dataAtExecLength := if length == SQL_NTS then 0 else Remaining(b, length) - taken),
            taken < length)
  }

  function PutData(s: State, types: seq<CType>, data: Option<Buffer>, length: int): (State, RetCode)
    requires PieceDescribed(s, types, data, length)
  {
    if s.current < 1 || s.parameters[s.current - 1].dataAtExecLength == 0 then
      (s.(infoPosted := true), SqlError)
    else
      var b := s.parameters[s.current - 1];
      var r := Receive(b, TypeOf(b, s.current, types), data, length);
      (s.(parameters := s.parameters[s.current - 1 := r.after],
          values := if r.value.Some? then s.values[s.current := r.value.value] else s.values,
          infoPosted := s.infoPosted || r.value.None? || r.truncated),
       if r.truncated then SqlSuccessWithInfo else if r.value.None? then SqlError else SqlSuccess)
  }

  /** The parameter at which the loop of `sqlParamData` stops. */
  function FirstOwing(parameters: seq<Binding>, n: pos): (r: pos)
    ensures n <= r <= Max(n, |parameters| + 1)
    ensures forall i :: n - 1 <= i < r - 1 && i < |parameters| ==> parameters[i].dataAtExecLength == 0
    ensures r <= |parameters| ==> parameters[r - 1].dataAtExecLength != 0
    decreases |parameters| + 1 - n
  {
    if n <= |parameters| && parameters[n - 1].dataAtExecLength == 0 then FirstOwing(parameters, n + 1) else n
  }

  function ParamData(s: State, serverOk: bool): (State, RetCode)
    requires 1 <= s.current
  {
    var n := FirstOwing(s.parameters, s.current);
    var s' := s.(current := n, infoPosted := false);
    if n <= |s.parameters| then (s', SqlNeedData) else DoExecute(s', serverOk)
  }

  // ----- sqlBindParameter ------------------------------------------------------------

  datatype Bound = Bound(parameter: nat, direction: int, cType: CType, sqlType: SqlType, columnSize: nat,
                         pointer: nat, bufferLength: int, lengthPointer: nat)

  function BoundLength(p: Bound, app: App): int
  {
    var atExec := p.lengthPointer != 0 &&
      (app.lengths(p.lengthPointer) == SQL_DATA_AT_EXEC || app.lengths(p.lengthPointer) < SQL_LEN_DATA_AT_EXEC_OFFSET);
    match p.sqlType
    case CharacterSql =>
      if p.direction == SQL_PARAM_INPUT && !atExec then
        if p.pointer == 0 then 0 else Min(|CString(app.buffers(p.pointer).bytes)|, p.columnSize)
      else p.bufferLength
    case SizedSql => if p.direction == SQL_PARAM_INPUT then p.columnSize else p.bufferLength
    case OtherSql => p.bufferLength
  }

  function BindParameter(s: State, types: seq<CType>, p: Bound, app: App): (State, RetCode)
  {
    if p.parameter == 0 then (s.(infoPosted := true), SqlError) else
    var grown := if p.parameter > |s.parameters| then Alloc(s.parameters, Max(p.parameter, |types|)) else s.parameters;
    if p.cType.CWide? || p.cType.CUnsupported? || p.bufferLength < 0 then
      (s.(parameters := grown, infoPosted := true), SqlError)
    else
      var b := grown[p.parameter - 1].(direction := p.direction, cType := p.cType, sqlType := p.sqlType,
        pointer := p.pointer, indicatorPointer := p.lengthPointer, offset := 0, bufferLength := BoundLength(p, app));
      (s.(parameters := grown[p.parameter - 1 := b], infoPosted := false), SqlSuccess)
  }
}

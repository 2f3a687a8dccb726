/** OdbcStatement (src/OdbcStatement.cpp): the methods that keep the protocols of
    the other modules, proved against their steps. */
module OdbcStatements {
  import opened Odbc
  import opened Memory
  import opened ValueTransfer
  import opened NuoRemote
  import opened BlockFetch
  import opened RowLayout
  import opened DataAtExecution
  import opened Transactions
  import opened OdbcConnections
  import B = Bindings
  import PartwiseRead

  /** The server's answers around one execution: whether `execute` succeeds, whether it
      brings results, the generated keys, and the next result if there is one. */
  datatype Reply = Reply(ok: bool, hasResult: bool, keys: ResultSet, next: ResultSet?)
  {
    ghost predicate Usable()
      reads keys, next
    {
      keys.Valid() && keys.position == 0 && (next != null ==> next.Valid() && next.position == 0)
    }
  }

  /** The server's answer to a new statement: its parameters, and whether describing its
      result failed; or no statement at all. */
  datatype PrepareReply = Ready(types: seq<CType>) | Undescribed(types: seq<CType>) | Refused

  class OdbcStatement {
    const connection: OdbcConnection
    const mem: array<Cell>                 // the application's memory
    const fetchBindings: B.Bindings
    const parameters: B.Bindings
    const getDataBindings: B.Bindings
    var prepared: bool                     // is there a server statement
    var paramTypes: seq<CType>             // what the server says of its parameters
    var resultSet: ResultSet?
    var values: Values                     // what the server statement holds for its parameters
    var executions: seq<Execution>         // the calls of the server's execute
    var rowCountPerFetch: nat
    var rowCountPerFetchPtr: nat
    var rowCountPerSelect: nat
    var maxRowsPerSelect: nat
    var rowStatusPtr: nat
    var rowArraySize: nat
    var rowSize: nat
    var currentPutDataParam: int
    var eof: bool
    var cancel: bool
    var returnedGeneratedKeys: bool
    var infoPosted: bool

    constructor (connection: OdbcConnection, mem: array<Cell>)
      ensures this.connection == connection && this.mem == mem && !prepared && !cancel && !returnedGeneratedKeys
      ensures Valid() && fresh(fetchBindings) && fresh(parameters) && fresh(getDataBindings)
      ensures ExecState() == Initial && resultSet == null
      ensures fetchBindings.bindings == [] && getDataBindings.bindings == []
    {
      this.connection, this.mem := connection, mem;
      prepared, paramTypes, cancel, returnedGeneratedKeys := false, [], false, false;
      fetchBindings := new B.Bindings();
      parameters := new B.Bindings();
      getDataBindings := new B.Bindings();
      resultSet, values, executions := null, map[], [];
      rowCountPerFetch, rowCountPerFetchPtr, rowCountPerSelect, maxRowsPerSelect := 0, NULL, 0, 0;
      rowStatusPtr, rowArraySize, rowSize := NULL, 1, SQL_BIND_BY_COLUMN;
      currentPutDataParam, eof, infoPosted := 0, false, false;
    }

    ghost predicate Valid()
      reads this, resultSet
    {
      && fetchBindings != parameters && fetchBindings != getDataBindings && parameters != getDataBindings
      && (resultSet != null ==> resultSet.Valid()) && (!prepared ==> paramTypes == [])
    }

    ghost function ExecState(): State
      reads this, parameters
    {
      State(parameters.bindings, currentPutDataParam, values, executions, infoPosted)
    }

    ghost function CursorState(): Cursor
      requires resultSet != null
      reads this, resultSet
    {
      Cursor(resultSet.position, eof, rowCountPerSelect)
    }

    /** The fetch the statement's attributes and bindings ask for. */
    ghost function FetchRequest(): Fetch
      requires resultSet != null
      reads this, fetchBindings
    {
      Fetch(fetchBindings.bindings, resultSet.defaults, rowSize, rowStatusPtr, rowCountPerFetchPtr,
            resultSet.rows, maxRowsPerSelect, rowArraySize)
    }

    // ----- setValue ----------------------------------------------------------------------

    /** Puts the terminator behind a piece of text; a wide one on an even offset. */
    method Terminate(t: CType, at: nat, piece: seq<byte>, ghost before: seq<Cell>)
      requires t.CChar? || t.CWide?
      requires at + Max(|piece|, |Image(t, piece, true)|) <= |before| == mem.Length
      requires mem[..] == Write(before, at, Octets(piece))
      modifies mem
      ensures mem[..] == Write(before, at, Image(t, piece, true))
    {
      var k := |piece|;
      if t.CChar? {
        TextTerminated(before, at, piece);
        mem[at + k] := Octet(0);
      } else {
        WideTerminated(before, at, piece);
        mem[at + k / 2 * 2] := Octet(0);
        mem[at + k / 2 * 2 + 1] := Octet(0);
      }
    }

    static lemma TextTerminated(m: seq<Cell>, at: nat, piece: seq<byte>)
      requires at + |piece| + 1 <= |m|
      ensures Write(m, at, Octets(piece))[at + |piece| := Octet(0)] == Write(m, at, Image(CChar, piece, true))
    {
      assert Image(CChar, piece, true) == Octets(piece) + [Octet(0)];
    }

    static lemma WideTerminated(m: seq<Cell>, at: nat, piece: seq<byte>)
      requires at + |piece| <= |m| && at + |piece| / 2 * 2 + 2 <= |m|
      ensures var w := |piece| / 2 * 2;
        Write(m, at, Octets(piece))[at + w := Octet(0)][at + w + 1 := Octet(0)] == Write(m, at, Image(CWide, piece, true))
    {
      assert Image(CWide, piece, true) == Octets(piece[..|piece| / 2 * 2]) + [Octet(0), Octet(0)];
    }

    /** The character, wide and binary arms: moves the piece that fits and, for
        text, terminates it. */
    method MovePiece(b: B.Binding, v: Value, t: CType, at: nat)
      returns (moved: nat, unread: int, offset: nat, exit: RetCode)
      requires t.Streamed() && 0 <= b.bufferLength
      requires var arm := Deliver(b.offset, b.count, b.bufferLength, v, t); at + |arm.image| <= mem.Length
      modifies mem, this`infoPosted
      ensures var arm := Deliver(b.offset, b.count, b.bufferLength, v, t);
        && (moved, unread, offset) == (arm.moved, arm.unread, arm.offset)
        && exit == (if arm.truncated then SqlSuccessWithInfo else SqlSuccess)
        && infoPosted == (old(infoPosted) || arm.truncated)
        && mem[..] == Write(old(mem[..]), at, arm.image)
    {
      hide Image, Octets, Stream, Write, Surviving;
      var data := Stream(v, t);
      unread := |data| - b.offset;
      var maxlen := Min(b.bufferLength - Terminator(t), unread);
      var piece := [];
      exit := SqlSuccess;
      if unread <= 0 || maxlen < 0 {
        maxlen := 0;
      } else {
        piece := data[b.offset..b.offset + maxlen];
        if maxlen != unread {
          exit := SqlSuccessWithInfo;
          infoPosted := true;
        }
      }
      moved := maxlen;
      ghost var before := mem[..];
      PieceFitsImage(t, piece, b.count == 0);
      Copy(mem, at, Octets(piece));
      if b.offset + moved > |data| && b.count == 0 {
        offset := 0;
      } else {
        offset := b.offset + moved;
      }
      if !t.CBinary? && (moved > 0 || b.count == 0) {
        Terminate(t, at, piece, before);
      }
    }

    lemma PieceFitsImage(t: CType, piece: seq<byte>, firstCall: bool)
      requires t.Streamed()
      ensures |piece| <= |Image(t, piece, firstCall)|
      ensures piece == [] ==> Octets(piece) == []
      ensures t.CBinary? || (piece == [] && !firstCall) ==> Image(t, piece, firstCall) == Octets(piece)
      ensures !t.CBinary? && (piece != [] || firstCall) ==> Image(t, piece, firstCall) == Image(t, piece, true)
      ensures |Octets(piece)| == |piece|
    {
    }

    /** `setValue` for column `n` of `bs` and array element `row`: the value goes to
        memory, the position and the indicator are brought up to date. */
    method SetValue(bs: B.Bindings, n: pos, v: Value, default: CType, indicatorIsRemaining: bool, row: nat, rowSize: nat)
      returns (code: RetCode)
      requires n <= |bs.bindings|
      requires var b := bs.At(n); var t := b.cType.OrDefault(default);
        HasRoom(mem.Length, ValueTransfer.SetValue(b, v, t, indicatorIsRemaining),
                DataAddress(b, t, row, rowSize), IndicatorAddress(b, row, rowSize))
      modifies bs, mem, this`infoPosted
      ensures var b := old(bs.At(n)); var t := b.cType.OrDefault(default);
        var r := ValueTransfer.SetValue(b, v, t, indicatorIsRemaining);
        && mem[..] == Stored(old(mem[..]), r, DataAddress(b, t, row, rowSize), IndicatorAddress(b, row, rowSize))
        && bs.bindings == (if r.Moved? then old(bs.bindings)[n - 1 := r.after] else old(bs.bindings))
        && infoPosted == (old(infoPosted) || r.Rejected? || r.truncated)
        && code == (if r.Rejected? then SqlError else Outcome(infoPosted, r.exit))
    {
      hide Image, Octets, Stream, Write, Surviving;
      var b := bs.At(n);
      var t := b.cType.OrDefault(default);
      var data, indicatorPtr := DataAddress(b, t, row, rowSize), IndicatorAddress(b, row, rowSize);
      var moved, unread, offset, exit;
      if t.Streamed() {
        if b.bufferLength < 0 {
          infoPosted := true;
          return SqlError;
        }
        moved, unread, offset, exit := MovePiece(b, v, t, data);
      } else if t.CFixed? {
        Copy(mem, data, Number(v.scalar, t.size));
        moved, unread, offset, exit := t.size, t.size, b.offset, SqlSuccess;
      } else {
        infoPosted := true;
        return SqlError;
      }
      b := b.(offset := offset);
      var remaining := unread;
      if v.isNull {
        remaining, moved := SQL_NULL_DATA, 0;
      } else if moved == 0 && b.count > 0 {
        exit := SqlNoData;
        b := b.Reset();
      } else {
        b := b.(count := b.count + 1);
      }
      bs.Update(n, b);
      if indicatorPtr != NULL {
        Copy(mem, indicatorPtr, Number(if v.isNull || indicatorIsRemaining then remaining else moved, SIZEOF_SQLLEN));
      }
      code := Outcome(infoPosted, exit);
    }

    // ----- sqlGetData --------------------------------------------------------------------

    method SqlGetData(column: pos, cType: CType, pointer: nat, bufferLength: int, indicatorPointer: nat) returns (code: RetCode)
      requires Valid() && resultSet != null && 1 <= resultSet.position && column <= |resultSet.defaults|
      requires var row := resultSet.rows[resultSet.position - 1];
        var r := PartwiseRead.GetData(getDataBindings.bindings, column, cType, resultSet.defaults[column - 1],
                                      pointer, bufferLength, indicatorPointer, row[column - 1]).0;
        HasRoom(mem.Length, r, pointer, indicatorPointer)
      modifies getDataBindings, mem, this`infoPosted
      ensures Valid()
      ensures var row := resultSet.rows[resultSet.position - 1];
        var (r, bs) := PartwiseRead.GetData(old(getDataBindings.bindings), column, cType, resultSet.defaults[column - 1],
                                            pointer, bufferLength, indicatorPointer, row[column - 1]);
        && code == PartwiseRead.Code(r) && getDataBindings.bindings == bs
        && mem[..] == Stored(old(mem[..]), r, pointer, indicatorPointer)
    {
      hide ValueTransfer.SetValue, Stored, HasRoom;
      infoPosted := false;
      getDataBindings.Resize(column);
      var b := getDataBindings.At(column);
      b := b.(cType := cType, pointer := pointer, bufferLength := bufferLength, indicatorPointer := indicatorPointer);
      getDataBindings.Update(column, b);
      code := SetValue(getDataBindings, column, resultSet.rows[resultSet.position - 1][column - 1],
                       resultSet.defaults[column - 1], true, 0, SQL_BIND_BY_COLUMN);
    }

    // ----- sqlFetch ----------------------------------------------------------------------

    /** Fetch bindings as a fetch of `f` leaves them: configured as in `f`, wherever they stand. */
    ghost predicate Configured(f: Fetch)
      reads fetchBindings
    {
      && |fetchBindings.bindings| == |f.bindings|
      && forall i :: 0 <= i < |f.bindings| ==> fetchBindings.bindings[i].Reset() == f.bindings[i].Reset()
    }

    /** The column loop for array element `rowCountPerFetch`: every bound column gets
        its value of the current row. */
    method PlaceColumns(ghost f: Fetch) returns (ok: bool)
      requires Valid() && resultSet != null && 1 <= resultSet.position
      requires Configured(f) && f.rows == resultSet.rows && f.defaults == resultSet.defaults && f.rowSize == rowSize
      requires f.Shaped() && f.FitsIn(mem.Length) && rowCountPerFetch < f.size
      modifies fetchBindings, mem, this`infoPosted
      ensures Valid() && Configured(f)
      ensures Placement(mem[..], ok, infoPosted) ==
        f.PlaceRow(old(mem[..]), resultSet.rows[resultSet.position - 1], rowCountPerFetch, 0, old(infoPosted))
    {
      hide ValueTransfer.SetValue, Write, Stored, HasRoom, Fetch.PlaceRow, Fetch.FitsIn;
      fetchBindings.Reset();
      var row := resultSet.rows[resultSet.position - 1];
      var n := 1;
      while n <= |fetchBindings.bindings|
        invariant 1 <= n <= |f.bindings| + 1 && Configured(f) && Valid()
        invariant forall i :: n - 1 <= i < |f.bindings| ==> fetchBindings.bindings[i] == f.bindings[i].Reset()
        invariant f.PlaceRow(mem[..], row, rowCountPerFetch, n - 1, infoPosted) ==
                  f.PlaceRow(old(mem[..]), row, rowCountPerFetch, 0, old(infoPosted))
      {
        var b := fetchBindings.At(n);
        PlaceRowStep(f, mem[..], row, rowCountPerFetch, n - 1, infoPosted);
        if b.pointer != NULL && b.direction != SQL_PARAM_INPUT {
          assert f.Active(n - 1);
          var code := SetValue(fetchBindings, n, row[n - 1], resultSet.defaults[n - 1], false, rowCountPerFetch, rowSize);
          if code == SqlError {
            return false;
          }
        }
        n := n + 1;
      }
      PlaceRowStep(f, mem[..], row, rowCountPerFetch, n - 1, infoPosted);
      ok := true;
    }

    /** All statuses to no-data before the first row. */
    method ClearStatusArray(ghost f: Fetch)
      requires f.statusPtr == rowStatusPtr && f.size == rowArraySize && f.FitsIn(mem.Length)
      modifies mem
      ensures mem[..] == f.ClearStatus(old(mem[..]), f.size)
    {
      if rowStatusPtr != NULL {
        for row := 0 to rowArraySize
          invariant mem[..] == f.ClearStatus(old(mem[..]), row)
        {
          assert f.Fits(Status(row), mem.Length);
          Copy(mem, rowStatusPtr + SIZEOF_SQLUSMALLINT * row, Number(SQL_ROW_NO_DATA, SIZEOF_SQLUSMALLINT));
        }
      } else {
        NoStatusArray(f, mem[..], f.size);
      }
    }

    /** The status of the row just placed and the count of rows fetched. */
    method AccountForRow(ghost f: Fetch)
      requires f.statusPtr == rowStatusPtr && f.countPtr == rowCountPerFetchPtr && f.FitsIn(mem.Length)
      requires rowCountPerFetch < f.size
      modifies mem, this`rowCountPerFetch, this`rowCountPerSelect
      ensures mem[..] == f.Account(old(mem[..]), old(rowCountPerFetch))
      ensures rowCountPerFetch == old(rowCountPerFetch) + 1 && rowCountPerSelect == old(rowCountPerSelect) + 1
    {
      hide Write;
      assert f.Fits(Status(rowCountPerFetch), mem.Length) && f.Fits(Counter, mem.Length);
      if rowStatusPtr != NULL {
        Copy(mem, rowStatusPtr + SIZEOF_SQLUSMALLINT * rowCountPerFetch, Number(SQL_ROW_SUCCESS, SIZEOF_SQLUSMALLINT));
      }
      rowCountPerFetch := rowCountPerFetch + 1;
      rowCountPerSelect := rowCountPerSelect + 1;
      if rowCountPerFetchPtr != NULL {
        Copy(mem, rowCountPerFetchPtr, Number(rowCountPerFetch, SIZEOF_SQLLEN));
      }
    }

    /** One pass of the row loop: `got` a row, and `ok` could place all of it. */
    method FetchRow(ghost f: Fetch) returns (got: bool, ok: bool)
      requires Valid() && resultSet != null && Configured(f)
      requires f.rows == resultSet.rows && f.defaults == resultSet.defaults && f.rowSize == rowSize && f.cap == maxRowsPerSelect
      requires f.statusPtr == rowStatusPtr && f.countPtr == rowCountPerFetchPtr
      requires f.Shaped() && f.FitsIn(mem.Length) && rowCountPerFetch < f.size
      modifies this`rowCountPerFetch, this`rowCountPerSelect, this`eof, this`infoPosted
      modifies fetchBindings, getDataBindings, mem, resultSet
      ensures Valid() && Configured(f)
      ensures var c := old(CursorState());
        && got == !AtEnd(c, |f.rows|, f.cap)
        && (!got ==>
             && CursorState() == c.(eof := true) && mem[..] == old(mem[..]) && infoPosted == old(infoPosted)
             && rowCountPerFetch == old(rowCountPerFetch) && getDataBindings.bindings == old(getDataBindings.bindings))
        && (got ==>
             var p := f.PlaceRow(old(mem[..]), f.rows[c.position], old(rowCountPerFetch), 0, old(infoPosted));
             && ok == p.ok && infoPosted == p.posted
             && (ok ==>
                  && mem[..] == f.Account(p.mem, old(rowCountPerFetch))
                  && CursorState() == Cursor(c.position + 1, false, c.perSelect + 1)
                  && rowCountPerFetch == old(rowCountPerFetch) + 1
                  && getDataBindings.bindings == B.ResetAll(old(getDataBindings.bindings)))
             && (!ok ==>
                  && mem[..] == p.mem && CursorState() == c.(position := c.position + 1)
                  && rowCountPerFetch == old(rowCountPerFetch) && getDataBindings.bindings == old(getDataBindings.bindings)))
    {
      hide Fetch.PlaceRow, Fetch.Account;
      got, ok := false, false;
      if !(eof || (maxRowsPerSelect > 0 && rowCountPerSelect >= maxRowsPerSelect)) {
        got := resultSet.Next();
      }
      if !got {
        eof := true;
        return;
      }
      ok := PlaceColumns(f);
      if ok {
        getDataBindings.Reset();
        AccountForRow(f);
      }
    }

    /** The row loop. */
    method FetchRows(ghost f: Fetch) returns (code: RetCode)
      requires Valid() && resultSet != null && Configured(f)
      requires f.rows == resultSet.rows && f.defaults == resultSet.defaults && f.rowSize == rowSize && f.cap == maxRowsPerSelect
      requires f.statusPtr == rowStatusPtr && f.countPtr == rowCountPerFetchPtr && f.size == rowArraySize
      requires f.Shaped() && f.FitsIn(mem.Length) && rowCountPerFetch == 0
      modifies this`rowCountPerFetch, this`rowCountPerSelect, this`eof, this`infoPosted
      modifies fetchBindings, getDataBindings, mem, resultSet
      ensures Valid() && Configured(f)
      ensures var r := f.FetchRows(old(mem[..]), old(CursorState()), 0, old(infoPosted));
        && code == r.Code() && mem[..] == r.mem && CursorState() == r.cursor && infoPosted == r.posted
        && rowCountPerFetch == r.count
      ensures getDataBindings.bindings ==
        if rowCountPerFetch > 0 then B.ResetAll(old(getDataBindings.bindings)) else old(getDataBindings.bindings)
    {
      hide Fetch.PlaceRow, Fetch.Account, Fetch.FetchRows, Fetch.FitsIn, Fetch.Shaped, B.ResetAll, Configured, AtEnd;
      B.ResetTwice(getDataBindings.bindings);
      var row := 0;
      while row < rowArraySize
        invariant Valid() && Configured(f) && row == rowCountPerFetch <= f.size
        invariant f.FetchRows(mem[..], CursorState(), row, infoPosted) ==
                  f.FetchRows(old(mem[..]), old(CursorState()), 0, old(infoPosted))
        invariant getDataBindings.bindings ==
                  if row > 0 then B.ResetAll(old(getDataBindings.bindings)) else old(getDataBindings.bindings)
      {
        FetchRowsStep(f, mem[..], CursorState(), row, infoPosted);
        var got, ok := FetchRow(f);
        if !got {
          code := if rowCountPerFetch > 0 then Outcome(infoPosted, SqlSuccess) else SqlNoData;
          return;
        }
        if !ok {
          return SqlError;
        }
        row := row + 1;
      }
      FetchRowsStep(f, mem[..], CursorState(), row, infoPosted);
      code := Outcome(infoPosted, SqlSuccess);
    }

    method SqlFetch() returns (code: RetCode)
      requires Valid()
      requires resultSet != null ==> FetchRequest().Shaped() && FetchRequest().FitsIn(mem.Length)
      modifies this`rowCountPerFetch, this`rowCountPerSelect, this`eof, this`infoPosted, this`resultSet
      modifies fetchBindings, getDataBindings, mem, resultSet
      ensures Valid()
      ensures old(resultSet) == null ==>
        code == (if old(infoPosted) then SqlSuccessWithInfo else SqlError) && infoPosted && mem[..] == old(mem[..]) && resultSet == null
      ensures old(resultSet) != null && cancel ==>
        code == SqlError && infoPosted && mem[..] == old(mem[..]) && resultSet == null && getDataBindings.bindings == []
      ensures old(resultSet) != null && !cancel ==>
        var r := old(FetchRequest()).Result(old(mem[..]), old(CursorState()), old(infoPosted));
        && resultSet == old(resultSet)
        && code == r.Code() && mem[..] == r.mem && CursorState() == r.cursor && infoPosted == r.posted
        && rowCountPerFetch == r.count && Configured(old(FetchRequest()))
        && getDataBindings.bindings == (if r.count > 0 then B.ResetAll(old(getDataBindings.bindings)) else old(getDataBindings.bindings))
    {
      if resultSet == null {
        code := if infoPosted then SqlSuccessWithInfo else SqlError;
        infoPosted := true;
        return;
      }
      if cancel {
        ReleaseResultSet();
        infoPosted := true;
        return SqlError;
      }
      ghost var f := FetchRequest();
      assert Configured(f);
      hide Fetch.ClearStatus, Fetch.FetchRows, Fetch.FitsIn, Fetch.Shaped, B.ResetAll, Configured;
      ClearStatusArray(f);
      rowCountPerFetch := 0;
      code := FetchRows(f);
    }

    method SqlCancel() returns (code: RetCode)
      modifies this`cancel, this`infoPosted
      ensures cancel && !infoPosted && code == SqlSuccess
    {
      infoPosted := false;
      cancel := true;
      code := SqlSuccess;
    }

    // ----- result sets -------------------------------------------------------------------

    method ReleaseResultSet()
      modifies this`resultSet, getDataBindings
      ensures resultSet == null && getDataBindings.bindings == []
    {
      resultSet := null;
      getDataBindings.Release();
    }

    /** Opens a result set; the count against the row cap goes on from where it was. */
    method SetResultSet(results: ResultSet)
      requires Valid() && results.Valid()
      modifies this`resultSet, this`eof, this`cancel, getDataBindings
      ensures Valid() && resultSet == results && getDataBindings.bindings == [] && !cancel
      ensures CursorState() == Cursor(results.position, false, rowCountPerSelect)
    {
      ReleaseResultSet();
      resultSet := results;
      eof, cancel := false, false;
    }

    /** Closes the server statement, and with it the values it held. */
    method ReleaseStatement()
      modifies this`resultSet, this`prepared, this`paramTypes, this`values, getDataBindings
      ensures !prepared && paramTypes == [] && values == map[] && resultSet == null && getDataBindings.bindings == []
    {
      ReleaseResultSet();
      prepared, paramTypes, values := false, [], map[];
    }

    /** A statement whose result description cannot be had stays in place, though an
        error is returned. */
    method SqlPrepare(reply: PrepareReply) returns (code: RetCode)
      requires Valid()
      modifies this`resultSet, this`prepared, this`paramTypes, this`values, this`infoPosted, getDataBindings
      ensures Valid() && resultSet == null && getDataBindings.bindings == []
      ensures ExecState() == old(ExecState()).(values := map[], infoPosted := !reply.Ready?)
      ensures code == if reply.Ready? then SqlSuccess else SqlError
      ensures if reply.Refused? then !prepared else prepared && paramTypes == reply.types
    {
      infoPosted := false;
      ReleaseStatement();
      if reply.Refused? {
        infoPosted := true;
        return SqlError;
      }
      prepared, paramTypes := true, reply.types;
      if reply.Undescribed? {
        infoPosted := true;
        return SqlError;
      }
      code := SqlSuccess;
    }

    /** A catalog call (`sqlTables`, `sqlColumns`, `sqlGetTypeInfo` and their like): gives
        up the server statement and opens the result, unless the server refuses. */
    method OpenCatalog(results: ResultSet?) returns (code: RetCode)
      requires Valid() && (results != null ==> results.Valid() && results.position == 0)
      modifies this`resultSet, this`prepared, this`paramTypes, this`values, this`infoPosted, this`eof, this`cancel
      modifies getDataBindings
      ensures Valid() && !prepared && resultSet == results && getDataBindings.bindings == []
      ensures results != null ==> code == SqlSuccess && CursorState() == Cursor(0, false, rowCountPerSelect)
      ensures results == null ==> code == SqlError && infoPosted
    {
      infoPosted := false;
      ReleaseStatement();
      if results == null {
        infoPosted := true;
        return SqlError;
      }
      SetResultSet(results);
      code := SqlSuccess;
    }

    /** What `getResultSet` finds: the generated keys, the first time it is asked and if
        they have a column, and otherwise the statement's next result. */
    function NextResult(reply: Reply): ResultSet?
      reads `returnedGeneratedKeys
    {
      if !returnedGeneratedKeys && reply.keys.defaults != [] then reply.keys else reply.next
    }

    /** How `getResultSet` leaves the statement: on the new result, or on the old one
        with end-of-data and the count against the cap forgotten. */
    ghost predicate ResultTaken(before: ResultSet?, result: ResultSet?)
      reads this, result
    {
      && !eof && !cancel && returnedGeneratedKeys && rowCountPerSelect == 0
      && if result != null then resultSet == result && result.position == 0 else resultSet == before
    }

    /** `getResultSet`: generated keys or the next result of the statement, if there is one. */
    method GetResultSet(reply: Reply) returns (results: ResultSet?)
      requires Valid() && prepared && reply.Usable()
      modifies this`resultSet, this`eof, this`cancel, this`returnedGeneratedKeys, this`rowCountPerSelect, getDataBindings
      ensures Valid() && results == old(NextResult(reply))
      ensures results == if !old(returnedGeneratedKeys) && |reply.keys.defaults| > 0 then reply.keys else reply.next
      ensures ResultTaken(old(resultSet), results)
      ensures results != null ==> CursorState() == Opened && getDataBindings.bindings == []
      ensures results == null ==> unchanged(getDataBindings)
    {
      eof, cancel := false, false;
      rowCountPerSelect := 0;
      if !returnedGeneratedKeys {
        returnedGeneratedKeys := true;
        if |reply.keys.defaults| > 0 {
          SetResultSet(reply.keys);
          return resultSet;
        }
      }
      if reply.next == null {
        return null;
      }
      SetResultSet(reply.next);
      results := resultSet;
    }

    /** The next-result request; it does not clear the diagnostics.  Without a server
        statement, as after a catalog call, it changes nothing. */
    method SqlMoreResults(reply: Reply) returns (code: RetCode)
      requires Valid() && reply.Usable()
      modifies this`resultSet, this`eof, this`cancel, this`returnedGeneratedKeys, this`rowCountPerSelect, getDataBindings
      ensures Valid()
      ensures prepared ==>
        && ResultTaken(old(resultSet), old(NextResult(reply)))
        && code == if old(NextResult(reply)) != null then Outcome(infoPosted, SqlSuccess) else SqlNoData
      ensures !prepared ==>
        code == SqlNoData && unchanged(`resultSet, `eof, `cancel, `returnedGeneratedKeys, `rowCountPerSelect, getDataBindings)
    {
      if !prepared {
        return SqlNoData;
      }
      var results := GetResultSet(reply);
      code := if results != null then Outcome(infoPosted, SqlSuccess) else SqlNoData;
    }

    // ----- executing ---------------------------------------------------------------------

    /** `setParameter` with the data at hand. */
    method StoreParameter(n: pos, data: Option<Buffer>, length: int, forceReset: bool) returns (code: RetCode)
      requires n <= |parameters.bindings|
      requires var b := parameters.At(n); Described(TypeOf(b, n, paramTypes), data, length)
      modifies parameters, this`values, this`infoPosted
      ensures var b := old(parameters.At(n));
        var stored := Store(b, TypeOf(b, n, paramTypes), data, length, forceReset);
        && parameters.bindings == old(parameters.bindings)[n - 1 := stored.1]
        && code == (if stored.0.Some? then SqlSuccess else SqlError)
        && values == (if stored.0.Some? then old(values)[n := stored.0.value] else old(values))
        && infoPosted == (old(infoPosted) || stored.0.None?)
    {
      var b := parameters.At(n);
      if data.None? || length == SQL_NULL_DATA {
        values := values[n := NullValue];
      } else {
        match TypeOf(b, n, paramTypes) {
          case CChar =>
            var piece := Bytes(data.value, length);
            b := b.(accumulator := if forceReset then [] + piece else b.accumulator + piece);
            values := values[n := Text(b.accumulator)];
          case CBinary =>
            var piece := data.value.bytes[..length];
            b := b.(accumulator := if forceReset then [] + piece else b.accumulator + piece);
            values := values[n := Blob(b.accumulator)];
          case CFixed(_) =>
            values := values[n := Scalar(data.value.scalar)];
          case _ =>
            infoPosted := true;
            parameters.Update(n, b);
            return SqlError;
        }
      }
      parameters.Update(n, b);
      code := SqlSuccess;
    }

    /** `setParameter` at execution: takes the value from the application, or notes how much is owed. */
    method SetParameter(n: pos, app: App) returns (code: RetCode)
      requires n <= |parameters.bindings| && parameters.At(n).direction != SQL_PARAM_OUTPUT
      requires
        var b := parameters.At(n);
        AtExecution(Declared(b, app)) || Described(TypeOf(b, n, paramTypes), app.At(b.pointer), Declared(b, app))
      modifies parameters, this`values, this`infoPosted
      ensures var h := DataAtExecution.SetParameter(old(parameters.At(n)), n, paramTypes, app);
        && !h.Skipped? && parameters.bindings == old(parameters.bindings)[n - 1 := h.after]
        && code == (match h case Awaiting(_) => SqlNeedData case Refused(_) => SqlError case _ => SqlSuccess)
        && values == (if h.Given? then old(values)[n := h.value] else old(values))
        && infoPosted == h.Refused?
    {
      infoPosted := false;
      var b := parameters.At(n);
      var length := if b.indicatorPointer != 0 then app.lengths(b.indicatorPointer) else b.bufferLength;
      if length == SQL_DATA_AT_EXEC {
        parameters.Update(n, b.(dataAtExecLength := SQL_DATA_AT_EXEC));
        return SqlNeedData;
      } else if length <= SQL_LEN_DATA_AT_EXEC_OFFSET {
        parameters.Update(n, b.(dataAtExecLength := -length + SQL_LEN_DATA_AT_EXEC_OFFSET));
        return SqlNeedData;
      }
      parameters.Update(n, b.(dataAtExecLength := 0));
      code := StoreParameter(n, app.At(b.pointer), length, true);
      assert parameters.bindings == old(parameters.bindings)[n - 1 := parameters.bindings[n - 1]];
    }

    /** Executes the server statement; a failing one is answered by an exception. */
    method DoExecuteStatement(reply: Reply) returns (code: RetCode)
      requires Valid() && prepared && reply.Usable()
      modifies this`executions, this`infoPosted, this`resultSet, this`eof, this`cancel
      modifies this`returnedGeneratedKeys, this`rowCountPerSelect
      modifies getDataBindings, connection`transactionPending
      ensures Valid() && (ExecState(), code) == DoExecute(old(ExecState()), reply.ok)
      ensures connection.TranState() ==
        if reply.ok then TranStep(old(connection.TranState()), Executed).0 else old(connection.TranState())
      ensures reply.ok && reply.hasResult ==> ResultTaken(old(resultSet), old(NextResult(reply)))
      ensures !(reply.ok && reply.hasResult) ==>
        unchanged(`resultSet, `eof, `cancel, `returnedGeneratedKeys, `rowCountPerSelect, getDataBindings)
    {
      executions := executions + [Execution(values, reply.ok)];
      if !reply.ok {
        infoPosted := true;
        return SqlError;
      }
      connection.TransactionStarted();
      if reply.hasResult {
        var _ := GetResultSet(reply);
      }
      code := Outcome(infoPosted, SqlSuccess);
    }

    /** The parameter loop of `executeStatement`. */
    method SetParameters(app: App) returns (code: RetCode)
      requires InputsDescribed(parameters.bindings, paramTypes, app) && !infoPosted
      requires parameters.bindings == B.ResetAll(parameters.bindings)
      modifies parameters, this`values, this`infoPosted
      ensures Inputs(parameters.bindings, values, code) ==
        SetInputs(Handlings(old(parameters.bindings), paramTypes, app), 0, old(parameters.bindings), old(values), SqlSuccess)
      ensures infoPosted == (code == SqlError)
    {
      ghost var hs := Handlings(parameters.bindings, paramTypes, app);
      code := SqlSuccess;
      var n := 1;
      while n <= Min(|paramTypes|, |parameters.bindings|)
        invariant 1 <= n <= |hs| + 1 && |parameters.bindings| == old(|parameters.bindings|)
        invariant forall i :: n - 1 <= i < |parameters.bindings| ==> parameters.bindings[i] == old(parameters.bindings)[i]
        invariant SetInputs(hs, n - 1, parameters.bindings, values, code) ==
                  SetInputs(hs, 0, old(parameters.bindings), old(values), SqlSuccess)
        invariant code != SqlError && !infoPosted
      {
        hide DataAtExecution.SetParameter;
        if parameters.At(n).direction != SQL_PARAM_OUTPUT {
          var c := SetParameter(n, app);
          if c == SqlError {
            return SqlError;
          } else if c == SqlNeedData {
            code := SqlNeedData;
          }
        }
        n := n + 1;
      }
    }

    method SqlExecute(app: App, reply: Reply) returns (code: RetCode)
      requires Valid() && prepared && reply.Usable()
      requires InputsDescribed(parameters.bindings, paramTypes, app)
      modifies parameters, this`values, this`currentPutDataParam
      modifies this`executions, this`infoPosted, this`resultSet, this`eof, this`cancel
      modifies this`returnedGeneratedKeys, this`rowCountPerSelect
      modifies getDataBindings, connection`transactionPending
      ensures Valid() && (ExecState(), code) == Execute(old(ExecState()), paramTypes, app, reply.ok)
      ensures connection.TranState() ==
        if code == SqlSuccess then TranStep(old(connection.TranState()), Executed).0 else old(connection.TranState())
      ensures code == SqlSuccess && reply.hasResult ==> ResultTaken(old(resultSet), old(NextResult(reply)))
      ensures !(code == SqlSuccess && reply.hasResult) ==>
        unchanged(`resultSet, `eof, `cancel, `returnedGeneratedKeys, `rowCountPerSelect, getDataBindings)
    {
      hide TranStep, OdbcStatement.ResultTaken, OdbcStatement.NextResult;
      hide SetInputs, DataAtExecution.SetParameter, Store, Handlings;
      infoPosted := false;
      currentPutDataParam := 1;
      parameters.Reset();
      B.ResetTwice(old(parameters.bindings));
      code := SetParameters(app);
      if code == SqlSuccess {
        code := DoExecuteStatement(reply);
      }
    }

    method SqlPutData(data: Option<Buffer>, length: int) returns (code: RetCode)
      requires PieceDescribed(ExecState(), paramTypes, data, length)
      modifies parameters, this`values, this`infoPosted
      ensures (ExecState(), code) == PutData(old(ExecState()), paramTypes, data, length)
    {
      if currentPutDataParam < 1 {
        infoPosted := true;
        return SqlError;
      }
      var n: pos := currentPutDataParam;
      var b := parameters.At(n);
      if b.dataAtExecLength == 0 {
        infoPosted := true;
        return SqlError;
      }
      var remaining := if b.dataAtExecLength == SQL_DATA_AT_EXEC then length else b.dataAtExecLength;
      var taken := if length == SQL_NTS then SQL_NTS else Min(remaining, length);
      code := StoreParameter(n, data, taken, b.count == 0);
      b := parameters.At(n);
      b := b.(count := b.count + 1, dataAtExecLength := if length == SQL_NTS then 0 else remaining - taken);
      parameters.Update(n, b);
      assert parameters.bindings == old(parameters.bindings)[n - 1 := b];
      if taken < length {
        infoPosted := true;
        code := SqlSuccessWithInfo;
      }
    }

    /** The loop of `sqlParamData`: moves to the first parameter that owes data. */
    method FindOwing()
      requires 1 <= currentPutDataParam
      modifies this`currentPutDataParam
      ensures currentPutDataParam == FirstOwing(parameters.bindings, old(currentPutDataParam))
    {
      while currentPutDataParam <= |parameters.bindings|
        invariant 1 <= currentPutDataParam
        invariant FirstOwing(parameters.bindings, currentPutDataParam) == FirstOwing(parameters.bindings, old(currentPutDataParam))
        decreases |parameters.bindings| + 1 - currentPutDataParam
      {
        if parameters.At(currentPutDataParam).dataAtExecLength != 0 {
          return;
        }
        currentPutDataParam := currentPutDataParam + 1;
      }
    }

    /** `prompt` is the buffer address the application is asked about. */
    method SqlParamData(reply: Reply) returns (code: RetCode, prompt: nat)
      requires Valid() && prepared && reply.Usable()
      requires 1 <= currentPutDataParam
      modifies this`currentPutDataParam
      modifies this`executions, this`infoPosted, this`resultSet, this`eof, this`cancel
      modifies this`returnedGeneratedKeys, this`rowCountPerSelect
      modifies getDataBindings, connection`transactionPending
      ensures Valid() && (ExecState(), code) == ParamData(old(ExecState()), reply.ok)
      ensures code == SqlNeedData ==> prompt == parameters.At(currentPutDataParam).pointer
      ensures connection.TranState() ==
        if code == SqlSuccess then TranStep(old(connection.TranState()), Executed).0 else old(connection.TranState())
      ensures code == SqlSuccess && reply.hasResult ==> ResultTaken(old(resultSet), old(NextResult(reply)))
      ensures !(code == SqlSuccess && reply.hasResult) ==>
        unchanged(`resultSet, `eof, `cancel, `returnedGeneratedKeys, `rowCountPerSelect, getDataBindings)
    {
      hide TranStep, OdbcStatement.ResultTaken, OdbcStatement.NextResult, FirstOwing;
      infoPosted := false;
      prompt := 0;
      FindOwing();
      if currentPutDataParam <= |parameters.bindings| {
        return SqlNeedData, parameters.At(currentPutDataParam).pointer;
      }
      code := DoExecuteStatement(reply);
    }

    method SqlBindParameter(p: Bound, app: App) returns (code: RetCode)
      modifies parameters, this`infoPosted
      ensures (ExecState(), code) == BindParameter(old(ExecState()).(infoPosted := false), paramTypes, p, app)
    {
      infoPosted := false;
      if p.parameter == 0 {
        infoPosted := true;
        return SqlError;
      }
      if p.parameter > |parameters.bindings| {
        parameters.Resize(Max(p.parameter, |paramTypes|));
      }
      if p.cType.CWide? || p.cType.CUnsupported? || p.bufferLength < 0 {
        infoPosted := true;
        return SqlError;
      }
      var b := parameters.At(p.parameter);
      parameters.Update(p.parameter,
        b.(direction := p.direction, cType := p.cType, sqlType := p.sqlType, pointer := p.pointer,
           indicatorPointer := p.lengthPointer, offset := 0, bufferLength := BoundLength(p, app)));
      code := SqlSuccess;
    }

    /** `sqlFreeStmt` with SQL_RESET_PARAMS. */
    method ResetParameters() returns (code: RetCode)
      modifies parameters, this`infoPosted
      ensures ExecState() == old(ExecState()).(parameters := [], infoPosted := false) && code == SqlSuccess
    {
      infoPosted := false;
      parameters.Release();
      code := SqlSuccess;
    }
  }
}

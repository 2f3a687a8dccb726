/** Reading a long value in parts: runs of `OdbcStatement::sqlGetData` calls. */
module PartwiseRead {
  import opened Odbc
  import opened Bindings
  import opened Memory
  import opened ValueTransfer

  // ----- one column ------------------------------------------------------------------

  /** One call on a value, given the buffer length. */
  function Call(b: Binding, v: Value, t: CType, bufferLength: nat): Transfer
  {
    SetValue(b.(bufferLength := bufferLength), v, t, true)
  }

  /** The return code the application sees: `sqlGetData` clears the diagnostics first. */
  function Code(r: Transfer): RetCode
  {
    if r.Rejected? then SqlError else Outcome(r.truncated, r.exit)
  }

  /** The binding after a run of reads of one value with the given buffer lengths. */
  function PositionAfter(start: Binding, v: Value, t: CType, buffers: Run<nat>): Binding
    requires t.Streamed()
  {
    match buffers
    case Start => start
    case Then(earlier, n) => Call(PositionAfter(start, v, t, earlier), v, t, n).after
  }

  /** What stands behind the data in the buffer. */
  function Tail(t: CType): seq<byte>
    requires t.Streamed()
  {
    match t case CChar => [0] case CWide => [0, 0] case CBinary => []
  }

  /** What the application finds in its buffer in front of the terminator. */
  function Payload(t: CType, image: seq<Cell>): seq<byte>
    requires t.Streamed()
  {
    var k := |image| - |Tail(t)|;
    if k <= 0 then []
    else seq(k, i requires 0 <= i < k => if image[i].Octet? then image[i].b else 0)
  }

  lemma PayloadOf(t: CType, data: seq<byte>)
    requires t.Streamed()
    ensures Payload(t, Octets(data + Tail(t))) == data && Payload(t, []) == []
  {
  }

  /** What the application has put together from its buffer after each call of a run. */
  function Collected(start: Binding, v: Value, t: CType, buffers: Run<nat>): seq<byte>
    requires t.Streamed()
  {
    match buffers
    case Start => []
    case Then(earlier, n) =>
      Collected(start, v, t, earlier) + Payload(t, Call(PositionAfter(start, v, t, earlier), v, t, n).image)
  }

  /** No call of the run has returned SQL_NO_DATA. */
  predicate Unfinished(start: Binding, v: Value, t: CType, buffers: Run<nat>)
    requires t.Streamed()
  {
    match buffers
    case Start => true
    case Then(earlier, n) =>
      Unfinished(start, v, t, earlier) && Code(Call(PositionAfter(start, v, t, earlier), v, t, n)) != SqlNoData
  }

  function Unit(t: CType): nat { if t.CWide? then 2 else 1 }

  /** `k` bytes are whole units. */
  predicate Whole(t: CType, k: nat) { t.CWide? ==> k % 2 == 0 }

  /** Room for one unit beside the terminator; the first call may be a pure length probe. */
  predicate Adequate(t: CType, first: bool, bufferLength: nat)
    requires t.Streamed()
  {
    && Terminator(t) + (if first then 0 else Unit(t)) <= bufferLength
    && Whole(t, bufferLength)
  }

  predicate AllAdequate(t: CType, buffers: Run<nat>)
    requires t.Streamed()
  {
    buffers.Then? ==> AllAdequate(t, buffers.earlier) && Adequate(t, buffers.earlier.Start?, buffers.last)
  }

  /** A run the driver supports: a fresh binding, a value of whole units that is
      not NULL, adequate buffers. */
  predicate Readable(start: Binding, v: Value, t: CType, buffers: Run<nat>)
  {
    && t.Streamed() && start.AtStart() && AllAdequate(t, buffers)
    && !v.isNull && Whole(t, |Stream(v, t)|)
  }

  /** The arithmetic of an adequate buffer. */
  lemma AdequatePiece(t: CType, first: bool, unread: nat, n: nat)
    requires t.Streamed() && Adequate(t, first, n) && Whole(t, unread)
    ensures var m := PieceLength(unread, n, Terminator(t));
      && m <= unread && Whole(t, m)
      && (unread > 0 && !first ==> m > 0)
      && (Truncates(unread, n, Terminator(t)) <==> m != unread)
      && (t.CWide? ==> m / 2 * 2 == m)
  {
  }

  /** An image is the bytes that survive and the terminator, or nothing at all. */
  lemma ImageIs(t: CType, piece: seq<byte>, first: bool)
    requires t.Streamed() && (t.CWide? ==> |piece| / 2 * 2 == |piece|)
    ensures Image(t, piece, first) == if t.CBinary? || piece != [] || first then Octets(piece + Tail(t)) else []
  {
    assert piece[..|piece|] == piece;
    assert Octets(piece) + Octets(Tail(t)) == Octets(piece + Tail(t));
    if t.CBinary? {
      assert piece + [] == piece;
    }
  }

  /** The arm of a piece-wise type, unfolded. */
  lemma ArmIs(offset: nat, count: nat, n: nat, v: Value, t: CType)
    requires t.Streamed() && offset <= |Stream(v, t)|
    ensures var arm := Deliver(offset, count, n, v, t); var unread := |Stream(v, t)| - offset;
      var m := PieceLength(unread, n, Terminator(t));
      && m <= unread && arm.Arm? && arm.moved == m && arm.unread == unread && arm.offset == offset + m
      && arm.truncated == Truncates(unread, n, Terminator(t))
      && arm.image == Image(t, Stream(v, t)[offset..offset + m], count == 0)
  {
    hide Stream, Image, Terminator;
    assert Stream(v, t)[offset..offset] == [];
  }

  lemma OctetsJoin(a: seq<byte>, b: seq<byte>)
    ensures Octets(a) + Octets(b) == Octets(a + b)
  {
  }

  /** What an adequate call moves, before it is counted. */
  lemma AdequateArm(b: Binding, v: Value, t: CType, n: nat)
    requires t.Streamed() && Whole(t, |Stream(v, t)|)
    requires Adequate(t, b.count == 0, n)
    requires b.offset <= |Stream(v, t)| && Whole(t, b.offset)
    ensures var arm := Deliver(b.offset, b.count, n, v, t); var data := Stream(v, t);
      && arm.Arm? && arm.unread == |data| - b.offset && arm.offset == b.offset + arm.moved <= |data|
      && (arm.truncated <==> arm.moved != arm.unread)
      && Whole(t, arm.moved) && (arm.unread > 0 && b.count > 0 ==> arm.moved > 0)
      && arm.image == (if t.CBinary? || arm.moved > 0 || b.count == 0 then Octets(data[b.offset..arm.offset] + Tail(t)) else [])
  {
    hide PieceLength, Truncates, Stream, Image, Octets, Tail, Deliver, Terminator, Adequate;
    ArmIs(b.offset, b.count, n, v, t);
    AdequatePiece(t, b.count == 0, |Stream(v, t)| - b.offset, n);
    var m := PieceLength(|Stream(v, t)| - b.offset, n, Terminator(t));
    var piece := Stream(v, t)[b.offset..b.offset + m];
    assert |piece| == m;
    ImageIs(t, piece, b.count == 0);
  }

  /** One adequate call from a position inside the value: it stores the bytes from its
      position to the next one, with the terminator behind them. */
  lemma AdequateCall(b: Binding, v: Value, t: CType, n: nat)
    requires t.Streamed() && !v.isNull && Whole(t, |Stream(v, t)|)
    requires Adequate(t, b.count == 0, n)
    requires b.offset <= |Stream(v, t)| && Whole(t, b.offset)
    ensures var r := Call(b, v, t, n); var data := Stream(v, t);
      && r.Moved?
      && r.indicator == |data| - b.offset
      && (Code(r) == SqlNoData <==> b.count > 0 && b.offset == |data|)
      && (Code(r) == SqlNoData ==> r.image == [] && r.after.AtStart())
      && (Code(r) != SqlNoData ==>
           && r.after.count == b.count + 1
           && b.offset <= r.after.offset <= |data|
           && Whole(t, r.after.offset)
           && r.image == Octets(data[b.offset..r.after.offset] + Tail(t))
           && (b.count > 0 ==> b.offset < r.after.offset)
           && (Code(r) == SqlSuccess <==> r.after.offset == |data|))
  {
    hide Deliver, Octets;
    AdequateArm(b, v, t, n);
    if t.CBinary? {
      assert Stream(v, t)[b.offset..b.offset] + Tail(t) == [];
      NoOctets();
    }
  }

  lemma NoOctets()
    ensures Octets([]) == []
  {
  }

  /** The state of an unfinished run: the position is what has been collected, and
      every call but the first has moved it. */
  lemma {:induction false} RunInvariant(start: Binding, v: Value, t: CType, buffers: Run<nat>)
    requires Readable(start, v, t, buffers) && Unfinished(start, v, t, buffers)
    ensures var b := PositionAfter(start, v, t, buffers); var data := Stream(v, t);
      && b.count == buffers.Length()
      && b.offset <= |data| && Whole(t, b.offset)
      && Collected(start, v, t, buffers) == data[..b.offset]
      && buffers.Length() <= b.offset + 1
  {
    match buffers
    case Start =>
    case Then(earlier, n) =>
      RunInvariant(start, v, t, earlier);
      var b := PositionAfter(start, v, t, earlier);
      var next := PositionAfter(start, v, t, buffers).offset;
      AdequateCall(b, v, t, n);
      PayloadOf(t, Stream(v, t)[b.offset..next]);
      JoinSlices(Stream(v, t), b.offset, next);
  }

  lemma JoinSlices<T>(s: seq<T>, i: nat, j: nat)
    requires i <= j <= |s|
    ensures s[..i] + s[i..j] == s[..j]
  {
  }

  /** The next call after an unfinished run, and what it adds. */
  lemma NextCall(start: Binding, v: Value, t: CType, buffers: Run<nat>, n: nat) returns (added: seq<byte>)
    requires Readable(start, v, t, Then(buffers, n)) && Unfinished(start, v, t, buffers)
    ensures var got := Collected(start, v, t, buffers); var data := Stream(v, t);
      var r := Call(PositionAfter(start, v, t, buffers), v, t, n);
      && got <= data
      && r.Moved? && r.indicator == |data| - |got|
      && (Code(r) == SqlNoData <==> buffers.Then? && got == data)
      && (Code(r) == SqlNoData ==> r.after.AtStart() && r.image == [])
      && (Code(r) != SqlNoData ==>
            && r.image == Octets(added + Tail(t)) && got + added <= data && (buffers.Then? ==> added != []))
      && (Code(r) == SqlSuccess <==> Code(r) != SqlNoData && got + added == data)
  {
    hide Octets, Payload, Call, Stream, Tail;
    RunInvariant(start, v, t, buffers);
    var b := PositionAfter(start, v, t, buffers);
    AdequateCall(b, v, t, n);
    var data := Stream(v, t);
    var r := Call(b, v, t, n);
    assert data[..|data|] == data;
    added := [];
    if Code(r) != SqlNoData {
      added := data[b.offset..r.after.offset];
      JoinSlices(data, b.offset, r.after.offset);
      assert |data[..r.after.offset]| == r.after.offset;
    }
  }

  /** Reassembly.  After any unfinished run, for the next call: what was collected from
      the buffer is a prefix of the value, the indicator is the length still unread,
      SQL_NO_DATA is returned exactly when the whole value had been collected (by at
      least one call), and then the binding is back at its start; SQL_SUCCESS is returned
      exactly when this call completes the value; any call but the SQL_NO_DATA one stores
      what it adds with the terminator behind it, and any but that and the first adds
      something. */
  lemma Reassembly(start: Binding, v: Value, t: CType, buffers: Run<nat>, n: nat)
    requires Readable(start, v, t, Then(buffers, n)) && Unfinished(start, v, t, buffers)
    ensures var got := Collected(start, v, t, buffers);
      var data := if t.CChar? then CString(v.text) else if t.CWide? then v.wide else v.blob;
      var r := Call(PositionAfter(start, v, t, buffers), v, t, n);
      && got <= data
      && r.Moved? && r.indicator == |data| - |got|
      && (Code(r) == SqlNoData <==> buffers.Then? && got == data)
      && (Code(r) == SqlNoData ==> r.after.AtStart() && r.image == [])
      && (Code(r) != SqlNoData ==>
           exists added :: r.image == Octets(added + Tail(t)) && got + added <= data && (buffers.Then? ==> added != []))
      && (Code(r) == SqlSuccess <==> Code(r) != SqlNoData && got + Payload(t, r.image) == data)
  {
    hide Octets, Payload, Call, CString, Tail, Stream, Readable;
    var added := NextCall(start, v, t, buffers, n);
    StreamIs(v);
    PayloadOf(t, added) by { ReadableIs(start, v, t, Then(buffers, n)); }
    ReadableIs(start, v, t, Then(buffers, n));
  }

  lemma ReadableIs(start: Binding, v: Value, t: CType, buffers: Run<nat>)
    requires Readable(start, v, t, buffers)
    ensures t.Streamed() && !v.isNull
  {
  }

  /** Every run of adequate calls ends: at most one more call than there are
      bytes can go by without SQL_NO_DATA. */
  lemma RunsEnd(start: Binding, v: Value, t: CType, buffers: Run<nat>)
    requires Readable(start, v, t, buffers)
    requires buffers.Length() > |Stream(v, t)| + 1
    ensures !Unfinished(start, v, t, buffers)
  {
    if Unfinished(start, v, t, buffers) {
      RunInvariant(start, v, t, buffers);
      assert false;
    }
  }

  /** Why later calls need room: inside a value a call moves the position forward
      exactly when its buffer is longer than the terminator.  A shorter buffer is
      answered as if the value were at its end; one that holds the terminator alone - a
      repeated length probe - is answered as a truncation.  Both deliver nothing and
      lose the position. */
  lemma ProgressExactlyWithRoom(b: Binding, v: Value, t: CType, n: nat)
    requires t.Streamed() && !v.isNull
    requires b.count > 0 && b.offset < |Stream(v, t)|
    ensures var r := Call(b, v, t, n);
      && r.Moved?
      && (b.offset < r.after.offset <==> n > Terminator(t))
      && (Code(r) == SqlNoData <==> n < Terminator(t))
      && (Code(r) == SqlSuccess <==> n - Terminator(t) >= |Stream(v, t)| - b.offset)
      && (n == Terminator(t) ==> Code(r) == SqlSuccessWithInfo)
      && (n <= Terminator(t) ==> r.after.AtStart() && r.image == [])
  {
  }

  /** After such a call the value is delivered again from its first byte: what the next
      adequate call adds is a prefix of the value, whatever had been collected. */
  lemma LostPositionRepeats(b: Binding, v: Value, t: CType, n: nat, next: nat)
    requires t.Streamed() && !v.isNull && Whole(t, |Stream(v, t)|)
    requires b.count > 0 && b.offset < |Stream(v, t)|
    requires n <= Terminator(t) && next > Terminator(t) && Whole(t, next)
    ensures var data := Stream(v, t); var r := Call(Call(b, v, t, n).after, v, t, next);
      && r.Moved? && r.indicator == |data|
      && r.image == Octets(data[..Min(next - Terminator(t), |data|)] + Tail(t))
  {
    ProgressExactlyWithRoom(b, v, t, n);
    AdequateArm(Call(b, v, t, n).after, v, t, next);
  }

  lemma WidePieceLength(unread: nat, n: nat)
    ensures var m := PieceLength(unread, n, 2);
      && m <= unread && (m == 0 <==> unread == 0 || n <= 2)
      && (m % 2 == 0 <==> n < 2 || (if n - 2 >= unread then unread % 2 == 0 else n % 2 == 0))
  {
  }

  /** Of a wide piece the whole survives exactly when it is even. */
  lemma WidePayload(piece: seq<byte>, first: bool)
    ensures Payload(CWide, Image(CWide, piece, first)) == piece <==> |piece| % 2 == 0
    ensures piece == [] && !first ==> Image(CWide, piece, first) == []
  {
    hide Payload, Octets;
    var kept := piece[..|piece| / 2 * 2];
    PayloadOf(CWide, kept);
    OctetsJoin(kept, Tail(CWide));
    if |piece| % 2 == 0 {
      assert kept == piece;
    } else {
      assert |kept| < |piece|;
    }
  }

  /** Why wide buffers are even.  A wide call hands over whole what its position moves
      over exactly when it moves an even number of bytes: the buffer holds nothing, or
      ends the value on an even rest, or is even itself.  On any call but the first,
      nothing moved means that the position is lost instead. */
  lemma WidePieceWholeExactly(b: Binding, v: Value, n: nat)
    requires !v.isNull && b.offset <= |v.wide|
    ensures var r := Call(b, v, CWide, n); var unread := |v.wide| - b.offset;
      && r.Moved?
      && (b.count == 0 ==>
           && b.offset <= r.after.offset <= |v.wide|
           && (Payload(CWide, r.image) == v.wide[b.offset..r.after.offset] <==>
                 n < 2 || (if n - 2 >= unread then unread % 2 == 0 else n % 2 == 0)))
      && (b.count > 0 && unread > 0 ==>
           (b.offset < r.after.offset <= |v.wide| && Payload(CWide, r.image) == v.wide[b.offset..r.after.offset] <==>
              n > 2 && (if n - 2 >= unread then unread % 2 == 0 else n % 2 == 0)))
      && (b.count > 0 && unread == 0 ==> Code(r) == SqlNoData && r.image == [] && r.after.AtStart())
  {
    hide Image, PieceLength, Payload, Stream, Deliver;
    StreamIs(v);
    var unread := |v.wide| - b.offset;
    var m := PieceLength(unread, n, 2);
    ArmIs(b.offset, b.count, n, v, CWide);
    WidePieceLength(unread, n);
    var piece := v.wide[b.offset..b.offset + m];
    assert |piece| == m;
    WidePayload(piece, b.count == 0);
  }

  /** Room for the terminator is demanded of first calls only: what a call stores fits
      the buffer exactly when the buffer holds the terminator or the call is not the first. */
  lemma StaysInBuffer(b: Binding, v: Value, t: CType, n: nat)
    requires t.Streamed()
    ensures var r := Call(b, v, t, n);
      r.Moved? && (|r.image| <= n <==> n >= Terminator(t) || b.count > 0)
  {
    hide CString;
  }

  /** A NULL is reported as often as it is asked for and never ends a read. */
  lemma NullIsNeverExhausted(b: Binding, v: Value, t: CType, n: nat)
    requires v.isNull && (t.CFixed? || t.Streamed())
    ensures var r := Call(b, v, t, n);
      && r.Moved? && r.indicator == SQL_NULL_DATA && Code(r) == SqlSuccess
      && (t.Streamed() ==> Payload(t, r.image) == []) && r.after.count == b.count
  {
  }

  // ----- many columns ----------------------------------------------------------------

  /** `sqlGetData` on the vector of bindings. */
  function GetData(bs: seq<Binding>, column: pos, t: CType, default: CType, pointer: nat,
                   bufferLength: int, indicatorPointer: nat, v: Value): (Transfer, seq<Binding>)
  {
    var grown := Alloc(bs, column);
    var b := grown[column - 1].(cType := t, pointer := pointer, bufferLength := bufferLength,
                                indicatorPointer := indicatorPointer);
    var r := SetValue(b, v, t.OrDefault(default), true);
    (r, grown[column - 1 := if r.Moved? then r.after else b])
  }

  function PositionOf(bs: seq<Binding>, column: pos): (nat, nat)
  {
    if column <= |bs| then (bs[column - 1].offset, bs[column - 1].count) else (0, 0)
  }

  /** A read of one column keeps the position of every lower column and forgets
      that of every higher one. */
  lemma ReadForgetsHigherColumns(bs: seq<Binding>, column: pos, t: CType, default: CType, pointer: nat,
                                 bufferLength: int, indicatorPointer: nat, v: Value, other: pos)
    ensures var bs' := GetData(bs, column, t, default, pointer, bufferLength, indicatorPointer, v).1;
      && (other < column ==> PositionOf(bs', other) == PositionOf(bs, other))
      && (other > column ==> PositionOf(bs', other) == (0, 0))
  {
  }

  datatype Read = Read(column: pos, cType: CType, pointer: nat, bufferLength: int, indicatorPointer: nat)

  /** A row: its values, and the server's type for each column. */
  datatype Row = Row(values: seq<Value>, defaults: seq<CType>)
  {
    predicate Covers(calls: Run<Read>)
    {
      |values| == |defaults| && (calls.Then? ==> Covers(calls.earlier) && calls.last.column <= |values|)
    }

    /** The C type a read asks for. */
    function Type(read: Read): CType
      requires read.column <= |defaults|
    {
      read.cType.OrDefault(defaults[read.column - 1])
    }

    /** One column is read as one type throughout, into buffers of a possible length; the
        other columns are read as the program likes. */
    predicate ReadsAs(calls: Run<Read>, column: pos, t: CType)
      requires Covers(calls)
    {
      calls.Then? ==>
        && ReadsAs(calls.earlier, column, t)
        && (calls.last.column == column ==> Type(calls.last) == t && 0 <= calls.last.bufferLength)
    }
  }

  function StepOf(bs: seq<Binding>, row: Row, read: Read): (Transfer, seq<Binding>)
    requires read.column <= |row.values| == |row.defaults|
  {
    GetData(bs, read.column, read.cType, row.defaults[read.column - 1], read.pointer, read.bufferLength,
            read.indicatorPointer, row.values[read.column - 1])
  }

  function BindingsAfter(start: seq<Binding>, row: Row, calls: Run<Read>): seq<Binding>
    requires row.Covers(calls)
  {
    match calls
    case Start => start
    case Then(earlier, read) => StepOf(BindingsAfter(start, row, earlier), row, read).1
  }

  /** The buffer lengths used for one column, in order. */
  function Project(calls: Run<Read>, column: pos): Run<nat>
  {
    match calls
    case Start => Start
    case Then(earlier, read) =>
      if read.column == column then Then(Project(earlier, column), Max(0, read.bufferLength))
      else Project(earlier, column)
  }

  predicate ColumnsAscend(calls: Run<Read>)
  {
    calls.Then? && calls.earlier.Then? ==>
      calls.earlier.last.column <= calls.last.column && ColumnsAscend(calls.earlier)
  }

  /** A transfer depends on the binding only through its position and buffer length. */
  lemma PositionDecides(b: Binding, c: Binding, v: Value, t: CType)
    requires (b.offset, b.count, b.bufferLength) == (c.offset, c.count, c.bufferLength)
    ensures var r := SetValue(b, v, t, true); var s := SetValue(c, v, t, true);
      && r.Moved? == s.Moved?
      && (r.Moved? ==>
           && (r.image, r.truncated, r.exit, r.indicator) == (s.image, s.truncated, s.exit, s.indicator)
           && (r.after.offset, r.after.count) == (s.after.offset, s.after.count))
  {
  }

  lemma {:induction false} NoReadsBeyond(calls: Run<Read>, column: pos)
    requires ColumnsAscend(calls) && (calls.Then? ==> calls.last.column < column)
    ensures Project(calls, column) == Start
  {
    if calls.Then? {
      NoReadsBeyond(calls.earlier, column);
    }
  }

  /** One more read of a column that stands where it would stand had it been
      read alone: the same transfer, and the same position afterwards. */
  lemma ReadAlone(bs: seq<Binding>, row: Row, read: Read, alone: Binding)
    requires read.column <= |row.values| == |row.defaults| && row.Type(read).Streamed() && 0 <= read.bufferLength
    requires PositionOf(bs, read.column) == (alone.offset, alone.count)
    ensures var (r, bs') := StepOf(bs, row, read);
      var s := Call(alone, row.values[read.column - 1], row.Type(read), read.bufferLength);
      && r.Moved? && s.Moved?
      && (r.image, r.truncated, r.exit, r.indicator) == (s.image, s.truncated, s.exit, s.indicator)
      && PositionOf(bs', read.column) == (s.after.offset, s.after.count)
  {
    hide Image, PieceLength, Truncates, Stream, Surviving;
    var b := Alloc(bs, read.column)[read.column - 1].(cType := read.cType, pointer := read.pointer,
               bufferLength := read.bufferLength, indicatorPointer := read.indicatorPointer);
    PositionDecides(b, alone.(bufferLength := read.bufferLength), row.values[read.column - 1], row.Type(read));
  }

  /** In a run of reads with non-decreasing column numbers from a fresh row, a column
      that is read as one streamed type stands where it would stand had it been read
      alone, however the other columns are read. */
  lemma {:induction false} ColumnsAreIndependent(start: seq<Binding>, row: Row, calls: Run<Read>, column: pos, t: CType)
    requires row.Covers(calls) && ColumnsAscend(calls) && column <= |row.values|
    requires t.Streamed() && row.ReadsAs(calls, column, t)
    requires forall i :: 0 <= i < |start| ==> start[i].AtStart()
    ensures var alone := PositionAfter(Unbound, row.values[column - 1], t, Project(calls, column));
      PositionOf(BindingsAfter(start, row, calls), column) == (alone.offset, alone.count)
  {
    hide SetValue;
    match calls
    case Start =>
    case Then(earlier, read) =>
      ColumnsAreIndependent(start, row, earlier, column, t);
      var bs := BindingsAfter(start, row, earlier);
      if column == read.column {
        ReadAlone(bs, row, read, PositionAfter(Unbound, row.values[column - 1], t, Project(earlier, column)));
      } else {
        ReadForgetsHigherColumns(bs, read.column, read.cType, row.defaults[read.column - 1], read.pointer,
                                 read.bufferLength, read.indicatorPointer, row.values[read.column - 1], column);
        if column > read.column {
          NoReadsBeyond(calls, column);
        }
      }
  }

  /** Many columns at once.  In any run of reads with non-decreasing columns from a fresh
      row, in which the next read's column is read as one streamed type, that read returns
      what it would return if its column were read alone, so `Reassembly` holds of it. */
  lemma ColumnReassembly(start: seq<Binding>, row: Row, calls: Run<Read>, read: Read)
    requires row.Covers(Then(calls, read)) && ColumnsAscend(Then(calls, read))
    requires row.ReadsAs(Then(calls, read), read.column, row.Type(read))
    requires forall i :: 0 <= i < |start| ==> start[i].AtStart()
    requires Readable(Unbound, row.values[read.column - 1], row.Type(read),
                      Then(Project(calls, read.column), read.bufferLength))
    requires Unfinished(Unbound, row.values[read.column - 1], row.Type(read), Project(calls, read.column))
    ensures var v := row.values[read.column - 1];
      var t := if read.cType.CDefault? then row.defaults[read.column - 1] else read.cType;
      var data := if t.CChar? then CString(v.text) else if t.CWide? then v.wide else v.blob;
      var earlier := Project(calls, read.column);
      var got := Collected(Unbound, v, t, earlier);
      var (r, bs') := StepOf(BindingsAfter(start, row, calls), row, read);
      && got <= data
      && r.Moved? && r.indicator == |data| - |got|
      && (Code(r) == SqlNoData <==> earlier.Then? && got == data)
      && (Code(r) == SqlNoData ==> PositionOf(bs', read.column) == (0, 0) && r.image == [])
      && (Code(r) != SqlNoData ==>
           exists added :: r.image == Octets(added + Tail(t)) && got + added <= data && (earlier.Then? ==> added != []))
      && (Code(r) == SqlSuccess <==> Code(r) != SqlNoData && got + Payload(t, r.image) == data)
  {
    hide StepOf, Call, Octets, Payload, CString, Tail;
    var v, t := row.values[read.column - 1], row.Type(read);
    var earlier := Project(calls, read.column);
    ColumnsAreIndependent(start, row, calls, read.column, t);
    ReadAlone(BindingsAfter(start, row, calls), row, read, PositionAfter(Unbound, v, t, earlier));
    Reassembly(Unbound, v, t, earlier, read.bufferLength);
  }
}

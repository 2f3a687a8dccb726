/** What one call of `OdbcStatement::setValue` does with one value and one binding. */
module ValueTransfer {
  import opened Odbc
  import opened Memory
  import opened Bindings

  /** One column of one row, in each form a getter can return it. */
  datatype Value = Value(isNull: bool, text: seq<byte>, wide: seq<byte>, blob: seq<byte>, scalar: int)

  /** The bytes a piece-wise C type delivers.  A character value ends at its first
      zero byte, as `strlen` sees it; NULL has no bytes. */
  function Stream(v: Value, t: CType): seq<byte>
    requires t.Streamed()
  {
    if v.isNull then [] else
    match t
    case CChar => CString(v.text)
    case CWide => v.wide
    case CBinary => v.blob
  }

  /** Bytes the terminator takes from the application's buffer. */
  function Terminator(t: CType): nat
    requires t.Streamed()
  {
    match t case CChar => 1 case CWide => 2 case CBinary => 0
  }

  function PieceLength(unread: int, bufferLength: int, terminator: nat): nat
  {
    var maxlen := Min(bufferLength - terminator, unread);
    if unread <= 0 || maxlen < 0 then 0 else maxlen
  }

  predicate Truncates(unread: int, bufferLength: int, terminator: nat)
  {
    unread > 0 && 0 <= Min(bufferLength - terminator, unread) != unread
  }

  /** The data bytes that survive in the buffer: the two-byte terminator of a
      wide piece is placed on an even offset and overwrites an odd last byte. */
  function Surviving(t: CType, piece: seq<byte>): seq<byte>
  {
    if t.CWide? then piece[..|piece| / 2 * 2] else piece
  }

  /** What is stored at the buffer address. */
  function Image(t: CType, piece: seq<byte>, firstCall: bool): seq<Cell>
    requires t.Streamed()
  {
    if t.CBinary? then Octets(piece)
    else if |piece| > 0 || firstCall then
      Octets(Surviving(t, piece)) + Octets(if t.CWide? then [0, 0] else [0])
    else []
  }

  /** The effect of one `setValue`: an error that moved nothing, or the cells
      stored at the buffer, whether truncation was posted, the exit code before
      `sqlSuccess`, the indicator and the new binding. */
  datatype Transfer =
    | Rejected
    | Moved(image: seq<Cell>, truncated: bool, exit: RetCode, indicator: int, after: Binding)

  /** What the arm for one C type did: bytes moved, bytes there were to move, the
      cells it stored and the offset it leaves behind. */
  datatype Arm =
    | Unsupported
    | Arm(moved: nat, unread: int, truncated: bool, image: seq<Cell>, offset: nat)

  function Deliver(offset: nat, count: nat, bufferLength: int, v: Value, t: CType): Arm
  {
    if t.Streamed() then
      if bufferLength < 0 then Unsupported else
      var data := Stream(v, t);
      var unread := |data| - offset;
      var n := PieceLength(unread, bufferLength, Terminator(t));
      var piece := if n == 0 then [] else data[offset..offset + n];
      Arm(n, unread, Truncates(unread, bufferLength, Terminator(t)),
          Image(t, piece, count == 0),
          if offset + n > |data| && count == 0 then 0 else offset + n)
    else if t.CFixed? then
      Arm(t.size, t.size, false, Number(v.scalar, t.size), offset)
    else
      Unsupported
  }

  /** The common tail: NULL, end of data, or one more call counted. */
  function SetValue(b: Binding, v: Value, t: CType, indicatorIsRemaining: bool): Transfer
  {
    match Deliver(b.offset, b.count, b.bufferLength, v, t)
    case Unsupported => Rejected
    case Arm(moved, unread, truncated, image, offset) =>
      var exit := if truncated then SqlSuccessWithInfo else SqlSuccess;
      var indicator := if indicatorIsRemaining then unread else moved;
      if v.isNull then
        Moved(image, truncated, exit, SQL_NULL_DATA, b.(offset := offset))
      else if moved == 0 && b.count > 0 then
        Moved(image, truncated, SqlNoData, indicator, b.Reset())
      else
        Moved(image, truncated, exit, indicator, b.(offset := offset, count := b.count + 1))
  }

  /** Which bytes a value has for each piece-wise type. */
  lemma StreamIs(v: Value)
    ensures v.isNull ==> Stream(v, CChar) == [] && Stream(v, CWide) == [] && Stream(v, CBinary) == []
    ensures !v.isNull ==>
      Stream(v, CChar) == CString(v.text) && Stream(v, CWide) == v.wide && Stream(v, CBinary) == v.blob
  {
  }

  /** `setValue` fails exactly for a type it does not move and for a negative length of a
      piece-wise one. */
  lemma RejectedExactly(b: Binding, v: Value, t: CType, indicatorIsRemaining: bool)
    ensures SetValue(b, v, t, indicatorIsRemaining).Rejected? <==>
      !(t.CFixed? || ((t.CChar? || t.CWide? || t.CBinary?) && 0 <= b.bufferLength))
  {
  }

  /** A number, date or time is moved whole by every call, whatever went before: the value
      in its own size, and that size or SQL_NULL_DATA as indicator. */
  lemma FixedTransfer(b: Binding, v: Value, t: CType, indicatorIsRemaining: bool)
    requires t.CFixed?
    ensures var r := SetValue(b, v, t, indicatorIsRemaining);
      && r.Moved? && r.image == Number(v.scalar, t.size) && !r.truncated && r.exit == SqlSuccess
      && r.indicator == (if v.isNull then SQL_NULL_DATA else t.size) && r.after.offset == b.offset
  {
  }

  // ----- where a value goes ----------------------------------------------------------

  /** Size of one element of a column-wise array. */
  function ElementSize(b: Binding, t: CType): nat
  {
    if t.CFixed? then t.size else Max(0, b.bufferLength)
  }

  /** Buffer address for element `row` of a row array. */
  function DataAddress(b: Binding, t: CType, row: nat, rowSize: nat): nat
  {
    b.pointer + (if rowSize == SQL_BIND_BY_COLUMN then ElementSize(b, t) else rowSize) * row
  }

  /** Column-wise, the address is computed even from a null indicator pointer. */
  function IndicatorAddress(b: Binding, row: nat, rowSize: nat): nat
  {
    if rowSize == SQL_BIND_BY_COLUMN then b.indicatorPointer + SIZEOF_SQLLEN * row
    else if b.indicatorPointer != NULL then b.indicatorPointer + rowSize * row
    else NULL
  }

  /** Column-wise, elements of fixed types lie their size apart and elements of piece-wise
      types the bound length, and indicators eight bytes; row-wise, both lie a record apart,
      and a column without an indicator has none. */
  lemma Addresses(b: Binding, t: CType, row: nat, rowSize: nat)
    requires 0 <= b.bufferLength
    ensures rowSize == 0 ==>
      && DataAddress(b, t, row, rowSize) == b.pointer + (if t.CFixed? then t.size * row else b.bufferLength * row)
      && IndicatorAddress(b, row, rowSize) == b.indicatorPointer + 8 * row
    ensures rowSize > 0 ==>
      && DataAddress(b, t, row, rowSize) == b.pointer + rowSize * row
      && IndicatorAddress(b, row, rowSize) == if b.indicatorPointer == 0 then 0 else b.indicatorPointer + rowSize * row
  {
  }

  /** The memory a transfer writes belongs to the application. */
  predicate HasRoom(length: nat, r: Transfer, data: nat, indicator: nat)
  {
    r.Moved? ==> data + |r.image| <= length && (indicator != NULL ==> indicator + SIZEOF_SQLLEN <= length)
  }

  /** Memory after a transfer: the value at `data`, its indicator at `indicator` unless NULL. */
  function Stored(m: seq<Cell>, r: Transfer, data: nat, indicator: nat): (m': seq<Cell>)
    requires HasRoom(|m|, r, data, indicator)
    ensures |m'| == |m|
  {
    if r.Rejected? then m
    else
      var valued := Write(m, data, r.image);
      if indicator != NULL then Write(valued, indicator, Number(r.indicator, SIZEOF_SQLLEN)) else valued
  }

  /** The value and its indicator are found where they were to be stored, and nothing else
      has changed, unless the application let them overlap. */
  lemma StoredHolds(m: seq<Cell>, r: Transfer, data: nat, indicator: nat, at: nat, kept: seq<Cell>)
    requires HasRoom(|m|, r, data, indicator) && r.Moved?
    requires indicator != 0 ==> Disjoint(Range(data, |r.image|), Range(indicator, SIZEOF_SQLLEN))
    ensures var m' := Stored(m, r, data, indicator);
      && Holds(m', data, r.image)
      && (indicator != 0 ==> Holds(m', indicator, Number(r.indicator, SIZEOF_SQLLEN)))
    ensures Holds(m, at, kept) && Disjoint(Range(data, |r.image|), Range(at, |kept|)) ==>
      (indicator != 0 ==> Disjoint(Range(indicator, SIZEOF_SQLLEN), Range(at, |kept|))) ==>
        Holds(Stored(m, r, data, indicator), at, kept)
  {
    hide Number, Write, Holds;
    assert |Number(r.indicator, SIZEOF_SQLLEN)| == SIZEOF_SQLLEN by { StoredAsThemselves([], r.indicator, SIZEOF_SQLLEN); }
    var valued := Write(m, data, r.image);
    WriteHolds(m, data, r.image);
    if Holds(m, at, kept) && Disjoint(Range(data, |r.image|), Range(at, |kept|)) {
      WriteKeeps(m, data, r.image, at, kept);
    }
    if indicator != 0 {
      WriteHolds(valued, indicator, Number(r.indicator, SIZEOF_SQLLEN));
      WriteKeeps(valued, indicator, Number(r.indicator, SIZEOF_SQLLEN), data, r.image);
      if Holds(valued, at, kept) && Disjoint(Range(indicator, SIZEOF_SQLLEN), Range(at, |kept|)) {
        WriteKeeps(valued, indicator, Number(r.indicator, SIZEOF_SQLLEN), at, kept);
      }
    }
  }
}

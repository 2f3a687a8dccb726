/** Where `sqlFetch` puts a row array in the application's memory. */
module RowLayout {
  import opened Odbc
  import opened Memory
  import opened Bindings
  import opened ValueTransfer
  import opened BlockFetch

  const SQL_ROW_SUCCESS := 0
  const SQL_ROW_NO_DATA := 100

  /** The places a fetch of a row array writes to. */
  datatype Slot = Data(n: nat, row: nat) | Indicator(n: nat, row: nat) | Status(row: nat) | Counter

  predicate IsField(slot: Slot) { slot.Data? || slot.Indicator? }

  /** One `sqlFetch`: the bound columns, the layout attributes and the result set. */
  datatype Fetch = Fetch(bindings: seq<Binding>, defaults: seq<CType>, rowSize: nat, statusPtr: nat, countPtr: nat,
                         rows: seq<seq<Value>>, cap: nat, size: nat)
  {
    predicate Active(n: nat)
    {
      n < |bindings| && bindings[n].pointer != NULL && bindings[n].direction != SQL_PARAM_INPUT
    }

    /** Every bound column exists in the result set. */
    predicate Shaped()
    {
      && (forall n :: 0 <= n < |bindings| && Active(n) ==> n < |defaults|)
      && (forall r :: 0 <= r < |rows| ==> |rows[r]| == |defaults|)
    }

    function Type(n: nat): CType
      requires n < |bindings|
    {
      bindings[n].cType.OrDefault(if n < |defaults| then defaults[n] else CUnsupported)
    }

    /** Distance between the elements of a column-wise array. */
    function ElementSize(n: nat): nat
      requires n < |bindings|
    {
      ValueTransfer.ElementSize(bindings[n], Type(n))
    }

    function DataAddress(n: nat, row: nat): nat
      requires n < |bindings|
    {
      ValueTransfer.DataAddress(bindings[n], Type(n), row, rowSize)
    }

    function IndicatorAddress(n: nat, row: nat): nat
      requires n < |bindings|
    {
      ValueTransfer.IndicatorAddress(bindings[n], row, rowSize)
    }

    /** The most that is stored for one value. */
    function Extent(n: nat): nat
      requires n < |bindings|
    {
      if Type(n).Streamed() then Max(ElementSize(n), Terminator(Type(n))) else ElementSize(n)
    }

    predicate Present(slot: Slot)
    {
      match slot
      case Data(n, row) => Active(n) && row < size
      case Indicator(n, row) => Active(n) && row < size && IndicatorAddress(n, row) != NULL
      case Status(row) => statusPtr != NULL && row < size
      case Counter => countPtr != NULL
    }

    function RangeOf(slot: Slot): Range
      requires Present(slot)
    {
      match slot
      case Data(n, row) => Range(DataAddress(n, row), Extent(n))
      case Indicator(n, row) => Range(IndicatorAddress(n, row), SIZEOF_SQLLEN)
      case Status(row) => Range(statusPtr + SIZEOF_SQLUSMALLINT * row, SIZEOF_SQLUSMALLINT)
      case Counter => Range(countPtr, SIZEOF_SQLLEN)
    }

    predicate Fits(slot: Slot, length: nat)
    {
      Present(slot) ==> RangeOf(slot).Within(length)
    }

    /** The application owns all the memory the fetch is allowed to write. */
    ghost predicate FitsIn(length: nat)
    {
      forall slot :: Fits(slot, length)
    }

    predicate Apart(s: Slot, t: Slot)
    {
      Present(s) && Present(t) && s != t ==> Disjoint(RangeOf(s), RangeOf(t))
    }

    ghost predicate Separated()
    {
      forall s, t :: Apart(s, t)
    }

    // ----- what one fetch writes -------------------------------------------------------

    function ValueOf(n: nat, row: seq<Value>): Transfer
      requires n < |bindings| && n < |row|
    {
      SetValue(bindings[n].Reset(), row[n], Type(n), false)
    }

    function Write(m: seq<Cell>, slot: Slot, cells: seq<Cell>): (r: seq<Cell>)
      requires Present(slot) && RangeOf(slot).Within(|m|) && |cells| <= RangeOf(slot).size
      ensures |r| == |m|
    {
      Memory.Write(m, RangeOf(slot).start, cells)
    }

    function WriteIfPresent(m: seq<Cell>, slot: Slot, cells: seq<Cell>): (r: seq<Cell>)
      requires Present(slot) ==> RangeOf(slot).Within(|m|) && |cells| <= RangeOf(slot).size
      ensures |r| == |m|
    {
      if Present(slot) then Write(m, slot, cells) else m
    }

    /** The column loop of `sqlFetch` for array element `i`, from column index `n` on. */
    function PlaceRow(m: seq<Cell>, row: seq<Value>, i: nat, n: nat, posted: bool): (r: Placement)
      requires Shaped() && |row| == |defaults| && i < size && n <= |bindings| && FitsIn(|m|)
      ensures |r.mem| == |m|
      decreases |bindings| - n
    {
      if n == |bindings| then Placement(m, true, posted)
      else if !Active(n) then PlaceRow(m, row, i, n + 1, posted)
      else
        match ValueOf(n, row)
        case Rejected => Placement(m, false, true)
        case Moved(image, truncated, _, indicator, _) =>
          ImageFits(n, row);
          assert Fits(Data(n, i), |m|);
          var stored := Write(m, Data(n, i), image);
          assert Fits(Indicator(n, i), |m|);
          var indicated := WriteIfPresent(stored, Indicator(n, i), Number(indicator, SIZEOF_SQLLEN));
          PlaceRow(indicated, row, i, n + 1, posted || truncated)
    }

    lemma ImageFits(n: nat, row: seq<Value>)
      requires n < |bindings| && n < |row|
      ensures ValueOf(n, row).Moved? ==> |ValueOf(n, row).image| <= Extent(n)
    {
    }

    /** The status array before the first row. */
    function ClearStatus(m: seq<Cell>, k: nat): (r: seq<Cell>)
      requires k <= size && FitsIn(|m|)
      ensures |r| == |m|
    {
      if k == 0 then m
      else
        var earlier := ClearStatus(m, k - 1);
        assert Fits(Status(k - 1), |m|);
        WriteIfPresent(earlier, Status(k - 1), Number(SQL_ROW_NO_DATA, SIZEOF_SQLUSMALLINT))
    }

    /** The row loop of `sqlFetch` with `k` rows done. */
    function FetchRows(m: seq<Cell>, c: Cursor, k: nat, posted: bool): (r: Fetched)
      requires Shaped() && k <= size && FitsIn(|m|)
      ensures |r.mem| == |m|
      decreases size - k
    {
      if k == size then Fetched(m, c, k, Complete, posted)
      else if AtEnd(c, |rows|, cap) then Fetched(m, c.(eof := true), k, Exhausted, posted)
      else
        var p := PlaceRow(m, rows[c.position], k, 0, posted);
        if !p.ok then Fetched(p.mem, c.(position := c.position + 1), k, Failed, p.posted)
        else FetchRows(Account(p.mem, k), Cursor(c.position + 1, false, c.perSelect + 1), k + 1, p.posted)
    }

    /** After array element `k`: its status and the rows-fetched counter. */
    function Account(m: seq<Cell>, k: nat): (r: seq<Cell>)
      requires k < size && FitsIn(|m|)
      ensures |r| == |m|
    {
      assert Fits(Status(k), |m|);
      assert Fits(Counter, |m|);
      var marked := WriteIfPresent(m, Status(k), Number(SQL_ROW_SUCCESS, SIZEOF_SQLUSMALLINT));
      WriteIfPresent(marked, Counter, Number(k + 1, SIZEOF_SQLLEN))
    }

    function Result(m: seq<Cell>, c: Cursor, posted: bool): (r: Fetched)
      requires Shaped() && FitsIn(|m|)
      ensures |r.mem| == |m|
    {
      FetchRows(ClearStatus(m, size), c, 0, posted)
    }
  }

  datatype Placement = Placement(mem: seq<Cell>, ok: bool, posted: bool)

  datatype Exit = Complete | Exhausted | Failed

  datatype Fetched = Fetched(mem: seq<Cell>, cursor: Cursor, count: nat, exit: Exit, posted: bool)
  {
    function Code(): RetCode
    {
      match exit
      case Complete => Outcome(posted, SqlSuccess)
      case Exhausted => if count > 0 then Outcome(posted, SqlSuccess) else SqlNoData
      case Failed => SqlError
    }
  }

  // ----- the cursor ------------------------------------------------------------------

  /** A fetch without errors delivers the rows and moves the cursor as `Block` says. */
  lemma {:induction false} FetchIsBlock(f: Fetch, m: seq<Cell>, c: Cursor, k: nat, posted: bool)
    requires f.Shaped() && k <= f.size && f.FitsIn(|m|)
    requires f.FetchRows(m, c, k, posted).exit != Failed
    ensures var r := f.FetchRows(m, c, k, posted);
      (r.count - k, r.cursor) == Block(c, |f.rows|, f.cap, f.size - k)
    decreases f.size - k
  {
    if k < f.size && !AtEnd(c, |f.rows|, f.cap) {
      var p := f.PlaceRow(m, f.rows[c.position], k, 0, posted);
      FetchIsBlock(f, f.Account(p.mem, k), Cursor(c.position + 1, false, c.perSelect + 1), k + 1, p.posted);
    }
  }

  /** The row loop, one row at a time. */
  lemma FetchRowsStep(f: Fetch, m: seq<Cell>, c: Cursor, k: nat, posted: bool)
    requires f.Shaped() && k <= f.size && f.FitsIn(|m|)
    ensures k == f.size ==> f.FetchRows(m, c, k, posted) == Fetched(m, c, k, Complete, posted)
    ensures k < f.size && AtEnd(c, |f.rows|, f.cap) ==>
      f.FetchRows(m, c, k, posted) == Fetched(m, c.(eof := true), k, Exhausted, posted)
    ensures k < f.size && !AtEnd(c, |f.rows|, f.cap) ==>
      var p := f.PlaceRow(m, f.rows[c.position], k, 0, posted);
      f.FetchRows(m, c, k, posted) ==
        if p.ok then f.FetchRows(f.Account(p.mem, k), Cursor(c.position + 1, false, c.perSelect + 1), k + 1, p.posted)
        else Fetched(p.mem, c.(position := c.position + 1), k, Failed, p.posted)
  {
  }

  // ----- faithfulness ----------------------------------------------------------------

  /** What must be found for column `n` of element `i` once `row` has been placed there. */
  predicate ColumnStored(f: Fetch, m: seq<Cell>, row: seq<Value>, i: nat, n: nat)
    requires n < |f.bindings| && n < |row|
  {
    match f.ValueOf(n, row)
    case Rejected => false
    case Moved(image, _, _, indicator, _) =>
      && Holds(m, f.DataAddress(n, i), image)
      && (f.IndicatorAddress(n, i) != NULL ==> Holds(m, f.IndicatorAddress(n, i), Number(indicator, SIZEOF_SQLLEN)))
  }

  /** A slot keeps its contents when another slot is written. */
  lemma OtherSlotKept(f: Fetch, m: seq<Cell>, slot: Slot, cells: seq<Cell>, other: Slot, kept: seq<Cell>)
    requires f.Separated() && f.Present(other) && slot != other
    requires f.Present(slot) ==> f.RangeOf(slot).Within(|m|) && |cells| <= f.RangeOf(slot).size
    requires |kept| <= f.RangeOf(other).size && Holds(m, f.RangeOf(other).start, kept)
    ensures Holds(f.WriteIfPresent(m, slot, cells), f.RangeOf(other).start, kept)
  {
    if f.Present(slot) {
      assert f.Apart(slot, other);
      WriteKeeps(m, f.RangeOf(slot).start, cells, f.RangeOf(other).start, kept);
    }
  }

  /** Slots that placing columns `n` and up of element `i` does not touch. */
  predicate Elsewhere(slot: Slot, i: nat, n: nat)
  {
    match slot
    case Data(q, row) => row != i || q < n
    case Indicator(q, row) => row != i || q < n
    case _ => true
  }

  /** One active column placed: its image, then its indicator. */
  function PlaceColumn(f: Fetch, m: seq<Cell>, row: seq<Value>, i: nat, n: nat): (r: seq<Cell>)
    requires i < f.size && f.FitsIn(|m|) && f.Active(n) && n < |row| && f.ValueOf(n, row).Moved?
    ensures |r| == |m|
  {
    var t := f.ValueOf(n, row);
    f.ImageFits(n, row);
    assert f.Fits(Data(n, i), |m|);
    assert f.Fits(Indicator(n, i), |m|);
    f.WriteIfPresent(f.Write(m, Data(n, i), t.image), Indicator(n, i), Number(t.indicator, SIZEOF_SQLLEN))
  }

  /** The transfer from a reset binding is a first call. */
  lemma FirstTransfer(b: Binding, v: Value, t: CType)
    ensures var r := SetValue(b.Reset(), v, t, false);
      r.Moved? ==> (r.exit == SqlSuccess || r.exit == SqlSuccessWithInfo) && r.after.Reset() == b.Reset()
  {
  }

  /** The memory of one placed column is that of its transfer. */
  lemma PlaceColumnIsStored(f: Fetch, m: seq<Cell>, row: seq<Value>, i: nat, n: nat)
    requires i < f.size && f.FitsIn(|m|) && f.Active(n) && n < |row| && f.ValueOf(n, row).Moved?
    ensures var t := f.ValueOf(n, row); var b := f.bindings[n].Reset();
      var data := ValueTransfer.DataAddress(b, f.Type(n), i, f.rowSize);
      var indicator := ValueTransfer.IndicatorAddress(b, i, f.rowSize);
      HasRoom(|m|, t, data, indicator) && PlaceColumn(f, m, row, i, n) == Stored(m, t, data, indicator)
  {
    hide ValueTransfer.SetValue, Write, Number;
    f.ImageFits(n, row);
    assert f.Fits(Data(n, i), |m|) && f.Fits(Indicator(n, i), |m|);
  }

  /** The column loop, one column at a time. */
  lemma PlaceRowStep(f: Fetch, m: seq<Cell>, row: seq<Value>, i: nat, n: nat, posted: bool)
    requires f.Shaped() && |row| == |f.defaults| && i < f.size && f.FitsIn(|m|) && n <= |f.bindings|
    ensures n == |f.bindings| ==> f.PlaceRow(m, row, i, n, posted) == Placement(m, true, posted)
    ensures n < |f.bindings| && !f.Active(n) ==> f.PlaceRow(m, row, i, n, posted) == f.PlaceRow(m, row, i, n + 1, posted)
    ensures f.Active(n) ==>
      var t := f.ValueOf(n, row); var b := f.bindings[n].Reset();
      var data := ValueTransfer.DataAddress(b, f.Type(n), i, f.rowSize);
      var indicator := ValueTransfer.IndicatorAddress(b, i, f.rowSize);
      && t == SetValue(b, row[n], f.Type(n), false)
      && HasRoom(|m|, t, data, indicator)
      && (t.Rejected? ==> Stored(m, t, data, indicator) == m && f.PlaceRow(m, row, i, n, posted) == Placement(m, false, true))
      && (t.Moved? ==>
           && (t.exit == SqlSuccess || t.exit == SqlSuccessWithInfo) && t.after.Reset() == b
           && f.PlaceRow(m, row, i, n, posted) ==
                f.PlaceRow(Stored(m, t, data, indicator), row, i, n + 1, posted || t.truncated))
  {
    hide ValueTransfer.SetValue, Write;
    if f.Active(n) {
      FirstTransfer(f.bindings[n], row[n], f.Type(n));
      if f.ValueOf(n, row).Moved? {
        PlaceColumnIsStored(f, m, row, i, n);
      }
    }
  }

  lemma PlaceColumnKeeps(f: Fetch, m: seq<Cell>, row: seq<Value>, i: nat, n: nat, slot: Slot, kept: seq<Cell>)
    requires i < f.size && f.FitsIn(|m|) && f.Active(n) && n < |row| && f.ValueOf(n, row).Moved?
    requires f.Separated() && f.Present(slot) && slot != Data(n, i) && slot != Indicator(n, i)
    requires |kept| <= f.RangeOf(slot).size && Holds(m, f.RangeOf(slot).start, kept)
    ensures Holds(PlaceColumn(f, m, row, i, n), f.RangeOf(slot).start, kept)
  {
    var t := f.ValueOf(n, row);
    f.ImageFits(n, row);
    assert f.Fits(Data(n, i), |m|);
    assert f.Fits(Indicator(n, i), |m|);
    OtherSlotKept(f, m, Data(n, i), t.image, slot, kept);
    OtherSlotKept(f, f.Write(m, Data(n, i), t.image), Indicator(n, i), Number(t.indicator, SIZEOF_SQLLEN), slot, kept);
  }

  lemma PlaceColumnStores(f: Fetch, m: seq<Cell>, row: seq<Value>, i: nat, n: nat)
    requires i < f.size && f.FitsIn(|m|) && f.Active(n) && n < |row| && f.ValueOf(n, row).Moved?
    requires f.Separated()
    ensures ColumnStored(f, PlaceColumn(f, m, row, i, n), row, i, n)
  {
    var t := f.ValueOf(n, row);
    f.ImageFits(n, row);
    assert f.Fits(Data(n, i), |m|);
    assert f.Fits(Indicator(n, i), |m|);
    var stored := f.Write(m, Data(n, i), t.image);
    var number := Number(t.indicator, SIZEOF_SQLLEN);
    WriteHolds(m, f.DataAddress(n, i), t.image);
    OtherSlotKept(f, stored, Indicator(n, i), number, Data(n, i), t.image);
    if f.Present(Indicator(n, i)) {
      WriteHolds(stored, f.IndicatorAddress(n, i), number);
    }
  }

  lemma {:induction false} PlaceRowKeeps(f: Fetch, m: seq<Cell>, row: seq<Value>, i: nat, n: nat, posted: bool,
                                         slot: Slot, kept: seq<Cell>)
    requires f.Shaped() && |row| == |f.defaults| && i < f.size && n <= |f.bindings| && f.FitsIn(|m|)
    requires f.Separated() && f.Present(slot) && Elsewhere(slot, i, n)
    requires |kept| <= f.RangeOf(slot).size && Holds(m, f.RangeOf(slot).start, kept)
    ensures Holds(f.PlaceRow(m, row, i, n, posted).mem, f.RangeOf(slot).start, kept)
    decreases |f.bindings| - n
  {
    hide Fetch.RangeOf, Fetch.Separated, Fetch.ValueOf;
    if n < |f.bindings| {
      if !f.Active(n) {
        PlaceRowKeeps(f, m, row, i, n + 1, posted, slot, kept);
      } else if f.ValueOf(n, row).Moved? {
        PlaceColumnKeeps(f, m, row, i, n, slot, kept);
        PlaceRowKeeps(f, PlaceColumn(f, m, row, i, n), row, i, n + 1, posted || f.ValueOf(n, row).truncated, slot, kept);
      }
    }
  }

  /** What is stored for a column stays when the columns after it are placed. */
  lemma LaterColumnsKeep(f: Fetch, m: seq<Cell>, row: seq<Value>, i: nat, n: nat, posted: bool)
    requires f.Shaped() && |row| == |f.defaults| && i < f.size && n < |f.bindings| && f.FitsIn(|m|)
    requires f.Separated() && f.Active(n) && ColumnStored(f, m, row, i, n)
    ensures ColumnStored(f, f.PlaceRow(m, row, i, n + 1, posted).mem, row, i, n)
  {
    var t := f.ValueOf(n, row);
    f.ImageFits(n, row);
    PlaceRowKeeps(f, m, row, i, n + 1, posted, Data(n, i), t.image);
    if f.Present(Indicator(n, i)) {
      PlaceRowKeeps(f, m, row, i, n + 1, posted, Indicator(n, i), Number(t.indicator, SIZEOF_SQLLEN));
    }
  }

  lemma {:induction false} PlaceRowStores(f: Fetch, m: seq<Cell>, row: seq<Value>, i: nat, n: nat, posted: bool, q: nat)
    requires f.Shaped() && |row| == |f.defaults| && i < f.size && n <= |f.bindings| && f.FitsIn(|m|)
    requires f.Separated() && n <= q && f.Active(q)
    requires f.PlaceRow(m, row, i, n, posted).ok
    ensures ColumnStored(f, f.PlaceRow(m, row, i, n, posted).mem, row, i, q)
    decreases |f.bindings| - n
  {
    if !f.Active(n) {
      PlaceRowStores(f, m, row, i, n + 1, posted, q);
    } else {
      var m', posted' := PlaceColumn(f, m, row, i, n), posted || f.ValueOf(n, row).truncated;
      if n == q {
        PlaceColumnStores(f, m, row, i, n);
        LaterColumnsKeep(f, m', row, i, n, posted');
      } else {
        PlaceRowStores(f, m', row, i, n + 1, posted', q);
      }
    }
  }

  /** Slots that the row loop, with `k` rows done and `count` in the end, does not write. */
  predicate Untouched(slot: Slot, k: nat, count: nat)
  {
    match slot
    case Data(_, row) => row < k
    case Indicator(_, row) => row < k
    case Status(row) => row < k || row >= count
    case Counter => count == k
  }

  lemma AccountKeeps(f: Fetch, m: seq<Cell>, k: nat, slot: Slot, kept: seq<Cell>)
    requires k < f.size && f.FitsIn(|m|) && f.Separated()
    requires f.Present(slot) && slot != Status(k) && slot != Counter
    requires |kept| <= f.RangeOf(slot).size && Holds(m, f.RangeOf(slot).start, kept)
    ensures Holds(f.Account(m, k), f.RangeOf(slot).start, kept)
  {
    assert f.Fits(Status(k), |m|);
    assert f.Fits(Counter, |m|);
    var success := Number(SQL_ROW_SUCCESS, SIZEOF_SQLUSMALLINT);
    OtherSlotKept(f, m, Status(k), success, slot, kept);
    OtherSlotKept(f, f.WriteIfPresent(m, Status(k), success), Counter, Number(k + 1, SIZEOF_SQLLEN), slot, kept);
  }

  lemma AccountStores(f: Fetch, m: seq<Cell>, k: nat)
    requires k < f.size && f.FitsIn(|m|) && f.Separated()
    ensures f.Present(Status(k)) ==> Holds(f.Account(m, k), f.RangeOf(Status(k)).start, Number(SQL_ROW_SUCCESS, SIZEOF_SQLUSMALLINT))
    ensures f.Present(Counter) ==> Holds(f.Account(m, k), f.countPtr, Number(k + 1, SIZEOF_SQLLEN))
  {
    assert f.Fits(Status(k), |m|);
    assert f.Fits(Counter, |m|);
    var success := Number(SQL_ROW_SUCCESS, SIZEOF_SQLUSMALLINT);
    var marked := f.WriteIfPresent(m, Status(k), success);
    if f.Present(Status(k)) {
      WriteHolds(m, f.RangeOf(Status(k)).start, success);
      OtherSlotKept(f, marked, Counter, Number(k + 1, SIZEOF_SQLLEN), Status(k), success);
    }
    if f.Present(Counter) {
      WriteHolds(marked, f.countPtr, Number(k + 1, SIZEOF_SQLLEN));
    }
  }

  lemma {:induction false} CountGrows(f: Fetch, m: seq<Cell>, c: Cursor, k: nat, posted: bool)
    requires f.Shaped() && k <= f.size && f.FitsIn(|m|)
    ensures var r := f.FetchRows(m, c, k, posted);
      k <= r.count <= f.size && (r.count > k ==> c.position + (r.count - k) <= |f.rows|)
    decreases f.size - k
  {
    if k < f.size && !AtEnd(c, |f.rows|, f.cap) {
      var p := f.PlaceRow(m, f.rows[c.position], k, 0, posted);
      if p.ok {
        CountGrows(f, f.Account(p.mem, k), Cursor(c.position + 1, false, c.perSelect + 1), k + 1, p.posted);
      }
    }
  }

  /** The row loop goes on after a row that could be placed. */
  lemma Unrolled(f: Fetch, m: seq<Cell>, c: Cursor, k: nat, posted: bool, p: Placement, c': Cursor)
    requires f.Shaped() && k < f.size && f.FitsIn(|m|) && !AtEnd(c, |f.rows|, f.cap)
    requires p == f.PlaceRow(m, f.rows[c.position], k, 0, posted) && p.ok
    requires c' == Cursor(c.position + 1, false, c.perSelect + 1)
    ensures f.FetchRows(m, c, k, posted) == f.FetchRows(f.Account(p.mem, k), c', k + 1, p.posted)
    ensures k < f.FetchRows(m, c, k, posted).count <= f.size
  {
    CountGrows(f, f.Account(p.mem, k), c', k + 1, p.posted);
  }

  /** One row placed and accounted for, or placed in part, leaves the untouched slots alone. */
  lemma RowKeeps(f: Fetch, m: seq<Cell>, row: seq<Value>, k: nat, posted: bool, count: nat, slot: Slot, kept: seq<Cell>)
    requires f.Shaped() && k < f.size && f.FitsIn(|m|) && f.Separated() && |row| == |f.defaults|
    requires f.Present(slot) && Untouched(slot, k, count)
    requires |kept| <= f.RangeOf(slot).size && Holds(m, f.RangeOf(slot).start, kept)
    ensures var p := f.PlaceRow(m, row, k, 0, posted);
      && Holds(p.mem, f.RangeOf(slot).start, kept)
      && (k < count ==> Holds(f.Account(p.mem, k), f.RangeOf(slot).start, kept))
  {
    PlaceRowKeeps(f, m, row, k, 0, posted, slot, kept);
    if k < count {
      AccountKeeps(f, f.PlaceRow(m, row, k, 0, posted).mem, k, slot, kept);
    }
  }

  lemma {:induction false} FetchRowsKeeps(f: Fetch, m: seq<Cell>, c: Cursor, k: nat, posted: bool, slot: Slot, kept: seq<Cell>)
    requires f.Shaped() && k <= f.size && f.FitsIn(|m|) && f.Separated()
    requires f.Present(slot) && Untouched(slot, k, f.FetchRows(m, c, k, posted).count)
    requires |kept| <= f.RangeOf(slot).size && Holds(m, f.RangeOf(slot).start, kept)
    ensures Holds(f.FetchRows(m, c, k, posted).mem, f.RangeOf(slot).start, kept)
    decreases f.size - k
  {
    hide Fetch.PlaceRow, Fetch.Account, Fetch.RangeOf;
    if k < f.size && !AtEnd(c, |f.rows|, f.cap) {
      var row := f.rows[c.position];
      var count := f.FetchRows(m, c, k, posted).count;
      var p := f.PlaceRow(m, row, k, 0, posted);
      RowKeeps(f, m, row, k, posted, count, slot, kept);
      if p.ok {
        var c' := Cursor(c.position + 1, false, c.perSelect + 1);
        Unrolled(f, m, c, k, posted, p, c');
        FetchRowsKeeps(f, f.Account(p.mem, k), c', k + 1, p.posted, slot, kept);
      }
    }
  }

  /** A slot of row `k` survives the accounting of its row and all later rows. */
  lemma SlotStays(f: Fetch, m: seq<Cell>, k: nat, c: Cursor, posted: bool, slot: Slot, kept: seq<Cell>)
    requires f.Shaped() && k < f.size && f.FitsIn(|m|) && f.Separated()
    requires f.Present(slot) && IsField(slot) && slot.row == k
    requires |kept| <= f.RangeOf(slot).size && Holds(m, f.RangeOf(slot).start, kept)
    ensures Holds(f.FetchRows(f.Account(m, k), c, k + 1, posted).mem, f.RangeOf(slot).start, kept)
  {
    AccountKeeps(f, m, k, slot, kept);
    FetchRowsKeeps(f, f.Account(m, k), c, k + 1, posted, slot, kept);
  }

  lemma StoredStays(f: Fetch, m: seq<Cell>, row: seq<Value>, k: nat, q: nat, c: Cursor, posted: bool)
    requires f.Shaped() && k < f.size && f.FitsIn(|m|) && f.Separated()
    requires f.Active(q) && q < |row| && ColumnStored(f, m, row, k, q)
    ensures ColumnStored(f, f.FetchRows(f.Account(m, k), c, k + 1, posted).mem, row, k, q)
  {
    f.ImageFits(q, row);
    var t := f.ValueOf(q, row);
    SlotStays(f, m, k, c, posted, Data(q, k), t.image);
    if f.Present(Indicator(q, k)) {
      SlotStays(f, m, k, c, posted, Indicator(q, k), Number(t.indicator, SIZEOF_SQLLEN));
    }
  }

  /** Every column bound for output, in array element `i` holds the row the cursor `c` finds `i` rows on. */
  predicate RowStored(f: Fetch, m: seq<Cell>, c: Cursor, i: nat)
    requires f.Shaped()
  {
    c.position + i < |f.rows| &&
    forall q :: 0 <= q < |f.bindings| && f.bindings[q].pointer != NULL && f.bindings[q].direction != SQL_PARAM_INPUT ==>
      assert f.Active(q);
      ColumnStored(f, m, f.rows[c.position + i], i, q)
  }

  lemma {:induction false} FetchRowsStores(f: Fetch, m: seq<Cell>, c: Cursor, k: nat, posted: bool, r: Fetched, i: nat, q: nat)
    requires f.Shaped() && k <= f.size && f.FitsIn(|m|) && f.Separated()
    requires r == f.FetchRows(m, c, k, posted) && k <= i < r.count && f.Active(q)
    ensures c.position + (i - k) < |f.rows| && i < f.size
    ensures ColumnStored(f, r.mem, f.rows[c.position + (i - k)], i, q)
    decreases f.size - k
  {
    hide Fetch.PlaceRow, Fetch.Account, Fetch.RangeOf;
    var row := f.rows[c.position];
    var p, c' := f.PlaceRow(m, row, k, 0, posted), Cursor(c.position + 1, false, c.perSelect + 1);
    Unrolled(f, m, c, k, posted, p, c');
    if i == k {
      FirstRowStores(f, m, row, k, posted, c', q);
    } else {
      FetchRowsStores(f, f.Account(p.mem, k), c', k + 1, p.posted, r, i, q);
    }
  }

  lemma FirstRowStores(f: Fetch, m: seq<Cell>, row: seq<Value>, k: nat, posted: bool, c: Cursor, q: nat)
    requires f.Shaped() && |row| == |f.defaults| && k < f.size && f.FitsIn(|m|) && f.Separated() && f.Active(q)
    requires f.PlaceRow(m, row, k, 0, posted).ok
    ensures var p := f.PlaceRow(m, row, k, 0, posted);
      ColumnStored(f, f.FetchRows(f.Account(p.mem, k), c, k + 1, p.posted).mem, row, k, q)
  {
    var p := f.PlaceRow(m, row, k, 0, posted);
    PlaceRowStores(f, m, row, k, 0, posted, q);
    StoredStays(f, p.mem, row, k, q, c, p.posted);
  }

  predicate StatusIs(f: Fetch, m: seq<Cell>, i: nat, success: bool)
    requires f.Present(Status(i))
  {
    Holds(m, f.RangeOf(Status(i)).start, Number(if success then SQL_ROW_SUCCESS else SQL_ROW_NO_DATA, SIZEOF_SQLUSMALLINT))
  }

  lemma {:induction false} FetchRowsMarks(f: Fetch, m: seq<Cell>, c: Cursor, k: nat, posted: bool, r: Fetched, i: nat)
    requires f.Shaped() && k <= f.size && f.FitsIn(|m|) && f.Separated()
    requires r == f.FetchRows(m, c, k, posted) && k <= i < r.count && f.Present(Status(i))
    ensures StatusIs(f, r.mem, i, true)
    decreases f.size - k
  {
    var p, c' := f.PlaceRow(m, f.rows[c.position], k, 0, posted), Cursor(c.position + 1, false, c.perSelect + 1);
    Unrolled(f, m, c, k, posted, p, c');
    if i == k {
      AccountStores(f, p.mem, k);
      MarkStays(f, f.Account(p.mem, k), c', k, p.posted);
    } else {
      FetchRowsMarks(f, f.Account(p.mem, k), c', k + 1, p.posted, r, i);
    }
  }

  lemma MarkStays(f: Fetch, m: seq<Cell>, c: Cursor, k: nat, posted: bool)
    requires f.Shaped() && k < f.size && f.FitsIn(|m|) && f.Separated()
    requires f.Present(Status(k)) && StatusIs(f, m, k, true)
    ensures StatusIs(f, f.FetchRows(m, c, k + 1, posted).mem, k, true)
  {
    FetchRowsKeeps(f, m, c, k + 1, posted, Status(k), Number(SQL_ROW_SUCCESS, SIZEOF_SQLUSMALLINT));
  }

  lemma {:induction false} FetchRowsCounts(f: Fetch, m: seq<Cell>, c: Cursor, k: nat, posted: bool, r: Fetched)
    requires f.Shaped() && k <= f.size && f.FitsIn(|m|) && f.Separated()
    requires r == f.FetchRows(m, c, k, posted) && k < r.count && f.Present(Counter)
    ensures Holds(r.mem, f.countPtr, Number(r.count, SIZEOF_SQLLEN))
    decreases f.size - k
  {
    var p, c' := f.PlaceRow(m, f.rows[c.position], k, 0, posted), Cursor(c.position + 1, false, c.perSelect + 1);
    Unrolled(f, m, c, k, posted, p, c');
    if r.count == k + 1 {
      AccountStores(f, p.mem, k);
      FetchRowsKeeps(f, f.Account(p.mem, k), c', k + 1, p.posted, Counter, Number(k + 1, SIZEOF_SQLLEN));
    } else {
      FetchRowsCounts(f, f.Account(p.mem, k), c', k + 1, p.posted, r);
    }
  }

  lemma {:induction false} NoStatusArray(f: Fetch, m: seq<Cell>, k: nat)
    requires k <= f.size && f.FitsIn(|m|) && f.statusPtr == NULL
    ensures f.ClearStatus(m, k) == m
    decreases k
  {
    if k > 0 {
      NoStatusArray(f, m, k - 1);
    }
  }

  lemma {:induction false} StatusCleared(f: Fetch, m: seq<Cell>, k: nat, i: nat)
    requires k <= f.size && f.FitsIn(|m|) && f.Separated() && i < k && f.Present(Status(i))
    ensures Holds(f.ClearStatus(m, k), f.RangeOf(Status(i)).start, Number(SQL_ROW_NO_DATA, SIZEOF_SQLUSMALLINT))
    decreases k
  {
    var earlier := f.ClearStatus(m, k - 1);
    assert f.Fits(Status(k - 1), |m|);
    var noData := Number(SQL_ROW_NO_DATA, SIZEOF_SQLUSMALLINT);
    if i == k - 1 {
      WriteHolds(earlier, f.RangeOf(Status(i)).start, noData);
    } else {
      StatusCleared(f, m, k - 1, i);
      OtherSlotKept(f, earlier, Status(k - 1), noData, Status(i), noData);
    }
  }

  lemma RowInTheEnd(f: Fetch, m: seq<Cell>, c: Cursor, posted: bool, i: nat)
    requires f.Shaped() && f.FitsIn(|m|) && f.Separated() && i < f.FetchRows(m, c, 0, posted).count
    ensures RowStored(f, f.FetchRows(m, c, 0, posted).mem, c, i)
  {
    hide Fetch.PlaceRow, Fetch.FetchRows, Fetch.RangeOf;
    CountGrows(f, m, c, 0, posted);
    forall q | 0 <= q < |f.bindings| && f.bindings[q].pointer != NULL && f.bindings[q].direction != SQL_PARAM_INPUT
      ensures f.Active(q)
      ensures ColumnStored(f, f.FetchRows(m, c, 0, posted).mem, f.rows[c.position + i], i, q)
    {
      FetchRowsStores(f, m, c, 0, posted, f.FetchRows(m, c, 0, posted), i, q);
    }
  }

  lemma StatusInTheEnd(f: Fetch, m: seq<Cell>, c: Cursor, posted: bool, i: nat)
    requires f.Shaped() && f.FitsIn(|m|) && f.Separated() && f.Present(Status(i))
    ensures var r := f.Result(m, c, posted); StatusIs(f, r.mem, i, i < r.count)
  {
    var m1 := f.ClearStatus(m, f.size);
    if i < f.FetchRows(m1, c, 0, posted).count {
      FetchRowsMarks(f, m1, c, 0, posted, f.FetchRows(m1, c, 0, posted), i);
    } else {
      StatusCleared(f, m, f.size, i);
      FetchRowsKeeps(f, m1, c, 0, posted, Status(i), Number(SQL_ROW_NO_DATA, SIZEOF_SQLUSMALLINT));
    }
  }

  /** Faithful row arrays.  When the application's memory is laid out without
      overlaps, then after a fetch every delivered row's slots hold that row's
      values and indicators, the status array says success for the rows delivered
      and no-data for the rest, and the counter, if a row was delivered, their number;
      without errors the number is that of the visible rows asked for. */
  lemma RowArrayIsFaithful(f: Fetch, m: seq<Cell>, c: Cursor, posted: bool)
    requires f.Shaped() && f.FitsIn(|m|) && f.Separated()
    ensures var r := f.Result(m, c, posted);
      && r.count <= f.size
      && (forall i :: 0 <= i < r.count ==> RowStored(f, r.mem, c, i))
      && (f.statusPtr != NULL ==>
           forall i :: 0 <= i < f.size ==> Holds(r.mem, f.statusPtr + 2 * i, Number(if i < r.count then 0 else 100, 2)))
      && (f.countPtr != NULL && r.count > 0 ==> Holds(r.mem, f.countPtr, Number(r.count, 8)))
      && (r.exit != Failed ==> r.count == Min(f.size, Visible(c, |f.rows|, f.cap)))
  {
    hide Fetch.PlaceRow, Fetch.Separated, Fetch.FitsIn, RowStored, Holds, Number, Fetch.ClearStatus, Fetch.FetchRows;
    var m1 := f.ClearStatus(m, f.size);
    var r := f.FetchRows(m1, c, 0, posted);
    CountGrows(f, m1, c, 0, posted);
    forall i | 0 <= i < r.count ensures RowStored(f, r.mem, c, i) {
      RowInTheEnd(f, m1, c, posted, i);
    }
    if f.statusPtr != NULL {
      forall i | 0 <= i < f.size ensures Holds(r.mem, f.statusPtr + 2 * i, Number(if i < r.count then 0 else 100, 2)) {
        StatusInTheEnd(f, m, c, posted, i);
      }
    }
    if f.Present(Counter) && r.count > 0 {
      FetchRowsCounts(f, m1, c, 0, posted, r);
    }
    if r.exit != Failed {
      FetchIsBlock(f, m1, c, 0, posted);
      BlockSpec(c, |f.rows|, f.cap, f.size);
    }
  }

  lemma {:induction false} ClearStatusKeepsCounter(f: Fetch, m: seq<Cell>, k: nat, kept: seq<Cell>)
    requires k <= f.size && f.FitsIn(|m|) && f.Separated() && f.Present(Counter)
    requires |kept| <= f.RangeOf(Counter).size && Holds(m, f.RangeOf(Counter).start, kept)
    ensures Holds(f.ClearStatus(m, k), f.RangeOf(Counter).start, kept)
    decreases k
  {
    if k > 0 {
      ClearStatusKeepsCounter(f, m, k - 1, kept);
      assert f.Fits(Status(k - 1), |m|);
      OtherSlotKept(f, f.ClearStatus(m, k - 1), Status(k - 1), Number(SQL_ROW_NO_DATA, SIZEOF_SQLUSMALLINT),
                    Counter, kept);
    }
  }

  /** The counter is written exactly by delivered rows: a fetch that delivers none
      leaves in it whatever an earlier fetch put there. */
  lemma NoRowNoCount(f: Fetch, m: seq<Cell>, c: Cursor, posted: bool, kept: seq<Cell>)
    requires f.Shaped() && f.FitsIn(|m|) && f.Separated() && f.Present(Counter)
    requires f.Result(m, c, posted).count == 0
    requires |kept| <= f.RangeOf(Counter).size && Holds(m, f.RangeOf(Counter).start, kept)
    ensures Holds(f.Result(m, c, posted).mem, f.RangeOf(Counter).start, kept)
  {
    ClearStatusKeepsCounter(f, m, f.size, kept);
    FetchRowsKeeps(f, f.ClearStatus(m, f.size), c, 0, posted, Counter, kept);
  }

  // ----- runs of fetches -------------------------------------------------------------

  /** One fetch of a run.  Between fetches the application may rebind, change the row
      array and its size, and write its memory; the rows and the cap stay. */
  datatype FetchCall = FetchCall(f: Fetch, mem: seq<Cell>, posted: bool)
  {
    ghost predicate Of(rows: seq<seq<Value>>, cap: nat)
    {
      f.rows == rows && f.cap == cap && f.size > 0 && f.Shaped() && f.FitsIn(|mem|)
    }

    function Performed(c: Cursor): Fetched
      requires f.Shaped() && f.FitsIn(|mem|)
    {
      f.Result(mem, c, posted)
    }
  }

  ghost predicate AllOf(calls: Run<FetchCall>, rows: seq<seq<Value>>, cap: nat)
  {
    calls.Then? ==> AllOf(calls.earlier, rows, cap) && calls.last.Of(rows, cap)
  }

  function CursorAfterCalls(c: Cursor, calls: Run<FetchCall>, rows: seq<seq<Value>>, cap: nat): Cursor
    requires AllOf(calls, rows, cap)
  {
    match calls
    case Start => c
    case Then(earlier, call) => call.Performed(CursorAfterCalls(c, earlier, rows, cap)).cursor
  }

  /** No fetch of the run met an error. */
  predicate ErrorFree(c: Cursor, calls: Run<FetchCall>, rows: seq<seq<Value>>, cap: nat)
    requires AllOf(calls, rows, cap)
  {
    calls.Then? ==>
      && ErrorFree(c, calls.earlier, rows, cap)
      && calls.last.Performed(CursorAfterCalls(c, calls.earlier, rows, cap)).exit != Failed
  }

  function Sizes(calls: Run<FetchCall>, rows: seq<seq<Value>>, cap: nat): Run<pos>
    requires AllOf(calls, rows, cap)
  {
    match calls case Start => Start case Then(earlier, call) => Then(Sizes(earlier, rows, cap), call.f.size)
  }

  /** The code of an error-free fetch is no-data exactly when it delivered nothing, and
      that is what the block specification says. */
  lemma NoDataMeansNoRow(f: Fetch, m: seq<Cell>, c: Cursor, posted: bool)
    requires f.Shaped() && f.FitsIn(|m|) && f.size > 0 && f.Result(m, c, posted).exit != Failed
    ensures var r := f.Result(m, c, posted);
      && (r.Code() == SqlNoData <==> r.count == 0)
      && (r.Code() == SqlNoData <==> FetchCode(c, |f.rows|, f.cap, f.size) == SqlNoData)
  {
    hide Fetch.PlaceRow, Fetch.ClearStatus;
    FetchIsBlock(f, f.ClearStatus(m, f.size), c, 0, posted);
    FetchRowsStep(f, f.ClearStatus(m, f.size), c, 0, posted);
    CompleteIsFull(f, f.ClearStatus(m, f.size), c, 0, posted);
  }

  lemma {:induction false} CompleteIsFull(f: Fetch, m: seq<Cell>, c: Cursor, k: nat, posted: bool)
    requires f.Shaped() && k <= f.size && f.FitsIn(|m|)
    ensures f.FetchRows(m, c, k, posted).exit == Complete ==> f.FetchRows(m, c, k, posted).count == f.size
    decreases f.size - k
  {
    hide Fetch.PlaceRow, Fetch.Account;
    if k < f.size && !AtEnd(c, |f.rows|, f.cap) {
      var p := f.PlaceRow(m, f.rows[c.position], k, 0, posted);
      CompleteIsFull(f, f.Account(p.mem, k), Cursor(c.position + 1, false, c.perSelect + 1), k + 1, p.posted);
    }
  }

  lemma {:induction false} CallsAreBlocks(c: Cursor, calls: Run<FetchCall>, rows: seq<seq<Value>>, cap: nat)
    requires AllOf(calls, rows, cap) && ErrorFree(c, calls, rows, cap)
    ensures CursorAfterCalls(c, calls, rows, cap) == CursorAfter(c, |rows|, cap, Sizes(calls, rows, cap))
  {
    hide Fetch.FetchRows, Fetch.ClearStatus, Fetch.FitsIn, Fetch.Separated, Fetch.Shaped;
    if calls.Then? {
      CallsAreBlocks(c, calls.earlier, rows, cap);
      var call, before := calls.last, CursorAfterCalls(c, calls.earlier, rows, cap);
      FetchIsBlock(call.f, call.f.ClearStatus(call.mem, call.f.size), before, 0, call.posted);
    }
  }

  /** Block fetch in memory.  From a freshly opened result, over any run of error-free
      fetches with changing sizes, bindings and memory, the next fetch puts exactly the
      next rows - those from where the sizes so far have got to - into its row array, as
      many as it asks for and the cap and the result allow; and its code is no-data if
      and only if none remain. */
  lemma FetchesDeliver(calls: Run<FetchCall>, next: FetchCall, rows: seq<seq<Value>>, cap: nat)
    requires AllOf(Then(calls, next), rows, cap) && ErrorFree(Opened, Then(calls, next), rows, cap)
    requires next.f.Separated()
    ensures var all := if cap == 0 then |rows| else Min(cap, |rows|);
      var done := Min(Sum(Sizes(calls, rows, cap)), all);
      var c := CursorAfterCalls(Opened, calls, rows, cap); var r := next.Performed(c);
      && c.position == done && r.count == Min(next.f.size, all - done)
      && (forall i :: 0 <= i < r.count ==> RowStored(next.f, r.mem, c, i))
      && (r.Code() == SqlNoData <==> done == all)
  {
    hide Fetch.Result, Fetch.FitsIn, Fetch.Separated, Fetch.Shaped, RowStored, Fetched.Code;
    CallsAreBlocks(Opened, calls, rows, cap);
    CursorAfterRun(Opened, |rows|, cap, Sizes(calls, rows, cap));
    var c := CursorAfterCalls(Opened, calls, rows, cap);
    RowArrayIsFaithful(next.f, next.mem, c, next.posted);
    NoDataMeansNoRow(next.f, next.mem, c, next.posted);
  }

  // ----- the two layouts -------------------------------------------------------------

  lemma MulMono(a: nat, i: nat, j: nat)
    requires i < j
    ensures a * i + a <= a * j
  {
    assert a * (i + 1) == a * i + a;
    if i + 1 < j {
      MulMono(a, i, j - 1);
      assert a * j == a * (j - 1) + a;
    }
  }

  /** The array a slot belongs to when columns are bound one array each. */
  function ArrayOf(f: Fetch, slot: Slot): Range
    requires f.Present(slot)
  {
    match slot
    case Data(n, _) => Range(f.bindings[n].pointer, f.ElementSize(n) * f.size)
    case Indicator(n, _) => Range(f.bindings[n].indicatorPointer, SIZEOF_SQLLEN * f.size)
    case Status(_) => Range(f.statusPtr, SIZEOF_SQLUSMALLINT * f.size)
    case Counter => Range(f.countPtr, SIZEOF_SQLLEN)
  }

  predicate SameArray(s: Slot, t: Slot)
  {
    match (s, t)
    case (Data(n, _), Data(q, _)) => n == q
    case (Indicator(n, _), Indicator(q, _)) => n == q
    case (Status(_), Status(_)) => true
    case (Counter, Counter) => true
    case _ => false
  }

  function RowOf(slot: Slot): nat { if slot.Counter? then 0 else slot.row }

  /** The elements of column `n` hold at least a terminator, and it has an indicator or
      there is but one row: from the second row on, an address is computed even from a
      null indicator pointer. */
  predicate HoldsItsColumn(f: Fetch, n: nat)
  {
    f.Active(n) ==> f.Extent(n) == f.ElementSize(n) && (f.bindings[n].indicatorPointer != NULL || f.size <= 1)
  }

  /** Everything the fetch may write lies in one of the application's arrays. */
  ghost predicate StaysInArrays(f: Fetch)
  {
    forall slot :: f.Present(slot) ==>
      && f.RangeOf(slot).Inside(ArrayOf(f, slot))
      && (slot.Indicator? ==> f.bindings[slot.n].indicatorPointer != NULL)
  }

  /** A column-wise fetch stays in the application's arrays exactly when they hold their columns. */
  lemma ColumnWiseStaysInArrays(f: Fetch)
    requires f.rowSize == SQL_BIND_BY_COLUMN && f.size > 0
    ensures StaysInArrays(f) <==> forall n :: 0 <= n < |f.bindings| ==> HoldsItsColumn(f, n)
  {
    if StaysInArrays(f) {
      forall n | 0 <= n < |f.bindings| ensures HoldsItsColumn(f, n) {
        if f.Active(n) {
          var last := f.size - 1;
          assert f.Present(Data(n, last));
          assert f.ElementSize(n) * f.size == f.ElementSize(n) * last + f.ElementSize(n);
          if f.bindings[n].indicatorPointer == NULL && f.size > 1 {
            assert f.Present(Indicator(n, 1));
          }
        }
      }
    }
    if forall n :: 0 <= n < |f.bindings| ==> HoldsItsColumn(f, n) {
      forall slot | f.Present(slot)
        ensures f.RangeOf(slot).Inside(ArrayOf(f, slot))
        ensures slot.Indicator? ==> f.bindings[slot.n].indicatorPointer != NULL
      {
        InItsArray(f, slot);
      }
    }
  }

  /** Column-wise binding: the arrays hold their columns and do not overlap. */
  ghost predicate ColumnWise(f: Fetch)
  {
    && f.rowSize == SQL_BIND_BY_COLUMN
    && (forall n :: 0 <= n < |f.bindings| ==> HoldsItsColumn(f, n))
    && (forall s, t :: f.Present(s) && f.Present(t) && !SameArray(s, t) ==> Disjoint(ArrayOf(f, s), ArrayOf(f, t)))
  }

  lemma InItsArray(f: Fetch, slot: Slot)
    requires f.rowSize == SQL_BIND_BY_COLUMN && f.Present(slot)
    requires forall n :: 0 <= n < |f.bindings| ==> HoldsItsColumn(f, n)
    ensures f.RangeOf(slot).Inside(ArrayOf(f, slot))
    ensures slot.Indicator? ==> f.bindings[slot.n].indicatorPointer != NULL
  {
    if IsField(slot) {
      assert HoldsItsColumn(f, slot.n);
    }
    match slot
    case Data(n, row) => MulMono(f.ElementSize(n), row, f.size);
    case Indicator(n, row) => MulMono(SIZEOF_SQLLEN, row, f.size);
    case Status(row) => MulMono(SIZEOF_SQLUSMALLINT, row, f.size);
    case Counter =>
  }

  lemma SameArrayApart(f: Fetch, s: Slot, t: Slot)
    requires ColumnWise(f) && f.Present(s) && f.Present(t) && SameArray(s, t) && RowOf(s) < RowOf(t)
    ensures Disjoint(f.RangeOf(s), f.RangeOf(t))
  {
    if IsField(s) {
      assert HoldsItsColumn(f, s.n);
    }
    match s
    case Data(n, row) => MulMono(f.ElementSize(n), row, t.row);
    case Indicator(n, row) => MulMono(SIZEOF_SQLLEN, row, t.row);
    case Status(row) => MulMono(SIZEOF_SQLUSMALLINT, row, t.row);
  }

  /** Column-wise arrays that do not overlap give pairwise disjoint slots, for any number of rows. */
  lemma ColumnWiseIsSeparated(f: Fetch)
    requires ColumnWise(f)
    ensures f.Separated()
  {
    forall s, t | f.Present(s) && f.Present(t) && s != t ensures f.Apart(s, t) {
      if !SameArray(s, t) {
        InItsArray(f, s);
        InItsArray(f, t);
      } else if RowOf(s) < RowOf(t) {
        SameArrayApart(f, s, t);
      } else {
        SameArrayApart(f, t, s);
      }
    }
  }

  /** Where a field lies in the first record. */
  function FirstOf(f: Fetch, slot: Slot): Range
    requires f.Present(slot) && IsField(slot)
  {
    if slot.Data? then Range(f.bindings[slot.n].pointer, f.Extent(slot.n))
    else Range(f.bindings[slot.n].indicatorPointer, SIZEOF_SQLLEN)
  }

  ghost predicate FieldsInRecord(f: Fetch, record: nat)
  {
    forall s :: f.Present(s) && IsField(s) ==> FirstOf(f, s).Inside(Range(record, f.rowSize))
  }

  ghost predicate FieldsDisjoint(f: Fetch)
  {
    forall s, t :: f.Present(s) && f.Present(t) && IsField(s) && IsField(t) && !SameArray(s, t) ==>
      Disjoint(FirstOf(f, s), FirstOf(f, t))
  }

  ghost predicate OthersOutside(f: Fetch, record: nat)
  {
    && (forall s :: f.Present(s) && !IsField(s) ==> Disjoint(ArrayOf(f, s), Range(record, f.rowSize * f.size)))
    && (forall s, t :: f.Present(s) && f.Present(t) && s.Status? && t.Counter? ==>
          Disjoint(ArrayOf(f, s), ArrayOf(f, t)))
  }

  /** Row-wise binding: the fields lie within the first record without
      overlapping, and the status array and the counter lie outside all records. */
  ghost predicate RowWise(f: Fetch, record: nat)
  {
    f.rowSize > 0 && FieldsInRecord(f, record) && FieldsDisjoint(f) && OthersOutside(f, record)
  }

  /** Field slots lie in their own record, as far in as in the first one. */
  lemma InItsRecord(f: Fetch, record: nat, slot: Slot)
    requires f.rowSize > 0 && FieldsInRecord(f, record) && f.Present(slot) && IsField(slot)
    ensures var r := f.RangeOf(slot); var first := FirstOf(f, slot);
      && r == Range(first.start + f.rowSize * slot.row, first.size)
      && r.Inside(Range(record + f.rowSize * slot.row, f.rowSize))
      && r.Inside(Range(record, f.rowSize * f.size))
  {
    var first := FirstOf(f, slot);
    assert first.Inside(Range(record, f.rowSize));
    assert f.RangeOf(slot) == Range(first.start + f.rowSize * slot.row, first.size);
    MulMono(f.rowSize, slot.row, f.size);
  }

  lemma FieldsApart(f: Fetch, record: nat, s: Slot, t: Slot)
    requires RowWise(f, record) && f.Present(s) && f.Present(t) && s != t
    requires IsField(s) && IsField(t) && s.row <= t.row
    ensures Disjoint(f.RangeOf(s), f.RangeOf(t))
  {
    InItsRecord(f, record, s);
    InItsRecord(f, record, t);
    if s.row < t.row {
      MulMono(f.rowSize, s.row, t.row);
    } else {
      assert !SameArray(s, t);
    }
  }

  lemma OutsideTheRecords(f: Fetch, record: nat, s: Slot, t: Slot)
    requires RowWise(f, record) && f.Present(s) && f.Present(t) && s != t && !IsField(s)
    ensures Disjoint(f.RangeOf(s), f.RangeOf(t))
  {
    if s.Status? { MulMono(SIZEOF_SQLUSMALLINT, s.row, f.size); }
    if t.Status? { MulMono(SIZEOF_SQLUSMALLINT, t.row, f.size); }
    if IsField(t) {
      InItsRecord(f, record, t);
      assert Disjoint(ArrayOf(f, s), Range(record, f.rowSize * f.size));
    }
  }

  /** Row-wise records whose fields do not overlap give pairwise disjoint slots, for any number of rows. */
  lemma RowWiseIsSeparated(f: Fetch, record: nat)
    requires RowWise(f, record)
    ensures f.Separated()
  {
    forall s, t | f.Present(s) && f.Present(t) && s != t ensures f.Apart(s, t) {
      if !IsField(s) {
        OutsideTheRecords(f, record, s, t);
      } else if !IsField(t) {
        OutsideTheRecords(f, record, t, s);
      } else if s.row <= t.row {
        FieldsApart(f, record, s, t);
      } else {
        FieldsApart(f, record, t, s);
      }
    }
  }

  /** A character column receives the longest prefix that fits, and a terminator. */
  lemma CharacterSlot(f: Fetch, n: nat, row: seq<Value>)
    requires n < |f.bindings| && n < |row| && f.Type(n) == CChar && f.bindings[n].bufferLength >= 1
    ensures var data := if row[n].isNull then [] else CString(row[n].text);
      var k := Min(|data|, f.bindings[n].bufferLength - 1); var t := f.ValueOf(n, row);
      && t.Moved? && t.image == Octets(data[..k] + [0])
      && t.indicator == (if row[n].isNull then SQL_NULL_DATA else k)
      && (t.truncated <==> k < |data|)
  {
    var data := Stream(row[n], CChar);
    var k := Min(|data|, f.bindings[n].bufferLength - 1);
    assert data[0..k] == data[..k];
    assert Octets(data[..k]) + Octets([0]) == Octets(data[..k] + [0]);
  }

  /** A wide column receives the longest prefix of whole units that fits, and a two-byte
      terminator; an odd buffer counts the byte it cannot use. */
  lemma WideSlot(f: Fetch, n: nat, row: seq<Value>)
    requires n < |f.bindings| && n < |row| && f.Type(n) == CWide && f.bindings[n].bufferLength >= 2
    ensures var data := if row[n].isNull then [] else row[n].wide;
      var k := Min(|data|, f.bindings[n].bufferLength - 2); var t := f.ValueOf(n, row);
      && t.Moved? && t.image == Octets(data[..k / 2 * 2] + [0, 0])
      && t.indicator == (if row[n].isNull then SQL_NULL_DATA else k)
      && (t.truncated <==> k < |data|)
  {
    var data := Stream(row[n], CWide);
    var k := Min(|data|, f.bindings[n].bufferLength - 2);
    assert data[0..k] == data[..k];
    assert data[..k][..k / 2 * 2] == data[..k / 2 * 2];
    assert Octets(data[..k / 2 * 2]) + Octets([0, 0]) == Octets(data[..k / 2 * 2] + [0, 0]);
  }

  /** A binary column receives the longest prefix that fits, and nothing behind it. */
  lemma BinarySlot(f: Fetch, n: nat, row: seq<Value>)
    requires n < |f.bindings| && n < |row| && f.Type(n) == CBinary && f.bindings[n].bufferLength >= 0
    ensures var data := if row[n].isNull then [] else row[n].blob;
      var k := Min(|data|, f.bindings[n].bufferLength); var t := f.ValueOf(n, row);
      && t.Moved? && t.image == Octets(data[..k])
      && t.indicator == (if row[n].isNull then SQL_NULL_DATA else k)
      && (t.truncated <==> k < |data|)
  {
    var data := Stream(row[n], CBinary);
    var k := Min(|data|, f.bindings[n].bufferLength);
    assert data[0..k] == data[..k];
  }

  /** A number, date or time column receives the value itself, in its own size. */
  lemma FixedSlot(f: Fetch, n: nat, row: seq<Value>)
    requires n < |f.bindings| && n < |row| && f.Type(n).CFixed?
    ensures var t := f.ValueOf(n, row); var size := f.Type(n).size;
      && t.Moved? && t.image == Number(row[n].scalar, size) && !t.truncated
      && t.indicator == if row[n].isNull then SQL_NULL_DATA else size
  {
    FixedTransfer(f.bindings[n].Reset(), row[n], f.Type(n), false);
  }

  /** The type a column is delivered as: the bound one, or the server's for SQL_C_DEFAULT. */
  lemma DeliveredAs(f: Fetch, n: nat)
    requires n < |f.bindings| && n < |f.defaults|
    ensures f.Type(n) == if f.bindings[n].cType.CDefault? then f.defaults[n] else f.bindings[n].cType
  {
  }

  // ----- codes -----------------------------------------------------------------------

  /** A column bound for output that cannot be delivered: its type is not moved, or its
      buffer length is negative. */
  predicate Undeliverable(f: Fetch, n: nat)
  {
    && n < |f.bindings| && f.bindings[n].pointer != NULL && f.bindings[n].direction != SQL_PARAM_INPUT
    && !(f.Type(n).CFixed? || (f.Type(n).Streamed() && 0 <= f.bindings[n].bufferLength))
  }

  /** Placing a row fails exactly when one of the columns left cannot be delivered; placed,
      it posts information exactly when one of them is truncated. */
  lemma {:induction false} PlaceRowOutcome(f: Fetch, m: seq<Cell>, row: seq<Value>, i: nat, n: nat, posted: bool)
    requires f.Shaped() && |row| == |f.defaults| && i < f.size && n <= |f.bindings| && f.FitsIn(|m|)
    ensures var p := f.PlaceRow(m, row, i, n, posted);
      && (!p.ok <==> exists q :: n <= q < |f.bindings| && Undeliverable(f, q))
      && (p.ok ==> (p.posted <==> posted || RowTruncates(f, row, n)))
    decreases |f.bindings| - n
  {
    hide Fetch.RangeOf, Fetch.FitsIn, ValueTransfer.DataAddress, ValueTransfer.IndicatorAddress, Stored, HasRoom, SetValue;
    PlaceRowStep(f, m, row, i, n, posted);
    if n < |f.bindings| {
      if !f.Active(n) {
        PlaceRowOutcome(f, m, row, i, n + 1, posted);
      } else {
        RejectedExactly(f.bindings[n].Reset(), row[n], f.Type(n), false);
        var t := f.ValueOf(n, row);
        if t.Moved? {
          var b := f.bindings[n].Reset();
          var data := ValueTransfer.DataAddress(b, f.Type(n), i, f.rowSize);
          var indicator := ValueTransfer.IndicatorAddress(b, i, f.rowSize);
          PlaceRowOutcome(f, Stored(m, t, data, indicator), row, i, n + 1, posted || t.truncated);
        } else {
          assert Undeliverable(f, n);
        }
      }
    }
  }

  /** One of the columns of a row, from `n` on, is delivered cut. */
  predicate RowTruncates(f: Fetch, row: seq<Value>, n: nat)
  {
    exists q :: n <= q < |f.bindings| && q < |row| && f.Active(q) && f.ValueOf(q, row).Moved? && f.ValueOf(q, row).truncated
  }

  /** A fetch fails exactly when there is a row to deliver and a column that cannot be
      delivered; then it delivers none. */
  lemma FetchFailsExactly(f: Fetch, m: seq<Cell>, c: Cursor, posted: bool)
    requires f.Shaped() && f.FitsIn(|m|)
    ensures var r := f.Result(m, c, posted);
      && (r.exit == Failed <==> f.size > 0 && Visible(c, |f.rows|, f.cap) > 0 && exists q :: 0 <= q < |f.bindings| && Undeliverable(f, q))
      && (r.exit == Failed ==> r.count == 0)
      && (r.Code() == SqlError <==> r.exit == Failed)
      && (r.Code() == SqlNoData <==> r.exit == Exhausted && r.count == 0)
      && (r.Code() == SqlSuccess || r.Code() == SqlSuccessWithInfo ==> (r.Code() == SqlSuccessWithInfo <==> r.posted))
  {
    hide Fetch.PlaceRow, Fetch.ClearStatus, Fetch.Account;
    FailsAtOnce(f, f.ClearStatus(m, f.size), c, 0, posted);
  }

  lemma {:induction false} FailsAtOnce(f: Fetch, m: seq<Cell>, c: Cursor, k: nat, posted: bool)
    requires f.Shaped() && f.FitsIn(|m|) && k <= f.size
    ensures var r := f.FetchRows(m, c, k, posted);
      && (r.exit == Failed <==> k < f.size && Visible(c, |f.rows|, f.cap) > 0 && exists q :: 0 <= q < |f.bindings| && Undeliverable(f, q))
      && (r.exit == Failed ==> r.count == k)
    decreases f.size - k
  {
    hide Fetch.PlaceRow, Fetch.Account, Undeliverable;
    if k < f.size && !AtEnd(c, |f.rows|, f.cap) {
      PlaceRowOutcome(f, m, f.rows[c.position], k, 0, posted);
      var p := f.PlaceRow(m, f.rows[c.position], k, 0, posted);
      if p.ok {
        FailsAtOnce(f, f.Account(p.mem, k), Cursor(c.position + 1, false, c.perSelect + 1), k + 1, p.posted);
      }
    }
  }

  /** An error-free fetch has information posted exactly when it had before, or a delivered
      row was cut. */
  lemma {:induction false} PostedExactly(f: Fetch, m: seq<Cell>, c: Cursor, k: nat, posted: bool)
    requires f.Shaped() && f.FitsIn(|m|) && k <= f.size && f.FetchRows(m, c, k, posted).exit != Failed
    ensures var r := f.FetchRows(m, c, k, posted);
      r.posted <==> posted || exists j :: c.position <= j < r.cursor.position && j < |f.rows| && RowTruncates(f, f.rows[j], 0)
    decreases f.size - k
  {
    hide Fetch.PlaceRow, Fetch.Account, RowTruncates;
    if k < f.size && !AtEnd(c, |f.rows|, f.cap) {
      PlaceRowOutcome(f, m, f.rows[c.position], k, 0, posted);
      var p := f.PlaceRow(m, f.rows[c.position], k, 0, posted);
      PostedExactly(f, f.Account(p.mem, k), Cursor(c.position + 1, false, c.perSelect + 1), k + 1, p.posted);
      FetchIsBlock(f, m, c, k, posted);
      BlockSpec(c, |f.rows|, f.cap, f.size - k);
      assert RowTruncates(f, f.rows[c.position], 0) ==> p.posted;
    }
  }
}

/** The filtered and mapped view of a catalog result set (src/ResultSetMapper.cpp,
    src/GetDataTypeFilter.cpp, src/OdbcTypeMapper.cpp, src/GetMapper.cpp). */
module ResultSetMappers {
  import opened Odbc

  type int16 = x: int | -0x8000 <= x < 0x8000
  type int32 = x: int | -0x8000_0000 <= x < 0x8000_0000
  type int64 = x: int | -0x8000_0000_0000_0000 <= x < 0x8000_0000_0000_0000

  const DATA_TYPE := "DATA_TYPE"

  /** What the server's getters answer for one column of one row. */
  datatype Cell = Cell(asShort: int16, asInt: int32, asLong: int64, text: string)
  {
    /** The server holds the number `n`, and every getter can show it. */
    predicate IsShort(n: int) { asShort == n && asInt == n && asLong == n }
  }

  type Row = seq<Cell>

  /** NuoDB's numbers for its large-object types and for the two ODBC types that
      stand for them. */
  datatype TypeCodes = TypeCodes(blob: int16, clob: int16, longVarBinary: int16, longVarChar: int16)

  type codes = c: TypeCodes |
      c.blob != c.clob && c.longVarBinary != c.longVarChar
      && c.blob != c.longVarBinary && c.blob != c.longVarChar
      && c.clob != c.longVarBinary && c.clob != c.longVarChar
    witness TypeCodes(1, 2, 3, 4)

  // ----- OdbcTypeMapper ------------------------------------------------------------

  function MapType(c: codes, raw: int): int
  {
    if raw == c.blob then c.longVarBinary else if raw == c.clob then c.longVarChar else raw
  }

  /** A C cast to a 16- or 32-bit integer. */
  function ToShort(x: int): int16 { (x + 0x8000) % 0x1_0000 - 0x8000 }

  function ToInt(x: int): int32 { (x + 0x8000_0000) % 0x1_0000_0000 - 0x8000_0000 }

  /** A column's mapper: the overridden getters map, all others hand the value on. */
  datatype GetMapper = OdbcTypeMapper(column: string, types: codes)
  {
    function GetShort(value: int16): int16 { ToShort(MapType(types, value)) }
    function GetInt(value: int32): int32 { ToInt(MapType(types, value)) }
    function GetLong(value: int64): int64 { MapType(types, ToInt(value)) }
    function GetString(value: string): string { value }
  }

  /** The short and int getters show the mapped code itself. */
  lemma ShortAndIntAreExact(m: GetMapper, short: int16, value: int32)
    ensures m.GetShort(short) == MapType(m.types, short)
    ensures m.GetInt(value) == MapType(m.types, value)
  {}

  /** The long getter narrows the value first, so it does exactly when the value fits in 32 bits. */
  lemma LongIsExactWithin32Bits(m: GetMapper, value: int64)
    ensures m.GetLong(value) == MapType(m.types, value) <==> -0x8000_0000 <= value < 0x8000_0000
  {
    assert -0x8000_0000 <= m.GetLong(value) < 0x8000_0000;
    if -0x8000_0000 <= value < 0x8000_0000 {
      assert ToInt(value) == value;
    }
  }

  /** The filter compares the server's code, the application sees the mapped one.
      Asking for `code` shows exactly the rows that display `code` unless it is one of the
      four large-object codes. */
  lemma RawFilterIsDisplayFilter(c: codes, code: int32)
    ensures (forall raw: int32 :: raw == code <==> MapType(c, raw) == code)
      <==> code !in {c.blob, c.clob, c.longVarBinary, c.longVarChar}
  {
    assert MapType(c, c.blob) == c.longVarBinary && MapType(c, c.clob) == c.longVarChar;
  }

  // ----- the rows a filter lets through --------------------------------------------

  /** The zero-based position of the filter's column and the code it asks for. */
  datatype Wanted = Wanted(column: nat, code: int32)

  predicate Keeps(want: Option<Wanted>, row: Row)
  {
    want.Some? ==> want.value.column < |row| && row[want.value.column].asInt == want.value.code
  }

  function Selected(want: Option<Wanted>, rows: seq<Row>): seq<Row>
  {
    if rows == [] then []
    else (if Keeps(want, rows[0]) then [rows[0]] else []) + Selected(want, rows[1..])
  }

  /** One call of `next` with the base's cursor after `p` rows: where the cursor goes, and
      whether there is a row. */
  function Advance(want: Option<Wanted>, rows: seq<Row>, p: nat): (r: (nat, bool))
    requires p <= |rows|
    ensures p <= r.0 <= |rows| && (r.1 ==> p < r.0) && (!r.1 ==> r.0 == |rows|)
    decreases |rows| - p
  {
    if p == |rows| then (p, false)
    else if Keeps(want, rows[p]) then (p + 1, true)
    else Advance(want, rows, p + 1)
  }

  function PositionAfter(want: Option<Wanted>, rows: seq<Row>, calls: nat): (p: nat)
    ensures p <= |rows|
  {
    if calls == 0 then 0 else Advance(want, rows, PositionAfter(want, rows, calls - 1)).0
  }

  /** The rows under the cursor after each of the first calls that found one. */
  function Visited(want: Option<Wanted>, rows: seq<Row>, calls: nat): seq<Row>
  {
    if calls == 0 then []
    else
      var (q, more) := Advance(want, rows, PositionAfter(want, rows, calls - 1));
      Visited(want, rows, calls - 1) + if more then [rows[q - 1]] else []
  }

  lemma {:induction false} AdvanceSelects(want: Option<Wanted>, rows: seq<Row>, p: nat)
    requires p <= |rows|
    ensures var (q, more) := Advance(want, rows, p);
      Selected(want, rows[p..]) == if more then [rows[q - 1]] + Selected(want, rows[q..]) else []
    decreases |rows| - p
  {
    if p < |rows| {
      assert rows[p..][1..] == rows[p + 1..];
      if !Keeps(want, rows[p]) {
        AdvanceSelects(want, rows, p + 1);
      }
    }
  }

  lemma SelectedNone(want: Option<Wanted>)
    ensures Selected(want, []) == []
  {}

  lemma {:induction false} VisitedAndAhead(want: Option<Wanted>, rows: seq<Row>, calls: nat)
    ensures Visited(want, rows, calls) + Selected(want, rows[PositionAfter(want, rows, calls)..])
      == Selected(want, rows)
    ensures |Visited(want, rows, calls)| == Min(calls, |Selected(want, rows)|)
  {
    hide Advance, Keeps, Selected;
    if calls == 0 {
      assert rows[0..] == rows;
    } else {
      VisitedAndAhead(want, rows, calls - 1);
      var p := PositionAfter(want, rows, calls - 1);
      AdvanceSelects(want, rows, p);
      var visited, ahead := Visited(want, rows, calls - 1), Selected(want, rows[p..]);
      var (q, more) := Advance(want, rows, p);
      assert |visited + ahead| == |visited| + |ahead|;
      if more {
        assert visited + ([rows[q - 1]] + ahead[1..]) == (visited + [rows[q - 1]]) + ahead[1..];
        assert ahead[1..] == Selected(want, rows[q..]);
      } else {
        assert rows[q..] == [];
        assert Selected(want, []) == [] by {
          SelectedNone(want);
        }
      }
    }
  }

  /** Repeated `next` visits exactly the selected rows, each once and in order, and then
      answers that there are no more for good. */
  lemma NextVisitsTheSelection(want: Option<Wanted>, rows: seq<Row>, calls: nat)
    ensures Visited(want, rows, calls) == Selected(want, rows)[..Min(calls, |Selected(want, rows)|)]
    ensures Advance(want, rows, PositionAfter(want, rows, calls)).1 <==> calls < |Selected(want, rows)|
  {
    hide Advance, Keeps, Selected;
    VisitedAndAhead(want, rows, calls);
    VisitedAndAhead(want, rows, calls + 1);
    var visited, all := Visited(want, rows, calls), Selected(want, rows);
    assert all[..|visited|] == visited;
  }

  /** Without a filter every row is selected. */
  lemma {:induction false} NoFilterSelectsAll(rows: seq<Row>)
    ensures Selected(None, rows) == rows
  {
    if rows != [] {
      NoFilterSelectsAll(rows[1..]);
    }
  }

  /** The selection holds a row exactly when the base does and the filter keeps it. */
  lemma {:induction false} SelectedRows(want: Option<Wanted>, rows: seq<Row>, row: Row)
    ensures multiset(Selected(want, rows))[row] ==
      if want.None? || (want.value.column < |row| && row[want.value.column].asInt == want.value.code)
      then multiset(rows)[row] else 0
  {
    if rows != [] {
      SelectedRows(want, rows[1..], row);
      assert rows == [rows[0]] + rows[1..];
    }
  }

  // ----- the classes ---------------------------------------------------------------

  /** Position, counted from one, of the first column called `name`. */
  function ColumnIn(names: seq<string>, name: string): (k: nat)
    requires name in names
    ensures 1 <= k <= |names| && names[k - 1] == name
  {
    if names[0] == name then 1 else ColumnIn(names[1..], name) + 1
  }

  lemma {:induction false} ColumnIsFirst(names: seq<string>, name: string)
    requires name in names
    ensures forall j :: 0 <= j < ColumnIn(names, name) - 1 ==> names[j] != name
  {
    if names[0] != name {
      ColumnIsFirst(names[1..], name);
      assert forall j :: 0 < j < |names| ==> names[j] == names[1..][j - 1];
    }
  }

  /** The server's catalog result set. */
  class Catalog {
    const names: seq<string>
    const rows: seq<Row>
    var position: nat

    constructor (names: seq<string>, rows: seq<Row>)
      requires forall r :: 0 <= r < |rows| ==> |rows[r]| == |names|
      ensures Valid() && this.names == names && this.rows == rows && position == 0
    {
      this.names, this.rows, position := names, rows, 0;
    }

    predicate Valid()
      reads this
    {
      position <= |rows| && forall r :: 0 <= r < |rows| ==> |rows[r]| == |names|
    }

    method Next() returns (more: bool)
      requires Valid()
      modifies this
      ensures Valid() && more == (old(position) < |rows|)
      ensures position == if more then old(position) + 1 else old(position)
    {
      more := position < |rows|;
      if more {
        position := position + 1;
      }
    }

    function FindColumn(name: string): (k: nat)
      requires name in names
    {
      ColumnIn(names, name)
    }

    predicate OnRow()
      reads this
    {
      Valid() && 0 < position
    }

    /** The cell a getter reads; columns count from one. */
    function At(column: nat): Cell
      requires OnRow() && 1 <= column <= |names|
      reads this
    {
      rows[position - 1][column - 1]
    }
  }

  class GetDataTypeFilter {
    const sqlDataType: int32
    var colIndex: int

    constructor (singleDataType: int32)
      ensures sqlDataType == singleDataType && colIndex == -1
    {
      sqlDataType, colIndex := singleDataType, -1;
    }

    predicate Caches(rset: Catalog)
      reads this
    {
      DATA_TYPE in rset.names && (colIndex != -1 ==> colIndex == rset.FindColumn(DATA_TYPE))
    }

    function Wants(rset: Catalog): Wanted
      requires DATA_TYPE in rset.names
    {
      Wanted(rset.FindColumn(DATA_TYPE) - 1, sqlDataType)
    }

    /** `accept`: looks the column up once. */
    method Accept(rset: Catalog) returns (r: bool)
      requires rset.OnRow() && Caches(rset)
      modifies this
      ensures Caches(rset) && colIndex != -1
      ensures r == Keeps(Some(Wants(rset)), rset.rows[rset.position - 1])
    {
      if colIndex == -1 {
        colIndex := rset.FindColumn(DATA_TYPE);
      }
      r := rset.At(colIndex).asInt == sqlDataType;
    }
  }

  class ResultSetMapper {
    const base: Catalog
    const rowFilter: GetDataTypeFilter?
    var getMappers: seq<Option<GetMapper>>

    constructor (b: Catalog, mapper: Option<GetMapper>, newFilter: GetDataTypeFilter?)
      requires b.Valid() && (newFilter != null ==> newFilter.Caches(b))
      requires mapper.Some? ==> mapper.value.column in b.names
      ensures Valid() && base == b && rowFilter == newFilter
      ensures forall k :: 1 <= k <= |b.names| ==>
        MapperOf(k) == if mapper.Some? && k == b.FindColumn(mapper.value.column) then mapper else None
    {
      base, rowFilter := b, newFilter;
      getMappers := seq(|b.names|, i => None);
      new;
      if mapper.Some? {
        RegisterGetMapper(mapper.value);
      }
    }

    ghost predicate Valid()
      reads this, base, rowFilter
    {
      base.Valid() && |getMappers| == |base.names| && (rowFilter != null ==> rowFilter.Caches(base))
    }

    function MapperOf(column: nat): Option<GetMapper>
      requires 1 <= column <= |getMappers|
      reads this
    {
      getMappers[column - 1]
    }

    ghost function Want(): Option<Wanted>
      requires Valid()
      reads this, base, rowFilter
    {
      if rowFilter == null then None else Some(rowFilter.Wants(base))
    }

    method RegisterGetMapper(mapper: GetMapper)
      requires Valid() && mapper.column in base.names
      modifies this
      ensures Valid()
      ensures getMappers == old(getMappers)[base.FindColumn(mapper.column) - 1 := Some(mapper)]
    {
      var column := base.FindColumn(mapper.column) - 1;
      getMappers := getMappers[column := Some(mapper)];
    }

    /** `next`: skips the rows the filter refuses. */
    method Next() returns (hasNext: bool)
      requires Valid()
      modifies base, rowFilter
      ensures Valid() && Want() == old(Want())
      ensures (base.position, hasNext) == Advance(Want(), base.rows, old(base.position))
    {
      ghost var want := Want();
      hasNext := base.Next();
      var refused := false;
      if hasNext && rowFilter != null {
        var accepted := rowFilter.Accept(base);
        refused := !accepted;
      }
      while hasNext && refused
        invariant Valid() && Want() == want && (hasNext ==> base.OnRow())
        invariant hasNext ==> refused == !Keeps(want, base.rows[base.position - 1])
        invariant Advance(want, base.rows, old(base.position))
          == if !hasNext then (base.position, false)
             else if refused then Advance(want, base.rows, base.position)
             else (base.position, true)
        decreases |base.rows| - base.position, hasNext
      {
        hasNext := base.Next();
        refused := false;
        if hasNext && rowFilter != null {
          var accepted := rowFilter.Accept(base);
          refused := !accepted;
        }
      }
    }

    function GetShort(column: nat): int16
      requires Valid() && base.OnRow() && 1 <= column <= |base.names|
      reads this, base, rowFilter
    {
      match MapperOf(column)
      case Some(gf) => gf.GetShort(base.At(column).asShort)
      case None => base.At(column).asShort
    }

    function GetInt(column: nat): int32
      requires Valid() && base.OnRow() && 1 <= column <= |base.names|
      reads this, base, rowFilter
    {
      match MapperOf(column)
      case Some(gf) => gf.GetInt(base.At(column).asInt)
      case None => base.At(column).asInt
    }

    function GetLong(column: nat): int64
      requires Valid() && base.OnRow() && 1 <= column <= |base.names|
      reads this, base, rowFilter
    {
      match MapperOf(column)
      case Some(gf) => gf.GetLong(base.At(column).asLong)
      case None => base.At(column).asLong
    }

    /** `getString` stands for every getter the type mapper does not override. */
    function GetString(column: nat): string
      requires Valid() && base.OnRow() && 1 <= column <= |base.names|
      reads this, base, rowFilter
    {
      match MapperOf(column)
      case Some(gf) => gf.GetString(base.At(column).text)
      case None => base.At(column).text
    }

    function GetShortByName(column: string): int16
      requires Valid() && base.OnRow() && column in base.names
      reads this, base, rowFilter
    {
      GetShort(base.FindColumn(column))
    }

    function GetIntByName(column: string): int32
      requires Valid() && base.OnRow() && column in base.names
      reads this, base, rowFilter
    {
      GetInt(base.FindColumn(column))
    }

    function GetLongByName(column: string): int64
      requires Valid() && base.OnRow() && column in base.names
      reads this, base, rowFilter
    {
      GetLong(base.FindColumn(column))
    }

    function GetStringByName(column: string): string
      requires Valid() && base.OnRow() && column in base.names
      reads this, base, rowFilter
    {
      GetString(base.FindColumn(column))
    }
  }

  lemma TypeByPosition(view: ResultSetMapper, c: codes, raw: int, k: nat)
    requires view.Valid() && view.base.OnRow() && 1 <= k <= |view.base.names|
    requires view.MapperOf(k) == Some(OdbcTypeMapper(DATA_TYPE, c)) && view.base.At(k).IsShort(raw)
    ensures var shown := if raw == c.blob then c.longVarBinary else if raw == c.clob then c.longVarChar else raw;
      && view.GetShort(k) == view.GetInt(k) == view.GetLong(k) == shown && view.GetString(k) == view.base.At(k).text
  {
    hide ColumnIn, ToShort, ToInt, ResultSetMapper.Valid, ResultSetMapper.MapperOf;
    ShortAndIntAreExact(OdbcTypeMapper(DATA_TYPE, c), raw, raw);
    LongIsExactWithin32Bits(OdbcTypeMapper(DATA_TYPE, c), raw);
  }

  lemma FilterSeesTheCode(view: ResultSetMapper, raw: int)
    requires view.Valid() && view.base.OnRow() && DATA_TYPE in view.base.names
    requires view.rowFilter != null && view.base.At(view.base.FindColumn(DATA_TYPE)).IsShort(raw)
    ensures Keeps(view.Want(), view.base.rows[view.base.position - 1]) <==> raw == view.rowFilter.sqlDataType
  {
    hide ColumnIn;
  }

  /** On the row a filtered view shows, DATA_TYPE reads as the mapped code through each
      integer getter, by position or by name, and the filter saw the server's code. */
  lemma DisplayedType(view: ResultSetMapper, c: codes, raw: int)
    requires view.Valid() && view.base.OnRow() && DATA_TYPE in view.base.names
    requires var k := view.base.FindColumn(DATA_TYPE);
      view.MapperOf(k) == Some(OdbcTypeMapper(DATA_TYPE, c)) && view.base.At(k).IsShort(raw)
    ensures var k := view.base.FindColumn(DATA_TYPE);
      var shown := if raw == c.blob then c.longVarBinary else if raw == c.clob then c.longVarChar else raw;
      && view.GetShort(k) == view.GetInt(k) == view.GetLong(k) == shown
      && view.GetShortByName(DATA_TYPE) == view.GetIntByName(DATA_TYPE) == view.GetLongByName(DATA_TYPE) == shown
      && view.GetString(k) == view.GetStringByName(DATA_TYPE) == view.base.At(k).text
    ensures view.rowFilter != null ==>
      (Keeps(view.Want(), view.base.rows[view.base.position - 1]) <==> raw == view.rowFilter.sqlDataType)
  {
    hide ColumnIn, ToShort, ToInt, ResultSetMapper.GetShort, ResultSetMapper.GetInt, ResultSetMapper.GetLong, ResultSetMapper.GetString;
    TypeByPosition(view, c, raw, view.base.FindColumn(DATA_TYPE));
    if view.rowFilter != null {
      FilterSeesTheCode(view, raw);
    }
  }

  /** A view made over DATA_TYPE leaves every other column as the server shows it, by
      position and by name. */
  lemma OtherColumnsUnchanged(view: ResultSetMapper, k: nat, name: string)
    requires view.Valid() && view.base.OnRow() && 1 <= k <= |view.base.names|
    requires view.MapperOf(k) == None
    ensures var cell := view.base.At(k);
      && view.GetShort(k) == cell.asShort && view.GetInt(k) == cell.asInt
      && view.GetLong(k) == cell.asLong && view.GetString(k) == cell.text
    ensures name in view.base.names && view.base.FindColumn(name) == k ==>
      var cell := view.base.At(k);
      && view.GetShortByName(name) == cell.asShort && view.GetIntByName(name) == cell.asInt
      && view.GetLongByName(name) == cell.asLong && view.GetStringByName(name) == cell.text
  {
    hide ColumnIn;
  }
}

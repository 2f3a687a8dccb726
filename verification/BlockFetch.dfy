/** Which rows a run of `sqlFetch` calls delivers: the row cap, sticky end of data
    and arbitrary row-array sizes. */
module BlockFetch {
  import opened Odbc

  /** The statement's place in its result set: rows taken, `eof` and `rowCountPerSelect`. */
  datatype Cursor = Cursor(position: nat, eof: bool, perSelect: nat)

  /** The cursor `getResultSet` leaves. */
  const Opened := Cursor(0, false, 0)

  predicate AtEnd(c: Cursor, total: nat, cap: nat)
  {
    c.eof || (cap > 0 && c.perSelect >= cap) || c.position >= total
  }

  /** One `sqlFetch` of up to `size` rows: how many it delivers and where it leaves the cursor. */
  function Block(c: Cursor, total: nat, cap: nat, size: nat): (nat, Cursor)
    decreases size
  {
    if size == 0 then (0, c)
    else if AtEnd(c, total, cap) then (0, c.(eof := true))
    else
      var (k, end) := Block(Cursor(c.position + 1, false, c.perSelect + 1), total, cap, size - 1);
      (k + 1, end)
  }

  /** The rows that can still be delivered. */
  function Visible(c: Cursor, total: nat, cap: nat): nat
  {
    var left := Max(0, total - c.position);
    if c.eof then 0 else if cap == 0 then left else Min(left, Max(0, cap - c.perSelect))
  }

  lemma {:induction false} BlockSpec(c: Cursor, total: nat, cap: nat, size: nat)
    ensures var (k, end) := Block(c, total, cap, size);
      && k == Min(size, Visible(c, total, cap))
      && end == Cursor(c.position + k, c.eof || size > Visible(c, total, cap), c.perSelect + k)
    decreases size
  {
    if size > 0 && !AtEnd(c, total, cap) {
      BlockSpec(Cursor(c.position + 1, false, c.perSelect + 1), total, cap, size - 1);
    }
  }

  // ----- runs of fetches -------------------------------------------------------------

  function CursorAfter(c: Cursor, total: nat, cap: nat, sizes: Run<pos>): Cursor
  {
    match sizes
    case Start => c
    case Then(earlier, size) => Block(CursorAfter(c, total, cap, earlier), total, cap, size).1
  }

  /** All rows delivered by a run of fetches, in order. */
  function Delivered<R>(c: Cursor, rows: seq<R>, cap: nat, sizes: Run<pos>): seq<R>
  {
    match sizes
    case Start => []
    case Then(earlier, size) =>
      var before := CursorAfter(c, |rows|, cap, earlier);
      var k := Block(before, |rows|, cap, size).0;
      Delivered(c, rows, cap, earlier) +
      (if before.position + k <= |rows| then rows[before.position..before.position + k] else [])
  }

  function Sum(sizes: Run<pos>): nat
  {
    match sizes case Start => 0 case Then(earlier, size) => Sum(earlier) + size
  }

  /** The return code of a fetch that meets no error and no posted information. */
  function FetchCode(c: Cursor, total: nat, cap: nat, size: pos): RetCode
  {
    if Block(c, total, cap, size).0 == 0 then SqlNoData else SqlSuccess
  }

  /** Where a run of fetches leaves the cursor. */
  lemma {:induction false} CursorAfterRun(c: Cursor, total: nat, cap: nat, sizes: Run<pos>)
    ensures var k := Min(Sum(sizes), Visible(c, total, cap)); var end := CursorAfter(c, total, cap, sizes);
      && end == Cursor(c.position + k, c.eof || Sum(sizes) > Visible(c, total, cap), c.perSelect + k)
      && Visible(end, total, cap) == Visible(c, total, cap) - k
  {
    match sizes
    case Start =>
    case Then(earlier, size) =>
      CursorAfterRun(c, total, cap, earlier);
      BlockSpec(CursorAfter(c, total, cap, earlier), total, cap, size);
  }

  /** A run delivers exactly the next visible rows, each once and in order, as many
      as were asked for. */
  lemma {:induction false} RunDeliversVisibleRows<R>(c: Cursor, rows: seq<R>, cap: nat, sizes: Run<pos>)
    requires c.position <= |rows|
    ensures var k := Min(Sum(sizes), Visible(c, |rows|, cap));
      c.position + k <= |rows| && Delivered(c, rows, cap, sizes) == rows[c.position..c.position + k]
  {
    match sizes
    case Start =>
    case Then(earlier, size) =>
      RunDeliversVisibleRows(c, rows, cap, earlier);
      CursorAfterRun(c, |rows|, cap, earlier);
      var before := CursorAfter(c, |rows|, cap, earlier);
      BlockSpec(before, |rows|, cap, size);
      var k := Block(before, |rows|, cap, size).0;
      assert rows[c.position..before.position] + rows[before.position..before.position + k]
          == rows[c.position..before.position + k];
  }

  /** A further fetch reports no data if and only if all visible rows have been delivered. */
  lemma NoDataExactlyAtTheEnd(c: Cursor, total: nat, cap: nat, sizes: Run<pos>, next: pos)
    ensures FetchCode(CursorAfter(c, total, cap, sizes), total, cap, next) == SqlNoData
        <==> Sum(sizes) >= Visible(c, total, cap)
  {
    CursorAfterRun(c, total, cap, sizes);
    BlockSpec(CursorAfter(c, total, cap, sizes), total, cap, next);
  }

  /** From a freshly opened result set: the first `cap` rows, or all of them without a cap. */
  lemma OpenedResultIsDeliveredInFull<R>(rows: seq<R>, cap: nat, sizes: Run<pos>, next: pos)
    ensures var all := if cap == 0 then |rows| else Min(cap, |rows|);
      && Delivered(Opened, rows, cap, sizes) == rows[..Min(Sum(sizes), all)]
      && (FetchCode(CursorAfter(Opened, |rows|, cap, sizes), |rows|, cap, next) == SqlNoData <==> Sum(sizes) >= all)
  {
    RunDeliversVisibleRows(Opened, rows, cap, sizes);
    NoDataExactlyAtTheEnd(Opened, |rows|, cap, sizes, next);
  }

  function Singles(n: nat): Run<pos>
  {
    if n == 0 then Start else Then(Singles(n - 1), 1)
  }

  lemma {:induction false} SumOfSingles(n: nat)
    ensures Sum(Singles(n)) == n
  {
    if n > 0 {
      SumOfSingles(n - 1);
    }
  }

  /** Block fetch refines row-at-a-time fetch: any run of blocks delivers the rows,
      and leaves the cursor, of the same number of single-row fetches. */
  lemma BlocksRefineSingleRows<R>(c: Cursor, rows: seq<R>, cap: nat, sizes: Run<pos>)
    requires c.position <= |rows|
    ensures Delivered(c, rows, cap, sizes) == Delivered(c, rows, cap, Singles(Sum(sizes)))
    ensures CursorAfter(c, |rows|, cap, sizes) == CursorAfter(c, |rows|, cap, Singles(Sum(sizes)))
  {
    RunDeliversVisibleRows(c, rows, cap, sizes);
    RunDeliversVisibleRows(c, rows, cap, Singles(Sum(sizes)));
    CursorAfterRun(c, |rows|, cap, sizes);
    CursorAfterRun(c, |rows|, cap, Singles(Sum(sizes)));
    SumOfSingles(Sum(sizes));
  }

  /** End of data is sticky, even if the cap is raised or rows were to appear. */
  lemma {:induction false} EndIsSticky(c: Cursor, total: nat, cap: nat, sizes: Run<pos>)
    requires c.eof
    ensures CursorAfter(c, total, cap, sizes) == c
  {
    if sizes.Then? {
      EndIsSticky(c, total, cap, sizes.earlier);
    }
  }

  /** A result set opened without resetting `rowCountPerSelect` (the catalog calls)
      inherits `seen` rows against its cap: it still shows all the rows the cap
      allows exactly when nothing was counted before, or what is left of the cap
      covers the result. */
  lemma InheritedCountShrinksCap(total: nat, cap: pos, seen: nat)
    ensures Visible(Cursor(0, false, seen), total, cap) == Min(total, cap) <==> (seen == 0 || total <= cap - seen || total == 0)
  {
  }

  /** What a next-result request that finds no further result leaves: without a server
      statement nothing changes; with one, end-of-data and the count are forgotten. */
  function AfterRefusedRequest(c: Cursor, prepared: bool): Cursor
  {
    if prepared then c.(eof := false, perSelect := 0) else c
  }

  /** After a result has been read to its end, a refused next-result request makes more of
      its rows come out exactly when the statement is prepared, the server keeps the old
      result open, and the cap had held rows back.  Without a server statement, as for
      every catalog result, end of data stays.  `open`: the server's rows can still be
      read after the request. */
  lemma RefusedRequestReopens(total: nat, cap: nat, sizes: Run<pos>, prepared: bool, open: bool)
    requires Sum(sizes) > Visible(Opened, total, cap)
    ensures var end := CursorAfter(Opened, total, cap, sizes);
      var offered := if open then total else end.position;
      && Visible(end, total, cap) == 0
      && (Visible(AfterRefusedRequest(end, prepared), offered, cap) > 0 <==> prepared && open && 0 < cap < total)
  {
    CursorAfterRun(Opened, total, cap, sizes);
  }
}

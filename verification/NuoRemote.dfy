/** The server's side, as far as the driver core sees it. */
module NuoRemote {
  import opened Odbc
  import opened ValueTransfer

  /** A result set: rows, the C type the driver's table gives each column, and a cursor
      that has passed `position` rows. */
  class ResultSet {
    const rows: seq<seq<Value>>
    const defaults: seq<CType>
    var position: nat

    constructor (rows: seq<seq<Value>>, defaults: seq<CType>)
      requires forall r :: 0 <= r < |rows| ==> |rows[r]| == |defaults|
      ensures this.rows == rows && this.defaults == defaults && position == 0
      ensures Valid()
    {
      this.rows, this.defaults, position := rows, defaults, 0;
    }

    predicate Valid()
      reads this
    {
      position <= |rows| && forall r :: 0 <= r < |rows| ==> |rows[r]| == |defaults|
    }

    method Next() returns (more: bool)
      requires Valid()
      modifies this
      ensures Valid() && more == (old(position) < |rows|)
      ensures position == if more then old(position) + 1 else old(position)
    {
      more := position < |rows|;
      if more {
        position := position + 1;
      }
    }
  }
}

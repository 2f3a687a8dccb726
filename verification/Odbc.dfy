/** The part of the ODBC vocabulary the driver core uses: return codes, length
    sentinels, parameter directions and the C data types, grouped by what the
    driver does with them. */
module Odbc {

  datatype RetCode = SqlSuccess | SqlSuccessWithInfo | SqlNeedData | SqlNoData | SqlError

  const SQL_NULL_DATA := -1
  const SQL_DATA_AT_EXEC := -2
  const SQL_NTS := -3
  const SQL_LEN_DATA_AT_EXEC_OFFSET := -100

  const SQL_PARAM_INPUT := 1
  const SQL_PARAM_OUTPUT := 4

  const SQL_BIND_BY_COLUMN: nat := 0
  const SIZEOF_SQLLEN: nat := 8
  const SIZEOF_SQLUSMALLINT: nat := 2

  type byte = x: int | 0 <= x < 256
  type pos = n: int | 0 < n witness 1

  /** Bytes still owed for a data-at-execution parameter; the sentinel stands for
      one piece of unknown length. */
  type owed = n: int | n == SQL_DATA_AT_EXEC || 0 <= n witness 0

  /** Character, wide-character and binary values are moved piece by piece;
      every other transferable type has a fixed size.  `CDefault` defers to the
      server's type for the column or parameter.  `CBindOnly` can be bound but is
      never moved (the bit and numeric types). */
  datatype CType = CChar | CWide | CBinary | CFixed(size: pos) | CDefault | CBindOnly | CUnsupported
  {
    predicate Streamed() { CChar? || CWide? || CBinary? }

    function OrDefault(default: CType): CType { if CDefault? then default else this }
  }

  /** SQL types, by how `sqlBindParameter` finds the length of an input value. */
  datatype SqlType = CharacterSql | SizedSql | OtherSql

  datatype Option<+T> = None | Some(value: T)

  /** A sequence of calls, latest last. */
  datatype Run<T> = Start | Then(earlier: Run<T>, last: T)
  {
    function Length(): nat { if Start? then 0 else earlier.Length() + 1 }
  }

  function Min(a: int, b: int): int { if a <= b then a else b }

  function Max(a: int, b: int): int { if a <= b then b else a }

  /** What `strlen` and friends see of a byte sequence: everything before the first zero. */
  function CString(s: seq<byte>): (r: seq<byte>)
    ensures r <= s && 0 !in r && (|r| < |s| ==> s[|r|] == 0)
  {
    if s == [] || s[0] == 0 then [] else [s[0]] + CString(s[1..])
  }

  /** `OdbcObject::sqlSuccess`: anything posted turns the exit code into success-with-info. */
  function Outcome(infoPosted: bool, exit: RetCode): RetCode
  {
    if infoPosted then SqlSuccessWithInfo else exit
  }
}

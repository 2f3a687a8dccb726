/** Application memory: one flat address space in which address 0 is NULL.
    A cell is either a byte of text or binary data, or one fragment of a stored
    number, so overlapping writes destroy each other and byte order is immaterial. */
module Memory {
  import opened Odbc

  datatype Cell = Octet(b: byte) | Fragment(value: int, size: nat, k: nat)

  const NULL: nat := 0

  function Octets(s: seq<byte>): seq<Cell>
  {
    seq(|s|, i requires 0 <= i < |s| => Octet(s[i]))
  }

  function Number(value: int, size: nat): seq<Cell>
  {
    seq(size, k requires 0 <= k < size => Fragment(value, size, k))
  }

  function Write(m: seq<Cell>, a: nat, cells: seq<Cell>): (r: seq<Cell>)
    requires a + |cells| <= |m|
    ensures |r| == |m|
  {
    m[..a] + cells + m[a + |cells|..]
  }

  predicate Holds(m: seq<Cell>, a: nat, cells: seq<Cell>)
  {
    a + |cells| <= |m| && m[a..a + |cells|] == cells
  }

  datatype Range = Range(start: nat, size: nat)
  {
    function End(): nat { start + size }

    predicate Within(n: nat) { End() <= n }

    predicate Inside(outer: Range) { outer.start <= start && End() <= outer.End() }
  }

  predicate Disjoint(r: Range, s: Range)
  {
    r.End() <= s.start || s.End() <= r.start
  }

  /** Bytes and numbers are stored as themselves. */
  lemma StoredAsThemselves(s: seq<byte>, value: int, size: nat)
    ensures |Octets(s)| == |s| && forall i :: 0 <= i < |s| ==> Octets(s)[i] == Octet(s[i])
    ensures |Number(value, size)| == size && forall k :: 0 <= k < size ==> Number(value, size)[k] == Fragment(value, size, k)
  {
  }

  lemma WriteHolds(m: seq<Cell>, a: nat, cells: seq<Cell>)
    requires a + |cells| <= |m|
    ensures Holds(Write(m, a, cells), a, cells)
  {
    assert Write(m, a, cells)[a..a + |cells|] == cells;
  }

  lemma WriteKeeps(m: seq<Cell>, a: nat, cells: seq<Cell>, b: nat, kept: seq<Cell>)
    requires a + |cells| <= |m|
    requires Holds(m, b, kept)
    requires Disjoint(Range(a, |cells|), Range(b, |kept|))
    ensures Holds(Write(m, a, cells), b, kept)
  {
    assert Write(m, a, cells)[b..b + |kept|] == m[b..b + |kept|];
  }

  /** `memcpy` of prepared cells. */
  method Copy(mem: array<Cell>, a: nat, cells: seq<Cell>)
    requires a + |cells| <= mem.Length
    modifies mem
    ensures mem[..] == Write(old(mem[..]), a, cells)
  {
    for i := 0 to |cells|
      invariant forall j :: 0 <= j < mem.Length ==>
        mem[j] == if a <= j < a + i then cells[j - a] else old(mem[j])
    {
      mem[a + i] := cells[i];
    }
    assert forall j :: 0 <= j < mem.Length ==> mem[j] == Write(old(mem[..]), a, cells)[j];
  }
}

/** Binding and Bindings (src/Bindings.h): what the application told the driver
    about one column or parameter, together with the driver's position in it. */
module Bindings {
  import opened Odbc

  datatype Binding = Binding(
    pointer: nat, indicatorPointer: nat, accumulator: seq<byte>,
    bufferLength: int, dataAtExecLength: owed, offset: nat,
    direction: int, cType: CType, sqlType: SqlType, count: nat)
  {
    function Reset(): Binding { this.(dataAtExecLength := 0, offset := 0, count := 0) }

    /** Everything but the position and the accumulated data. */
    predicate SameConfiguration(that: Binding)
    {
      && pointer == that.pointer && indicatorPointer == that.indicatorPointer
      && bufferLength == that.bufferLength && direction == that.direction
      && cType == that.cType && sqlType == that.sqlType
    }

    predicate AtStart() { offset == 0 && count == 0 }
  }

  const Unbound := Binding(0, 0, [], 0, 0, 0, 0, CUnsupported, OtherSql, 0)

  /** `vector::resize`: keeps a prefix, forgets what lies beyond, pads with fresh bindings. */
  function Alloc(bs: seq<Binding>, n: nat): (r: seq<Binding>)
    ensures |r| == n
    ensures forall i :: 0 <= i < n ==> r[i] == if i < |bs| then bs[i] else Unbound
  {
    if n <= |bs| then bs[..n] else bs + seq(n - |bs|, i => Unbound)
  }

  function ResetAll(bs: seq<Binding>): (r: seq<Binding>)
    ensures |r| == |bs|
    ensures forall i :: 0 <= i < |bs| ==> r[i] == bs[i].Reset()
  {
    seq(|bs|, i requires 0 <= i < |bs| => bs[i].Reset())
  }

  lemma ResetTwice(bs: seq<Binding>)
    ensures ResetAll(ResetAll(bs)) == ResetAll(bs)
  {
  }

  predicate SameConfigurations(bs: seq<Binding>, that: seq<Binding>)
  {
    |bs| == |that| && forall i :: 0 <= i < |bs| ==> bs[i].SameConfiguration(that[i])
  }

  class Bindings {
    var bindings: seq<Binding>

    constructor ()
      ensures bindings == []
    {
      bindings := [];
    }

    method Resize(newCount: nat)
      modifies this
      ensures bindings == Alloc(old(bindings), newCount)
    {
      bindings := Alloc(bindings, newCount);
    }

    method Release()
      modifies this
      ensures bindings == []
    {
      bindings := [];
    }

    method Reset()
      modifies this
      ensures bindings == ResetAll(old(bindings))
    {
      for i := 0 to |bindings|
        invariant |bindings| == |old(bindings)|
        invariant forall j :: 0 <= j < |bindings| ==>
          bindings[j] == if j < i then old(bindings)[j].Reset() else old(bindings)[j]
      {
        bindings := bindings[i := bindings[i].Reset()];
      }
    }

    /** The binding of column or parameter `index`, counted from 1. */
    function At(index: nat): Binding
      requires 1 <= index <= |bindings|
      reads this
    {
      bindings[index - 1]
    }

    method Update(index: nat, b: Binding)
      requires 1 <= index <= |bindings|
      modifies this
      ensures bindings == old(bindings)[index - 1 := b]
    {
      bindings := bindings[index - 1 := b];
    }
  }
}

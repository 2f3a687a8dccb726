/** The driver's static tables (src/OdbcConnection.cpp: `moduleInit`, `sqlGetFunctions`,
    the slot lookup of `sqlGetInfo`) against the plain lists they are made from. */
module CompactTables {
  import opened Odbc

  /** The 16-bit words of the bitmap, and the length of the old-style array. */
  const SQL_API_ODBC3_ALL_FUNCTIONS_SIZE: nat := 250
  const OLD_FUNCTIONS: nat := 100
  const INFO_SLOTS: nat := 400

  type word = bv16

  function Bit(k: nat): word
    requires k < 16
  {
    if k == 0 then 1 else Bit(k - 1) << 1
  }

  /** SQL_FUNC_EXISTS. */
  predicate FuncExists(bitmap: seq<word>, id: nat)
    requires id / 16 < |bitmap|
  {
    Has(bitmap[id / 16], Bit(id % 16))
  }

  lemma BitValues()
    ensures Bit(0) == 0x1 && Bit(1) == 0x2 && Bit(2) == 0x4 && Bit(3) == 0x8
    ensures Bit(4) == 0x10 && Bit(5) == 0x20 && Bit(6) == 0x40 && Bit(7) == 0x80
    ensures Bit(8) == 0x100 && Bit(9) == 0x200 && Bit(10) == 0x400 && Bit(11) == 0x800
    ensures Bit(12) == 0x1000 && Bit(13) == 0x2000 && Bit(14) == 0x4000 && Bit(15) == 0x8000
  {
    assert Bit(3) == 0x8;
    assert Bit(6) == 0x40;
    assert Bit(9) == 0x200;
    assert Bit(12) == 0x1000;
  }

  lemma Shifted(x: word, y: word)
    ensures (x << 1) & (y << 1) == (x & y) << 1
    ensures 1 & (y << 1) == 0
  {}

  /** Different bits do not overlap. */
  lemma {:induction false} BitsApart(a: nat, b: nat)
    requires a < b < 16
    ensures Bit(a) & Bit(b) == 0
  {
    if a == 0 {
      Shifted(1, Bit(b - 1));
    } else {
      BitsApart(a - 1, b - 1);
      Shifted(Bit(a - 1), Bit(b - 1));
    }
  }

  lemma BitIsSet(k: nat)
    requires k < 16
    ensures Bit(k) != 0
  {
    BitValues();
  }

  predicate Has(w: word, bit: word) { w & bit != 0 }

  function With(w: word, bit: word): word { w | bit }

  lemma HasOther(w: word, x: word, y: word)
    requires x & y == 0
    ensures Has(With(w, x), y) <==> Has(w, y)
    ensures Has(With(w, y), x) <==> Has(w, x)
  {
    Distributes(w, x, y);
    Distributes(w, y, x);
    OrZero(w & y);
    OrZero(w & x);
  }

  lemma Distributes(w: word, x: word, y: word)
    ensures (w | x) & y == (w & y) | (x & y)
    ensures x & y == y & x
  {}

  lemma OrZero(w: word)
    ensures w | 0 == w
  {}

  lemma HasSame(w: word, x: word)
    requires x != 0
    ensures Has(With(w, x), x)
  {}

  lemma TestAfterSet(w: word, a: nat, b: nat)
    requires a < 16 && b < 16
    ensures Has(With(w, Bit(a)), Bit(b)) <==> Has(w, Bit(b)) || a == b
  {
    hide Bit, Has, With;
    if a < b {
      BitsApart(a, b);
      HasOther(w, Bit(a), Bit(b));
    } else if b < a {
      BitsApart(b, a);
      HasOther(w, Bit(b), Bit(a));
    } else {
      BitIsSet(a);
      HasSame(w, Bit(a));
    }
  }

  /** Setting a function's bit adds that function and no other. */
  lemma SetBit(bitmap: seq<word>, fn: nat, id: nat)
    requires fn / 16 < |bitmap| && id / 16 < |bitmap|
    ensures FuncExists(bitmap[fn / 16 := With(bitmap[fn / 16], Bit(fn % 16))], id) <==> FuncExists(bitmap, id) || id == fn
  {
    hide Bit, Has, With;
    if fn / 16 == id / 16 {
      TestAfterSet(bitmap[fn / 16], fn % 16, id % 16);
    }
  }

  /** The bitmap reports exactly the listed functions. */
  predicate Represents(bitmap: seq<word>, fns: seq<nat>)
  {
    && |bitmap| == SQL_API_ODBC3_ALL_FUNCTIONS_SIZE
    && forall id: nat :: id < 16 * SQL_API_ODBC3_ALL_FUNCTIONS_SIZE ==> (FuncExists(bitmap, id) <==> id in fns)
  }

  lemma OneMoreFunction(bitmap: seq<word>, fns: seq<nat>, fn: nat)
    requires Represents(bitmap, fns) && fn / 16 < SQL_API_ODBC3_ALL_FUNCTIONS_SIZE
    ensures Represents(bitmap[fn / 16 := With(bitmap[fn / 16], Bit(fn % 16))], fns + [fn])
  {
    hide FuncExists, Bit, Has, With;
    var bitmap' := bitmap[fn / 16 := With(bitmap[fn / 16], Bit(fn % 16))];
    forall id: nat | id < 16 * SQL_API_ODBC3_ALL_FUNCTIONS_SIZE
      ensures FuncExists(bitmap', id) <==> id in fns + [fn]
    {
      SetBit(bitmap, fn, id);
    }
  }

  lemma NoFunctions(bitmap: seq<word>)
    requires |bitmap| == SQL_API_ODBC3_ALL_FUNCTIONS_SIZE && forall i :: 0 <= i < |bitmap| ==> bitmap[i] == 0
    ensures Represents(bitmap, [])
  {}

  // ----- information types -----------------------------------------------------------

  datatype Info = Info(item: nat, name: string, value: string)

  /** INFO_SLOT. */
  function Slot(n: nat): nat { if n < 10000 then n else n - 10000 + 200 }

  /** What `moduleInit` asserts of the list: every item has a slot, and no two share one. */
  predicate Slotted(infos: seq<Info>)
  {
    && (forall i :: 0 <= i < |infos| ==> Slot(infos[i].item) < INFO_SLOTS)
    && (forall i, j :: 0 <= i < j < |infos| ==> Slot(infos[i].item) != Slot(infos[j].item))
  }

  /** Linear search for a type. */
  function Search(infos: seq<Info>, n: nat): Option<Info>
  {
    if infos == [] then None
    else if infos[0].item == n then Some(infos[0])
    else Search(infos[1..], n)
  }

  function Lookup(slots: seq<Option<Info>>, n: nat): Option<Info>
    requires |slots| == INFO_SLOTS
  {
    if Slot(n) >= INFO_SLOTS then None else slots[Slot(n)]
  }

  /** The slots hold the list. */
  predicate HoldsInfos(slots: seq<Option<Info>>, infos: seq<Info>)
  {
    && |slots| == INFO_SLOTS
    && (forall i :: 0 <= i < |infos| ==> Slot(infos[i].item) < INFO_SLOTS && slots[Slot(infos[i].item)] == Some(infos[i]))
    && (forall k :: 0 <= k < |slots| && slots[k].Some? ==> slots[k].value in infos && Slot(slots[k].value.item) == k)
  }

  lemma {:induction false} SearchSpec(infos: seq<Info>, n: nat)
    ensures Search(infos, n).Some? ==> Search(infos, n).value in infos && Search(infos, n).value.item == n
    ensures Search(infos, n).None? ==> forall i :: 0 <= i < |infos| ==> infos[i].item != n
  {
    if infos != [] && infos[0].item != n {
      SearchSpec(infos[1..], n);
      assert forall i :: 0 < i < |infos| ==> infos[i] == infos[1..][i - 1];
    }
  }

  /** The type that shares the slot of `n`, if there is one. */
  function Alias(n: nat): Option<nat>
  {
    if 200 <= n < 400 then Some(n + 9800) else if 10000 <= n < 10200 then Some(n - 9800) else None
  }

  /** The slot lookup answers as linear search does, unless `n` is not listed and the
      other type of its slot is. */
  lemma LookupIsSearch(slots: seq<Option<Info>>, infos: seq<Info>, n: nat)
    requires Slotted(infos) && HoldsInfos(slots, infos)
    ensures Lookup(slots, n) == Search(infos, n) <==>
      Search(infos, n).Some? || Alias(n).None? || Search(infos, Alias(n).value).None?
  {
    SearchSpec(infos, n);
    if Alias(n).Some? {
      SearchSpec(infos, Alias(n).value);
    }
    var s := Slot(n);
    if Search(infos, n).Some? {
      var i :| 0 <= i < |infos| && infos[i] == Search(infos, n).value;
    } else if s < INFO_SLOTS && slots[s].Some? {
      var item := slots[s].value.item;
      assert Slot(item) == s && item != n;
      assert Alias(n) == Some(item);
      var i :| 0 <= i < |infos| && infos[i] == slots[s].value;
    }
  }

  // ----- the code --------------------------------------------------------------------

  method ModuleInit(supported: seq<nat>, infos: seq<Info>)
    returns (functionsArray: array<bool>, functionsBitmap: array<word>, infoItems: array<Option<Info>>)
    requires forall i :: 0 <= i < |supported| ==> supported[i] / 16 < SQL_API_ODBC3_ALL_FUNCTIONS_SIZE
    requires Slotted(infos)
    ensures functionsArray.Length == OLD_FUNCTIONS && functionsBitmap.Length == SQL_API_ODBC3_ALL_FUNCTIONS_SIZE
    ensures Represents(functionsBitmap[..], supported)
    ensures forall id :: 0 <= id < OLD_FUNCTIONS ==> (functionsArray[id] <==> id in supported)
    ensures HoldsInfos(infoItems[..], infos)
  {
    hide Represents;
    functionsArray, functionsBitmap := FunctionTables(supported);
    ghost var bits, flags := functionsBitmap[..], functionsArray[..];
    infoItems := new Option<Info>[INFO_SLOTS](i => None);
    for t := 0 to |infos|
      invariant functionsBitmap[..] == bits && functionsArray[..] == flags
      invariant HoldsInfos(infoItems[..], infos[..t])
    {
      var slot := Slot(infos[t].item);
      ghost var before := infoItems[..];
      infoItems[slot] := Some(infos[t]);
      OneMore(before, infos, t);
      assert infoItems[..] == before[slot := Some(infos[t])];
    }
    assert infos[..|infos|] == infos;
  }

  lemma OneMore(slots: seq<Option<Info>>, infos: seq<Info>, t: nat)
    requires t < |infos| && Slotted(infos) && HoldsInfos(slots, infos[..t])
    ensures HoldsInfos(slots[Slot(infos[t].item) := Some(infos[t])], infos[..t + 1])
  {
    var slots' := slots[Slot(infos[t].item) := Some(infos[t])];
    var earlier, later := infos[..t], infos[..t + 1];
    forall i | 0 <= i < |later|
      ensures Slot(later[i].item) < INFO_SLOTS && slots'[Slot(later[i].item)] == Some(later[i])
    {
      if i < t {
        assert earlier[i] == later[i] == infos[i];
      }
    }
    forall k | 0 <= k < |slots'| && slots'[k].Some?
      ensures slots'[k].value in infos[..t + 1] && Slot(slots'[k].value.item) == k
    {
      if k == Slot(infos[t].item) {
        assert infos[..t + 1][t] == infos[t];
      } else {
        var i :| 0 <= i < t && infos[..t][i] == slots[k].value;
        assert infos[..t + 1][i] == slots[k].value;
      }
    }
  }

  /** The loop over the supported functions. */
  method FunctionTables(supported: seq<nat>) returns (functionsArray: array<bool>, functionsBitmap: array<word>)
    requires forall i :: 0 <= i < |supported| ==> supported[i] / 16 < SQL_API_ODBC3_ALL_FUNCTIONS_SIZE
    ensures functionsArray.Length == OLD_FUNCTIONS && functionsBitmap.Length == SQL_API_ODBC3_ALL_FUNCTIONS_SIZE
    ensures Represents(functionsBitmap[..], supported)
    ensures forall id :: 0 <= id < OLD_FUNCTIONS ==> (functionsArray[id] <==> id in supported)
  {
    hide Represents, Bit, With;
    functionsArray := new bool[OLD_FUNCTIONS](i => false);
    functionsBitmap := new word[SQL_API_ODBC3_ALL_FUNCTIONS_SIZE](i => 0);
    NoFunctions(functionsBitmap[..]);
    assert supported[..0] == [];
    for n := 0 to |supported|
      invariant functionsArray.Length == OLD_FUNCTIONS
      invariant functionsBitmap.Length == SQL_API_ODBC3_ALL_FUNCTIONS_SIZE
      invariant Represents(functionsBitmap[..], supported[..n])
      invariant forall id :: 0 <= id < OLD_FUNCTIONS ==> (functionsArray[id] <==> id in supported[..n])
    {
      var fn := supported[n];
      assert supported[..n + 1] == supported[..n] + [fn];
      if fn < OLD_FUNCTIONS {
        functionsArray[fn] := true;
      }
      ghost var before := functionsBitmap[..];
      functionsBitmap[fn / 16] := With(functionsBitmap[fn / 16], Bit(fn % 16));
      OneMoreFunction(before, supported[..n], fn);
      assert functionsBitmap[..] == before[fn / 16 := With(before[fn / 16], Bit(fn % 16))];
    }
    assert supported[..|supported|] == supported;
  }

  const SQL_API_ALL_FUNCTIONS := 0
  const SQL_API_ODBC3_ALL_FUNCTIONS := 999

  datatype Answer = Bitmap(words: seq<word>) | Flags(flags: seq<bool>) | Supported(yes: bool)

  /** `sqlGetFunctions`.  There is no range check: an id past the bitmap would be read from beyond it. */
  method SqlGetFunctions(functionId: nat, functionsArray: array<bool>, functionsBitmap: array<word>,
                         ghost supported: seq<nat>) returns (r: Answer)
    requires Represents(functionsBitmap[..], supported)
    requires functionId < 16 * SQL_API_ODBC3_ALL_FUNCTIONS_SIZE
    ensures match r
      case Bitmap(words) => functionId == SQL_API_ODBC3_ALL_FUNCTIONS && words == functionsBitmap[..]
      case Flags(flags) => functionId == SQL_API_ALL_FUNCTIONS && flags == functionsArray[..]
      case Supported(yes) =>
        && functionId !in {SQL_API_ALL_FUNCTIONS, SQL_API_ODBC3_ALL_FUNCTIONS}
        && (yes <==> functionId in supported)
  {
    if functionId == SQL_API_ODBC3_ALL_FUNCTIONS {
      return Bitmap(functionsBitmap[..]);
    } else if functionId == SQL_API_ALL_FUNCTIONS {
      return Flags(functionsArray[..]);
    }
    r := Supported(FuncExists(functionsBitmap[..], functionId));
  }
}

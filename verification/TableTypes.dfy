/** The argument strings of `sqlTables` (src/OdbcStatement.cpp) and `getString`
    (src/OdbcObject.cpp): one scratch buffer for the copies and the type list. */
module TableTypes {
  import opened Odbc
  import C = ConnectString

  const MAX_TYPES: nat := 16

  // ----- the parts of a type list -----------------------------------------------------

  /** Where the first comma is; the length if there is none. */
  function Comma(s: string): (i: nat)
    ensures i <= |s| && (i < |s| ==> s[i] == ',')
  {
    C.Find(s, {','})
  }

  lemma CommaIsFirst(s: string)
    ensures ',' !in s[..Comma(s)]
  {
    C.FindIsFirst(s, {','});
  }

  /** The comma-separated parts; a trailing empty part is dropped. */
  function Parts(s: string): seq<string>
    decreases |s|
  {
    if s == "" then []
    else
      var i := Comma(s);
      [s[..i]] + if i < |s| then Parts(s[i + 1..]) else []
  }

  function Joined(parts: seq<string>): string
  {
    if parts == [] then ""
    else if |parts| == 1 then parts[0]
    else parts[0] + "," + Joined(parts[1..])
  }

  predicate CommaFree(parts: seq<string>) { forall k :: 0 <= k < |parts| ==> ',' !in parts[k] }

  lemma {:induction false} FindComma(s: string, t: string)
    requires ',' !in s
    ensures Comma(s) == |s| && Comma(s + "," + t) == |s|
  {
    if s == "" {
      assert s + "," + t == "," + t;
    } else {
      assert s[0] in s;
      assert (s + "," + t)[1..] == s[1..] + "," + t;
      FindComma(s[1..], t);
    }
  }

  lemma PartsOf(s: string)
    requires s != ""
    ensures var i := Comma(s); Parts(s) == [s[..i]] + if i < |s| then Parts(s[i + 1..]) else []
  {
    hide Comma;
  }

  lemma CommaSplits(s: string)
    ensures var i := Comma(s); if i < |s| then s == s[..i] + "," + s[i + 1..] else s == s[..i]
  {
    hide Comma;
  }

  /** A list's first part and the rest. */
  lemma FirstPart(s: string)
    requires s != ""
    ensures Parts(s) == [s[..Comma(s)]] + Parts(s[Min(Comma(s) + 1, |s|)..])
  {
    hide Comma, Parts;
    PartsOf(s);
    Nothing();
    if Comma(s) == |s| {
      assert s[|s|..] == "";
    }
  }

  lemma JoinedMore(part: string, parts: seq<string>)
    ensures Joined([part] + parts) == if parts == [] then part else part + "," + Joined(parts)
  {
    assert ([part] + parts)[1..] == parts;
  }

  /** The parts have no commas, and joining them restores the list up to a trailing comma. */
  lemma {:induction false} PartsJoin(s: string)
    ensures CommaFree(Parts(s))
    ensures Joined(Parts(s)) == if s != "" && s[|s| - 1] == ',' then s[..|s| - 1] else s
    ensures s != "" ==> Parts(s) != []
    decreases |s|
  {
    hide Comma, Joined;
    Nothing();
    if s != "" {
      hide Parts;
      FirstPart(s);
      CommaIsFirst(s);
      CommaSplits(s);
      var i := Comma(s);
      var part, rest := s[..i], s[Min(i + 1, |s|)..];
      JoinedMore(part, Parts(rest));
      PartsJoin(rest);
      if i < |s| && rest != "" {
        assert s[|s| - 1] == rest[|rest| - 1];
        assert s[..|s| - 1] == part + "," + rest[..|rest| - 1];
      } else if i < |s| {
        assert s[..|s| - 1] == part;
      }
    }
  }

  lemma Nothing()
    ensures Parts("") == [] && Joined([]) == "" && Flat([]) == ""
  {}

  /** And splitting joined parts restores the parts, when the last is not empty. */
  lemma {:induction false} JoinParts(parts: seq<string>)
    requires CommaFree(parts) && (parts != [] ==> parts[|parts| - 1] != "")
    ensures Parts(Joined(parts)) == parts
  {
    if parts != [] {
      var s := parts[0];
      if |parts| == 1 {
        FindComma(s, "");
        assert s[..|s|] == s;
      } else {
        var rest := Joined(parts[1..]);
        JoinParts(parts[1..]);
        FindComma(s, rest);
        var all := s + "," + rest;
        assert all[..|s|] == s && all[|s| + 1..] == rest;
      }
    }
  }

  // ----- the scratch buffer --------------------------------------------------------------

  /** Where a string argument ended up. */
  datatype Place = Null | Given(text: string) | Copied(start: nat)
  {
    predicate Within(n: nat) { Copied? ==> start < n }

    /** The C string found there. */
    function Read(mem: string): Option<string>
      requires Within(|mem|)
    {
      match this
      case Null => None
      case Given(text) => Some(C.CText(text))
      case Copied(start) => Some(C.CText(mem[start..]))
    }
  }

  /** The text an argument of the given length stands for. */
  function Argument(s: Option<string>, length: int, default: Option<string>): (r: Option<string>)
    requires Measured(s, length)
    ensures r.None? <==> s.None? && default.None?
  {
    if s.None? then default
    else if length == SQL_NTS then Some(C.CText(s.value))
    else Some(C.CText(s.value[..length]))
  }

  /** A counted argument holds at least as many characters as it claims. */
  predicate Measured(s: Option<string>, length: int)
  {
    s.Some? && length != SQL_NTS ==> 0 <= length <= |s.value|
  }

  /** The text of an argument: the default for a null pointer; what stands before the first
      NUL for SQL_NTS; and all the counted characters, if none of them is NUL. */
  lemma ArgumentIs(s: string, rest: string, length: nat, default: Option<string>)
    requires C.NUL !in s
    ensures Argument(None, length, default) == default
    ensures Argument(Some(s + [C.NUL] + rest), SQL_NTS, default) == Some(s)
    ensures Argument(Some(s + rest), |s|, default) == Some(s)
  {
    CTextUpTo(s, s + [C.NUL] + rest);
    NoNul(s);
    assert (s + rest)[..|s|] == s;
  }

  /** Room `getString` takes in the buffer. */
  function Room(s: Option<string>, length: int): nat
    requires Measured(s, length)
  {
    if s.None? || length == SQL_NTS then 0 else length + 1
  }

  /** A C string is what stands before its first NUL, whatever follows. */
  lemma CTextUpTo(s: string, t: string)
    requires s <= t && |s| < |t| && t[|s|] == C.NUL
    ensures C.CText(t) == C.CText(s)
  {
    var u := t[|s|..];
    assert t == s + u;
    C.FindInPrefix(s, u, {C.NUL});
    var i := C.Find(s, {C.NUL});
    if i == |s| {
      C.FindIsFirst(u, {C.NUL});
      assert u[0] == C.NUL;
    }
    assert t[..i] == s[..i];
  }

  method GetString(temp: array<char>, p: nat, s: Option<string>, length: int, default: Option<string>)
    returns (p': nat, r: Place)
    requires Measured(s, length) && p + Room(s, length) <= temp.Length
    requires default.Some? ==> C.CText(default.value) == default.value
    modifies temp
    ensures p' == p + Room(s, length) && temp[..p] == old(temp[..p]) && temp[p'..] == old(temp[p'..])
    ensures r.Copied? ==> p == r.start < p' && temp[p' - 1] == C.NUL
    ensures r.Within(temp.Length) && r.Read(temp[..]) == Argument(s, length, default)
  {
    p' := p;
    if s.None? {
      r := if default.None? then Null else Given(default.value);
      return;
    }
    if length == SQL_NTS {
      r := Given(s.value);
      return;
    }
    for k := 0 to length
      invariant temp[p..p + k] == s.value[..k]
      invariant temp[..p] == old(temp[..p]) && temp[p + k..] == old(temp[p + k..])
    {
      ghost var before := temp[p + k..];
      temp[p + k] := s.value[k];
      assert temp[p + k + 1..] == before[1..];
    }
    ghost var before := temp[p + length..];
    temp[p + length] := C.NUL;
    p' := p + length + 1;
    assert temp[p'..] == before[1..];
    r := Copied(p);
    CTextUpTo(s.value[..length], temp[p..]);
  }

  /** Pieces as they lie in the buffer, each terminated. */
  function Flat(pieces: seq<string>): string
  {
    if pieces == [] then "" else Flat(pieces[..|pieces| - 1]) + pieces[|pieces| - 1] + [C.NUL]
  }

  function Taken(s: string): (r: seq<string>)
    ensures |r| <= MAX_TYPES
  {
    Parts(s)[..Min(|Parts(s)|, MAX_TYPES)]
  }

  /** Character `q` of a string, read where it lies. */
  function CharAt(mem: string, place: Place, q: nat): char
  {
    match place
    case Null => C.NUL
    case Given(text) => if q < |text| then text[q] else C.NUL
    case Copied(start) => if start + q < |mem| then mem[start + q] else C.NUL
  }

  /** Before `p` of the buffer, or outside it, the C string `s` lies at `place`. */
  ghost predicate Lies(mem: string, place: Place, s: string, p: nat)
  {
    && p <= |mem| && C.NUL !in s && place != Null
    && (place.Copied? ==> place.start + |s| < p)
    && forall q :: 0 <= q <= |s| ==> CharAt(mem, place, q) == if q < |s| then s[q] else C.NUL
  }

  lemma LiesThere(mem: string, place: Place, s: string, p: nat)
    requires place.Within(|mem|) && place.Read(mem) == Some(s)
    requires p <= |mem| && (place.Copied? ==> place.start < p && mem[p - 1] == C.NUL)
    ensures Lies(mem, place, s, p)
  {
    var text := if place.Given? then place.text else mem[place.start..];
    C.FindIsFirst(text, {C.NUL});
    if place.Copied? {
      assert text[p - 1 - place.start] == C.NUL;
    }
  }

  /** Writes behind it leave a string alone. */
  lemma LiesStill(mem: string, mem': string, place: Place, s: string, p: nat)
    requires Lies(mem, place, s, p) && |mem'| == |mem| && mem'[..p] == mem[..p]
    ensures Lies(mem', place, s, p)
  {
    forall q | 0 <= q <= |s| ensures CharAt(mem', place, q) == CharAt(mem, place, q) {
      if place.Copied? {
        assert mem'[..p][place.start + q] == mem[..p][place.start + q];
      }
    }
  }

  lemma LiesReads(mem: string, place: Place, s: string, p: nat)
    requires Lies(mem, place, s, p)
    ensures place.Within(|mem|) && place.Read(mem) == Some(s)
  {
    var text := if place.Given? then place.text else mem[place.start..];
    if |s| < |text| {
      assert text[..|s|] == s && text[|s|] == C.NUL by {
        forall q | 0 <= q <= |s| ensures text[q] == CharAt(mem, place, q) {}
      }
      assert s <= text;
      CTextUpTo(s, text);
    } else {
      forall q | 0 <= q < |text| ensures text[q] == CharAt(mem, place, q) {}
      assert CharAt(mem, place, |text|) == C.NUL;
      assert text == s;
    }
    NoNul(s);
  }

  lemma LiesAt(mem: string, place: Place, s: string, p: nat, q: nat)
    requires Lies(mem, place, s, p) && q <= |s|
    ensures CharAt(mem, place, q) == if q < |s| then s[q] else C.NUL
    ensures C.NUL !in s
  {}

  lemma FindStep(s: string)
    ensures Comma(s) == if s == "" || s[0] == ',' then 0 else Comma(s[1..]) + 1
  {}

  lemma NoNul(s: string)
    requires C.NUL !in s
    ensures C.CText(s) == s
  {
    assert s[..|s|] == s;
  }

  lemma OneMore(before: string, after: string, p: nat, k: nat, text: string)
    requires p <= k < |before| && k - p < |text| && before[p..k] == text[..k - p]
    requires after == before[k := text[k - p]]
    ensures after[..p] == before[..p] && after[p..k + 1] == text[..k + 1 - p]
  {
    assert after[..p] == before[..p];
    assert after[p..k + 1] == before[p..k] + [text[k - p]];
    assert text[..k + 1 - p] == text[..k - p] + [text[k - p]];
  }

  lemma Terminated(before: string, after: string, mem: string, p: nat, k: nat, text: string)
    requires p <= k < |before| && p <= |mem| && k - p <= |text|
    requires before[..p] == mem[..p] && before[p..k] == text[..k - p] && after == before[k := C.NUL]
    ensures after[..k + 1] == mem[..p] + text[..k - p] + [C.NUL]
  {
    assert after[..k + 1] == before[..p] + before[p..k] + [C.NUL];
  }

  /** The splitter's inner loop: copies one part up to its comma or the end of the list. */
  method CopyPart(temp: array<char>, p: nat, types: Place, q: nat, ghost s: string) returns (p': nat, q': nat)
    requires Lies(temp[..], types, s, p) && q < |s|
    requires p + Comma(s[q..]) < temp.Length
    modifies temp
    ensures var i := Comma(s[q..]);
      && p' == p + i + 1 <= temp.Length && q' == Min(q + i + 1, |s|)
      && temp[..p'] == old(temp[..p]) + s[q..q + i] + [C.NUL]
    ensures Lies(temp[..], types, s, p)
  {
    hide CharAt, Lies, Comma;
    ghost var text, mem := s[q..], temp[..];
    p', q' := p, q;
    var comma := false;
    LiesAt(temp[..], types, s, p, q);
    while !comma && CharAt(temp[..], types, q') != C.NUL
      invariant p <= p' < temp.Length && q' == q + (p' - p) + (if comma then 1 else 0) <= |s|
      invariant temp[..p] == mem[..p] && temp[p..p'] == text[..p' - p]
      invariant Comma(text) == (p' - p) + if comma then 0 else Comma(text[p' - p..])
      invariant Lies(temp[..], types, s, p)
      invariant CharAt(temp[..], types, q') == if q' < |s| then s[q'] else C.NUL
      decreases |s| - q'
    {
      ghost var ahead := text[p' - p..];
      FindStep(ahead);
      var c := CharAt(temp[..], types, q');
      assert ahead != "" && ahead[0] == c && ahead[1..] == text[p' - p + 1..];
      q' := q' + 1;
      if c == ',' {
        comma := true;
      } else {
        ghost var before := temp[..];
        temp[p'] := c;
        OneMore(before, temp[..], p, p', text);
        p' := p' + 1;
        LiesStill(before, temp[..], types, s, p);
      }
      LiesAt(temp[..], types, s, p, q');
    }
    FindStep(text[p' - p..]);
    ghost var before := temp[..];
    temp[p'] := C.NUL;
    Terminated(before, temp[..], mem, p, p', text);
    assert text[..p' - p] == s[q..q + (p' - p)];
    p' := p' + 1;
    assert temp[..p] == before[..p];
    LiesStill(before, temp[..], types, s, p);
  }

  // ----- the splitter ------------------------------------------------------------------------

  lemma FlatMore(pieces: seq<string>, k: nat)
    requires k < |pieces|
    ensures Flat(pieces[..k + 1]) == Flat(pieces[..k]) + pieces[k] + [C.NUL]
  {
    assert pieces[..k + 1][..k] == pieces[..k];
  }

  lemma {:induction false} FlatPrefix(pieces: seq<string>, k: nat)
    requires k <= |pieces|
    ensures Flat(pieces[..k]) <= Flat(pieces)
    decreases |pieces|
  {
    if k == |pieces| {
      assert pieces[..k] == pieces;
    } else {
      var n := |pieces| - 1;
      FlatPrefix(pieces[..n], k);
      assert pieces[..n][..k] == pieces[..k];
    }
  }

  lemma PartsFrom(s: string, q: nat)
    requires q < |s|
    ensures var i := Comma(s[q..]);
      Parts(s[q..]) == [s[q..q + i]] + Parts(s[Min(q + i + 1, |s|)..])
  {
    hide Comma, Parts;
    var text := s[q..];
    var i := Comma(text);
    FirstPart(text);
    assert text[..i] == s[q..q + i];
    assert text[Min(i + 1, |text|)..] == s[Min(q + i + 1, |s|)..];
  }

  lemma LiesWider(mem: string, place: Place, s: string, p: nat, p': nat)
    requires Lies(mem, place, s, p) && p <= p' <= |mem|
    ensures Lies(mem, place, s, p')
  {}

  /** Room for one more of the parts taken. */
  lemma RoomForPart(s: string, n: nat)
    requires n < |Taken(s)|
    ensures Flat(Taken(s)[..n + 1]) == Flat(Taken(s)[..n]) + Taken(s)[n] + [C.NUL]
    ensures |Flat(Taken(s)[..n])| + |Taken(s)[n]| < |Flat(Taken(s))|
  {
    hide Flat, Parts;
    FlatMore(Taken(s), n);
    FlatPrefix(Taken(s), n + 1);
  }

  /** The type loop of `sqlTables`: the first sixteen parts, each terminated, one behind the other. */
  method SplitTypes(temp: array<char>, p: nat, types: Place, typeVector: array<nat>, ghost s: string)
    returns (p': nat, numberTypes: nat)
    requires Lies(temp[..], types, s, p) && typeVector.Length == MAX_TYPES
    requires p + |Flat(Taken(s))| <= temp.Length
    modifies temp, typeVector
    ensures numberTypes == |Taken(s)| && p' == p + |Flat(Taken(s))| <= temp.Length
    ensures temp[..p'] == old(temp[..p]) + Flat(Taken(s))
    ensures forall k :: 0 <= k < numberTypes ==> typeVector[k] == p + |Flat(Taken(s)[..k])|
  {
    hide Lies, Comma, Flat, CharAt, Parts;
    ghost var mem, parts, taken := temp[..p], Parts(s), Taken(s);
    p', numberTypes := p, 0;
    var q := 0;
    Nothing();
    assert s[0..] == s && parts[0..] == parts && taken[..0] == [] && mem + "" == mem;
    LiesAt(temp[..], types, s, p, q);
    while numberTypes < MAX_TYPES && CharAt(temp[..], types, q) != C.NUL
      invariant q <= |s| && numberTypes <= |taken|
      invariant Parts(s[q..]) == parts[numberTypes..]
      invariant p <= p' == p + |Flat(taken[..numberTypes])| <= temp.Length
      invariant temp[..p'] == mem + Flat(taken[..numberTypes])
      invariant Lies(temp[..], types, s, p')
      invariant CharAt(temp[..], types, q) == if q < |s| then s[q] else C.NUL
      invariant forall k :: 0 <= k < numberTypes ==> typeVector[k] == p + |Flat(taken[..k])|
      decreases |s| - q
    {
      PartsFrom(s, q);
      assert parts[numberTypes..][0] == taken[numberTypes];
      assert parts[numberTypes..][1..] == parts[numberTypes + 1..];
      RoomForPart(s, numberTypes);
      typeVector[numberTypes] := p';
      ghost var before, start := temp[..p'], p';
      p', q := CopyPart(temp, p', types, q, s);
      LiesWider(temp[..], types, s, start, p');
      LiesAt(temp[..], types, s, p', q);
      numberTypes := numberTypes + 1;
    }
    assert s[|s|..] == "";
    assert taken[..numberTypes] == taken;
  }

  lemma Slice(s: string, p: nat, n: nat, i: nat, j: nat)
    requires i <= j <= n && p + n <= |s|
    ensures s[p..p + n][i..j] == s[p + i..p + j]
  {
    var a, b := s[p..p + n][i..j], s[p + i..p + j];
    assert |a| == |b| && forall k :: 0 <= k < |a| ==> a[k] == b[k];
  }

  /** A piece can be read where the splitter put it. */
  lemma PieceReads(mem: string, p: nat, pieces: seq<string>, k: nat)
    requires k < |pieces| && p + |Flat(pieces)| <= |mem| && mem[p..p + |Flat(pieces)|] == Flat(pieces)
    requires C.NUL !in pieces[k]
    ensures var at := p + |Flat(pieces[..k])|; at <= |mem| && C.CText(mem[at..]) == pieces[k]
  {
    hide Flat, C.CText;
    FlatMore(pieces, k);
    FlatPrefix(pieces, k + 1);
    var flat, front, piece := Flat(pieces), Flat(pieces[..k]), pieces[k];
    var at := p + |front|;
    assert flat[..|front| + |piece| + 1] == front + piece + [C.NUL];
    var n := |front| + |piece| + 1;
    assert flat[|front|..n] == flat[..n][|front|..] == piece + [C.NUL];
    Slice(mem, p, |flat|, |front|, n);
    var rest := mem[at..];
    assert rest[..|piece| + 1] == mem[at..p + n];
    assert rest[|piece|] == rest[..|piece| + 1][|piece|];
    assert rest[..|piece|] == rest[..|piece| + 1][..|piece|];
    CTextUpTo(piece, rest);
    NoNul(piece);
  }

  // ----- sqlTables -----------------------------------------------------------------------------

  const TEMP_SIZE: nat := 1024

  lemma {:induction false} PartsAreText(s: string)
    requires C.NUL !in s
    ensures forall k :: 0 <= k < |Parts(s)| ==> C.NUL !in Parts(s)[k]
    decreases |s|
  {
    var i := Comma(s);
    if i < |s| {
      PartsAreText(s[i + 1..]);
    }
  }

  /** Nothing written from `p` on changes an argument copied before it. */
  lemma ArgumentKept(mem: string, mem': string, place: Place, p: nat)
    requires place.Within(|mem|) && p <= |mem| == |mem'| && mem[..p] == mem'[..p]
    requires place.Copied? ==> place.start < p && mem[p - 1] == C.NUL
    ensures place.Within(|mem'|) && place.Read(mem') == place.Read(mem)
  {
    if place.Copied? {
      var s := C.CText(mem[place.start..]);
      LiesThere(mem, place, s, p);
      LiesStill(mem, mem', place, s, p);
      LiesReads(mem', place, s, p);
    }
  }

  /** The front of a buffer is that of its longer front. */
  lemma Fronts(mem: string, mem': string, p: nat, p': nat)
    requires p <= p' <= |mem| == |mem'| && mem[..p'] == mem'[..p']
    ensures mem[..p] == mem'[..p]
  {
    assert mem[..p] == mem[..p'][..p] && mem'[..p] == mem'[..p'][..p];
  }

  /** The arguments of `sqlTables` as the server gets them: each string argument reads
      as it was passed, and the type vector points at the first sixteen parts of the
      type list, however the copies share the buffer. */
  method TablesArguments(temp: array<char>, typeVector: array<nat>,
                         catalog: Option<string>, catLength: int, schema: Option<string>, schemaLength: int,
                         table: Option<string>, tableLength: int, kind: Option<string>, typeLength: int)
    returns (cat: Place, scheme: Place, tbl: Place, numberTypes: nat)
    requires temp.Length == TEMP_SIZE && typeVector.Length == MAX_TYPES
    requires Measured(catalog, catLength) && Measured(schema, schemaLength)
    requires Measured(table, tableLength) && Measured(kind, typeLength)
    requires Room(catalog, catLength) + Room(schema, schemaLength) + Room(table, tableLength)
      + Room(kind, typeLength) + |Flat(Taken(Argument(kind, typeLength, Some("")).value))| <= TEMP_SIZE
    modifies temp, typeVector
    ensures cat.Within(TEMP_SIZE) && cat.Read(temp[..]) == Argument(catalog, catLength, None)
    ensures scheme.Within(TEMP_SIZE) && scheme.Read(temp[..]) == Argument(schema, schemaLength, None)
    ensures tbl.Within(TEMP_SIZE) && tbl.Read(temp[..]) == Argument(table, tableLength, None)
    ensures var parts := Parts(Argument(kind, typeLength, Some("")).value);
      var types := if |parts| <= 16 then parts else parts[..16];
      && numberTypes == |types|
      && forall k :: 0 <= k < numberTypes ==> typeVector[k] <= TEMP_SIZE && C.CText(temp[typeVector[k]..]) == types[k]
  {
    hide Flat, Taken, Argument, Place.Read, C.CText;
    ghost var s := Argument(kind, typeLength, Some("")).value;
    var p1, p2, p3, p4, p5, typeString;
    assert C.CText("") == "" by { NoNul(""); }
    p1, cat := GetString(temp, 0, catalog, catLength, None);
    ghost var m1 := temp[..];
    p2, scheme := GetString(temp, p1, schema, schemaLength, None);
    ghost var m2 := temp[..];
    p3, tbl := GetString(temp, p2, table, tableLength, None);
    ghost var m3 := temp[..];
    p4, typeString := GetString(temp, p3, kind, typeLength, Some(""));
    ghost var m4 := temp[..];
    LiesThere(m4, typeString, s, p4);
    p5, numberTypes := SplitTypes(temp, p4, typeString, typeVector, s);
    ghost var m5 := temp[..];
    assert m5[..p4] == m4[..p4] by { assert m5[..p5][..p4] == m5[..p4]; }
    Fronts(m4, m5, p3, p4); Fronts(m3, m4, p2, p3); Fronts(m4, m5, p2, p3);
    Fronts(m2, m3, p1, p2); Fronts(m3, m4, p1, p2); Fronts(m4, m5, p1, p2);
    ArgumentKept(m1, m5, cat, p1);
    ArgumentKept(m2, m5, scheme, p2);
    ArgumentKept(m3, m5, tbl, p3);
    ghost var types := Taken(s);
    TakenIs(s);
    PartsAreText(s) by { LiesAt(m4, typeString, s, p4, 0); }
    assert m5[p4..p4 + |Flat(types)|] == m5[..p5][p4..] == Flat(types);
    forall k | 0 <= k < numberTypes
      ensures typeVector[k] <= TEMP_SIZE && C.CText(temp[typeVector[k]..]) == types[k]
    {
      TakenIsText(s, k);
      PieceReads(m5, p4, types, k);
      assert temp[typeVector[k]..] == m5[typeVector[k]..];
    }
  }

  lemma TakenIs(s: string)
    ensures Taken(s) == if |Parts(s)| <= 16 then Parts(s) else Parts(s)[..16]
  {
    assert Parts(s)[..|Parts(s)|] == Parts(s);
  }

  lemma TakenIsText(s: string, k: nat)
    requires k < |Taken(s)| && forall j :: 0 <= j < |Parts(s)| ==> C.NUL !in Parts(s)[j]
    ensures C.NUL !in Taken(s)[k]
  {
    assert Taken(s)[k] == Parts(s)[k];
  }
}

/** Connection strings: the attribute loop shared by `sqlDriverConnect` and
    `sqlBrowseConnect`, `trim`, and the string the driver hands back. */
module ConnectString {
  import opened Odbc

  const NUL := '\0'

  /** Index of the first character of `s` that is one of `stops`; the length if there is none. */
  function Find(s: string, stops: set<char>): (i: nat)
    ensures i <= |s| && (i < |s| ==> s[i] in stops)
  {
    if s == "" || s[0] in stops then 0 else Find(s[1..], stops) + 1
  }

  lemma {:induction false} FindIsFirst(s: string, stops: set<char>)
    ensures forall j :: 0 <= j < Find(s, stops) ==> s[j] !in stops
  {
    if s != "" && s[0] !in stops {
      FindIsFirst(s[1..], stops);
    }
  }

  /** What is left of a character buffer read as a C string. */
  function CText(s: string): string
  {
    s[..Find(s, {NUL})]
  }

  // ----- trim ------------------------------------------------------------------------

  function TrimLeft(s: string, chars: set<char>): string
  {
    if s != "" && s[0] in chars then TrimLeft(s[1..], chars) else s
  }

  function TrimRight(s: string, chars: set<char>): string
  {
    if s != "" && s[|s| - 1] in chars then TrimRight(s[..|s| - 1], chars) else s
  }

  function Trimmed(s: string, chars: set<char>): string
  {
    TrimRight(TrimLeft(s, chars), chars)
  }

  predicate Bare(s: string, chars: set<char>)
  {
    s == "" || (s[0] !in chars && s[|s| - 1] !in chars)
  }

  lemma {:induction false} TrimLeftPart(s: string, chars: set<char>)
    ensures var r := TrimLeft(s, chars);
      && |r| <= |s| && r == s[|s| - |r|..] && (r != "" ==> r[0] !in chars)
  {
    if s != "" && s[0] in chars {
      TrimLeftPart(s[1..], chars);
    }
  }

  lemma {:induction false} TrimRightPart(s: string, chars: set<char>)
    ensures var r := TrimRight(s, chars);
      && |r| <= |s| && r == s[..|r|] && (r != "" ==> r[|r| - 1] !in chars)
  {
    if s != "" && s[|s| - 1] in chars {
      TrimRightPart(s[..|s| - 1], chars);
    }
  }

  lemma {:induction false} TrimmedOffLeft(s: string, chars: set<char>)
    ensures forall k :: 0 <= k < |s| - |TrimLeft(s, chars)| && k < |s| ==> s[k] in chars
    ensures |TrimLeft(s, chars)| <= |s|
  {
    if s != "" && s[0] in chars {
      TrimmedOffLeft(s[1..], chars);
    }
  }

  lemma {:induction false} TrimmedOffRight(s: string, chars: set<char>)
    ensures forall k :: |TrimRight(s, chars)| <= k < |s| ==> s[k] in chars
  {
    if s != "" && s[|s| - 1] in chars {
      TrimmedOffRight(s[..|s| - 1], chars);
    }
  }

  /** Cutting at the right leaves the left end bare. */
  lemma LeftBare(left: string, r: string, chars: set<char>)
    requires left != "" ==> left[0] !in chars
    requires r <= left && (r != "" ==> r[|r| - 1] !in chars)
    ensures Bare(r, chars)
  {
  }

  /** `r` is what lies between `i` and `j` in `s`, and everything around it is one of `chars`. */
  predicate Remains(r: string, s: string, chars: set<char>, i: nat, j: nat)
  {
    && i <= j <= |s| && r == s[i..j]
    && (forall k :: 0 <= k < i ==> s[k] in chars) && (forall k :: j <= k < |s| ==> s[k] in chars)
  }

  /** What is cut at the right lies behind what is cut at the left. */
  lemma CutTwice(s: string, left: string, r: string, i: nat, chars: set<char>)
    requires i <= |s| && left == s[i..] && r <= left
    requires forall k :: 0 <= k < i ==> s[k] in chars
    requires forall k :: |r| <= k < |left| ==> left[k] in chars
    ensures Remains(r, s, chars, i, i + |r|)
  {
    assert r == s[i..i + |r|];
    forall k | i + |r| <= k < |s| ensures s[k] in chars {
      assert s[k] == left[k - i];
    }
  }

  lemma CutsWell(s: string, chars: set<char>)
    ensures Bare(Trimmed(s, chars), chars)
    ensures exists i: nat, j: nat :: Remains(Trimmed(s, chars), s, chars, i, j)
  {
    hide TrimLeft, TrimRight, Bare, Remains;
    TrimLeftPart(s, chars);
    var left := TrimLeft(s, chars);
    TrimRightPart(left, chars);
    TrimmedOffLeft(s, chars);
    TrimmedOffRight(left, chars);
    LeftBare(left, TrimRight(left, chars), chars);
    CutTwice(s, left, TrimRight(left, chars), |s| - |left|, chars);
  }

  /** Trimming takes off exactly the characters to be trimmed at both ends: what is left is
      a middle part with none of them at either end, and everything around it is one of
      them.  It changes nothing exactly when there was none. */
  lemma TrimSpec(s: string, chars: set<char>)
    ensures Bare(Trimmed(s, chars), chars)
    ensures exists i: nat, j: nat :: Remains(Trimmed(s, chars), s, chars, i, j)
    ensures Trimmed(s, chars) == s <==> Bare(s, chars)
  {
    hide Trimmed, Bare, Remains;
    CutsWell(s, chars);
    if Bare(s, chars) {
      BareStays(s, chars);
    }
  }

  lemma BareStays(s: string, chars: set<char>)
    requires Bare(s, chars)
    ensures Trimmed(s, chars) == s
  {
  }

  /** There is only one such part, so the specification fixes the result. */
  lemma TrimIsUnique(r: string, s: string, chars: set<char>, i: nat, j: nat)
    requires Remains(r, s, chars, i, j) && Bare(r, chars)
    ensures Trimmed(s, chars) == r
  {
    TrimSpec(s, chars);
    hide Trimmed;
    var a: nat, b: nat :| Remains(Trimmed(s, chars), s, chars, a, b);
    if a < b {
      assert s[a..b][0] == s[a] && s[a..b][b - a - 1] == s[b - 1];
    }
    if i < j {
      assert s[i..j][0] == s[i] && s[i..j][j - i - 1] == s[j - 1];
    }
  }

  /** `trim`: skips from the left, then counts back from the right. */
  method Trim(data: string, chars: set<char>) returns (r: string)
    ensures r == Trimmed(data, chars)
  {
    if |data| == 0 {
      return "";
    }
    var start := 0;
    while start < |data| && data[start] in chars
      invariant 0 <= start <= |data|
      invariant TrimLeft(data, chars) == TrimLeft(data[start..], chars)
    {
      start := start + 1;
    }
    var len := |data| - start;
    var found := true;
    var p := |data| - 1;
    ghost var left := data[start..];
    assert left[..|left|] == left;
    while found && len > 0
      invariant 0 <= len <= |left| && TrimRight(left, chars) == TrimRight(left[..len], chars)
      invariant found ==> p == start + len - 1
      invariant !found ==> len > 0 && left[len - 1] !in chars
      decreases len, found
    {
      found := false;
      if data[p] in chars {
        found := true;
        assert left[..len][..len - 1] == left[..len - 1];
        len := len - 1;
      }
      p := p - 1;
    }
    r := data[start..start + len];
    assert r == left[..len];
  }

  // ----- attributes ------------------------------------------------------------------

  /** The connection's attributes, and the number of `01S00` diagnostics posted. */
  datatype Attributes = Attributes(dsn: string, databaseName: string, account: string, password: string,
                                   schema: string, driver: string, complaints: nat)

  function Lower(c: char): char
  {
    if 'A' <= c <= 'Z' then c - 'A' + 'a' else c
  }

  /** A name as `strcasecmp` compares it. */
  function Folded(s: string): string
  {
    if s == "" then "" else [Lower(s[0])] + Folded(s[1..])
  }

  datatype Field = Dsn | DatabaseName | Account | Password | Driver | Schema | Ignored | Unknown

  function FieldOf(name: string): Field
  {
    var folded := Folded(name);
    if folded == "dsn" then Dsn
    else if folded == "dbname" || folded == "database" then DatabaseName
    else if folded == "uid" || folded == "uic" then Account
    else if folded == "pwd" then Password
    else if folded == "driver" then Driver
    else if folded == "schema" then Schema
    else if folded == "odbc" then Ignored
    else Unknown
  }

  function Assign(a: Attributes, name: string, value: string): Attributes
  {
    match FieldOf(name)
    case Dsn => a.(dsn := value)
    case DatabaseName => a.(databaseName := Trimmed(value, {'{', '}'}))
    case Account => a.(account := value)
    case Password => a.(password := value)
    case Driver => a.(driver := Trimmed(value, {'{', '}'}))
    case Schema => a.(schema := value)
    case Ignored => a
    case Unknown => a.(complaints := a.complaints + 1)
  }

  /** `t` is the lower-case word `word` in some casing. */
  predicate Spells(t: string, word: string)
  {
    |t| == |word| && forall k :: 0 <= k < |t| ==> t[k] == word[k] || t[k] as int + 32 == word[k] as int
  }

  lemma {:induction false} FoldedSpells(t: string, word: string)
    requires forall k :: 0 <= k < |word| ==> 'a' <= word[k] <= 'z'
    ensures Folded(t) == word <==> Spells(t, word)
  {
    if t != "" && word != "" {
      hide Spells;
      FoldedSpells(t[1..], word[1..]);
      assert Lower(t[0]) == word[0] <==> t[0] == word[0] || t[0] as int + 32 == word[0] as int;
      assert Folded(t)[1..] == Folded(t[1..]);
      assert word == [word[0]] + word[1..];
      assert Spells(t, word) <==> (t[0] == word[0] || t[0] as int + 32 == word[0] as int) && Spells(t[1..], word[1..]) by {
        SpellsMore(t, word);
      }
    }
  }

  lemma SpellsMore(t: string, word: string)
    requires t != "" && word != ""
    ensures Spells(t, word) <==> (t[0] == word[0] || t[0] as int + 32 == word[0] as int) && Spells(t[1..], word[1..])
  {
    if (t[0] == word[0] || t[0] as int + 32 == word[0] as int) && Spells(t[1..], word[1..]) {
      forall k | 0 <= k < |t| ensures t[k] == word[k] || t[k] as int + 32 == word[k] as int {
        if k > 0 {
          assert t[k] == t[1..][k - 1] && word[k] == word[1..][k - 1];
        }
      }
    }
    if Spells(t, word) {
      forall k | 0 <= k < |t| - 1 ensures t[1..][k] == word[1..][k] || t[1..][k] as int + 32 == word[1..][k] as int {
        assert t[1..][k] == t[k + 1] && word[1..][k] == word[k + 1];
      }
    }
  }

  /** What each name sets, in any casing; ODBC sets nothing, and any other name is complained about. */
  lemma AssignExactly(a: Attributes, name: string, value: string)
    ensures var bare := Trimmed(value, {'{', '}'});
      Assign(a, name, value) ==
        if Spells(name, "dsn") then a.(dsn := value)
        else if Spells(name, "dbname") || Spells(name, "database") then a.(databaseName := bare)
        else if Spells(name, "uid") || Spells(name, "uic") then a.(account := value)
        else if Spells(name, "pwd") then a.(password := value)
        else if Spells(name, "driver") then a.(driver := bare)
        else if Spells(name, "schema") then a.(schema := value)
        else if Spells(name, "odbc") then a
        else a.(complaints := a.complaints + 1)
  {
    hide Spells, Folded;
    FoldedSpells(name, "dsn"); FoldedSpells(name, "dbname"); FoldedSpells(name, "database");
    FoldedSpells(name, "uid"); FoldedSpells(name, "uic"); FoldedSpells(name, "pwd");
    FoldedSpells(name, "driver"); FoldedSpells(name, "schema"); FoldedSpells(name, "odbc");
  }

  /** The first attribute of a non-empty string and what follows it. */
  datatype Attribute = Attribute(name: string, value: string, rest: string, terminated: bool)

  function First(s: string): (r: Attribute)
    requires s != ""
    ensures |r.rest| < |s|
  {
    var i := Find(s, {'=', ';'});
    if i == |s| then Attribute(s, "", "", false)
    else if s[i] == ';' then Attribute(s[..i], "", s[i + 1..], true)
    else Valued(s[..i], s[i + 1..])
  }

  /** The attribute `name`, given the text after its equals sign. */
  function Valued(name: string, text: string): (r: Attribute)
    ensures |r.rest| <= |text|
  {
    var j := Find(text, {';'});
    Attribute(name, text[..j], if j == |text| then "" else text[j + 1..], j < |text|)
  }

  /** The attribute loop. */
  function Parse(a: Attributes, s: string): Attributes
    decreases |s|
  {
    if s == "" then a
    else Parse(Assign(a, CText(First(s).name), CText(First(s).value)), First(s).rest)
  }

  /** Every name and value fits the loop's buffers with its terminator. */
  predicate FitsBuffers(s: string)
    decreases |s|
  {
    s == "" || (|First(s).name| < 256 && |First(s).value| < 256 && FitsBuffers(First(s).rest))
  }

  lemma FindStep(s: string, stops: set<char>)
    ensures Find(s, stops) == if s == "" || s[0] in stops then 0 else Find(s[1..], stops) + 1
  {
  }

  /** An inner loop: copies characters up to one of `stops`, and steps over it. */
  method CopyUntil(s: string, p: nat, stops: set<char>, buffer: array<char>) returns (p': nat, q: nat, c: char)
    requires p < |s| && Find(s[p..], stops) < buffer.Length
    modifies buffer
    ensures q == Find(s[p..], stops) && buffer[..q] == s[p..p + q]
    ensures if p + q < |s| then p' == p + q + 1 && c == s[p + q] else p' == |s| && c !in stops
  {
    hide Find;
    p', q, c := p, 0, s[p];
    ghost var text := s[p..];
    while p' < |s|
      invariant q < buffer.Length && p' == p + q <= |s| && buffer[..q] == s[p..p + q]
      invariant Find(text, stops) == q + Find(text[q..], stops)
      invariant q > 0 ==> c !in stops
      decreases |s| - p'
    {
      c := s[p'];
      p' := p' + 1;
      FindStep(text[q..], stops);
      assert text[q..][0] == c && text[q..][1..] == text[q + 1..];
      if c in stops {
        return;
      }
      ghost var copied := buffer[..q];
      buffer[q] := c;
      assert buffer[..q + 1] == copied + [c] && s[p..p + q + 1] == s[p..p + q] + [c];
      q := q + 1;
    }
    FindStep(text[q..], stops);
  }

  /** The value after an equals sign. */
  method ReadValue(s: string, p: nat) returns (p': nat, value: string)
    requires p <= |s| && |Valued("", s[p..]).value| < 256
    ensures p <= p' <= |s| && s[p'..] == Valued("", s[p..]).rest && value == CText(Valued("", s[p..]).value)
  {
    p', value := p, "";
    if p < |s| {
      var buffer := new char[256];
      var v, c;
      p', v, c := CopyUntil(s, p, {';'}, buffer);
      assert buffer[..v] == s[p..][..v];
      value := CText(buffer[..v]);
    }
  }

  /** The first attribute, by the character that ends its name. */
  lemma FirstByStop(s: string)
    requires s != ""
    ensures var i := Find(s, {'=', ';'}); var f := First(s);
      && f.name == s[..i]
      && (i == |s| || s[i] == ';' ==> f.value == "" && f.rest == if i == |s| then "" else s[i + 1..])
      && (i < |s| && s[i] == '=' ==> f.value == Valued("", s[i + 1..]).value && f.rest == Valued("", s[i + 1..]).rest)
  {
    hide Find;
    assert s[..|s|] == s;
  }

  lemma FirstFits(s: string)
    requires s != "" && FitsBuffers(s)
    ensures |First(s).name| < 256 && |First(s).value| < 256
  {
    hide First;
  }

  /** One pass of the outer loop: the next name and value, in buffers of 256. */
  method ReadAttribute(s: string, p: nat) returns (p': nat, name: string, value: string)
    requires p < |s| && FitsBuffers(s[p..])
    ensures p < p' <= |s| && s[p'..] == First(s[p..]).rest
    ensures name == CText(First(s[p..]).name) && value == CText(First(s[p..]).value)
  {
    hide Find, CText, First, Valued, FitsBuffers;
    ghost var text := s[p..];
    FirstFits(text);
    FirstByStop(text);
    var buffer := new char[256];
    var q, c;
    p', q, c := CopyUntil(s, p, {'=', ';'}, buffer);
    name := CText(buffer[..q]);
    assert buffer[..q] == text[..q];
    StoppedAt(s, p, q, p', c);
    if c == '=' {
      p', value := ReadValue(s, p');
    } else {
      value := "";
    }
  }

  /** Where the name's loop leaves the text. */
  lemma StoppedAt(s: string, p: nat, q: nat, p': nat, c: char)
    requires p < |s| && q == Find(s[p..], {'=', ';'})
    requires if p + q < |s| then p' == p + q + 1 && c == s[p + q] else p' == |s| && c !in {'=', ';'}
    ensures var text := s[p..];
      && p < p' <= |s| && CText("") == ""
      && (c == '=' ==> q < |text| && text[q] == '=' && s[p'..] == text[q + 1..])
      && (c != '=' ==> (q == |text| || text[q] == ';') && s[p'..] == if q == |text| then "" else text[q + 1..])
  {
    hide Find;
  }

  // ----- incremental browsing --------------------------------------------------------

  lemma {:induction false} FindInPrefix(s: string, t: string, stops: set<char>)
    ensures Find(s, stops) < |s| ==> Find(s + t, stops) == Find(s, stops)
    ensures Find(s, stops) == |s| ==> Find(s + t, stops) == |s| + Find(t, stops)
  {
    if s == "" {
      assert s + t == t;
    } else if s[0] !in stops {
      assert (s + t)[1..] == s[1..] + t;
      FindInPrefix(s[1..], t, stops);
    }
  }

  lemma ValuedAppended(name: string, text: string, t: string)
    ensures Valued(name, text).terminated ==>
      Valued(name, text + t) == Valued(name, text).(rest := Valued(name, text).rest + t)
    ensures !Valued(name, text).terminated ==> Valued(name, text).rest == ""
    ensures !Valued(name, text).terminated ==>
      Valued(name, text + ([';'] + t)) == Valued(name, text).(rest := t, terminated := true)
  {
    hide Find;
    var j := Find(text, {';'});
    FindInPrefix(text, t, {';'});
    if j < |text| {
      assert (text + t)[..j] == text[..j] && (text + t)[j + 1..] == text[j + 1..] + t;
    } else {
      var u := [';'] + t;
      FindIsFirst(u, {';'});
      assert u[0] == ';';
      FindInPrefix(text, u, {';'});
      assert (text + u)[..j] == text[..j] && (text + u)[j + 1..] == t;
    }
  }

  /** Text appended after a terminated attribute belongs to what follows it. */
  lemma FirstTerminated(s: string, t: string)
    requires s != "" && First(s).terminated
    ensures First(s + t) == First(s).(rest := First(s).rest + t)
  {
    var i := Find(s, {'=', ';'});
    FindInPrefix(s, t, {'=', ';'});
    assert (s + t)[..i] == s[..i] && (s + t)[i + 1..] == s[i + 1..] + t;
    ValuedAppended(s[..i], s[i + 1..], t);
  }

  /** A last attribute gets the semicolon it lacks from the text appended. */
  lemma FirstUnterminated(s: string, t: string)
    requires s != "" && !First(s).terminated
    ensures First(s).rest == "" && First(s + (";" + t)) == First(s).(rest := t, terminated := true)
  {
    hide Valued;
    var i := Find(s, {'=', ';'});
    var u := ";" + t;
    assert u[0] == ';' && u[1..] == t;
    FindInPrefix(s, u, {'=', ';'});
    if i == |s| {
      assert (s + u)[..i] == s && (s + u)[i + 1..] == t;
    } else {
      assert (s + u)[..i] == s[..i] && (s + u)[i + 1..] == s[i + 1..] + u;
      ValuedAppended(s[..i], s[i + 1..], t);
    }
  }

  lemma {:induction false} ComplaintsAddUp(a: Attributes, s: string, k: nat)
    ensures Parse(a.(complaints := a.complaints + k), s) == Parse(a, s).(complaints := Parse(a, s).complaints + k)
    decreases |s|
  {
    if s != "" {
      var f := First(s);
      var a' := Assign(a, CText(f.name), CText(f.value));
      assert Assign(a.(complaints := a.complaints + k), CText(f.name), CText(f.value)) == a'.(complaints := a'.complaints + k);
      ComplaintsAddUp(a', f.rest, k);
    }
  }

  /** Browsing in two steps is parsing in one: the attributes are the same for any
      two strings, and one more complaint is posted exactly when the first is empty
      or already ends in a semicolon. */
  lemma {:induction false} BrowseIncrementally(a: Attributes, s: string, t: string)
    ensures var once := Parse(a, s + (";" + t)); var twice := Parse(Parse(a, s), t);
      once == twice.(complaints := twice.complaints + (if s == "" || s[|s| - 1] == ';' then 1 else 0))
    decreases |s|
  {
    hide First, Assign, CText;
    if s == "" {
      EmptyAttribute(a, s, t);
    } else {
      var f := First(s);
      var a' := Assign(a, CText(f.name), CText(f.value));
      assert Parse(a, s) == Parse(a', f.rest);
      assert s + (";" + t) != "";
      if f.terminated {
        FirstTerminated(s, ";" + t);
        TerminatedEnd(s);
        BrowseIncrementally(a', f.rest, t);
      } else {
        FirstUnterminated(s, t);
        UnterminatedEnd(s);
        assert Parse(a', f.rest) == a';
      }
    }
  }

  lemma AssignNameless(a: Attributes, value: string)
    ensures Assign(a, "", value) == a.(complaints := a.complaints + 1)
  {
  }

  lemma EmptyAttribute(a: Attributes, s: string, t: string)
    requires s == ""
    ensures Parse(a, s + (";" + t)) == Parse(a, t).(complaints := Parse(a, t).complaints + 1)
  {
    var u := ";" + t;
    assert s + u == u && u[0] == ';' && u[1..] == t;
    assert Find(u, {'=', ';'}) == 0;
    assert First(u) == Attribute("", "", t, true);
    assert CText("") == "";
    AssignNameless(a, "");
    assert Parse(a, u) == Parse(a.(complaints := a.complaints + 1), t);
    ComplaintsAddUp(a, t, 1);
  }

  lemma TerminatedEnd(s: string)
    requires s != "" && First(s).terminated
    ensures First(s).rest == "" ==> s[|s| - 1] == ';'
    ensures First(s).rest != "" ==> First(s).rest[|First(s).rest| - 1] == s[|s| - 1]
  {
  }

  lemma UnterminatedEnd(s: string)
    requires s != "" && !First(s).terminated
    ensures s[|s| - 1] != ';'
  {
    var i := Find(s, {'=', ';'});
    FindIsFirst(s, {'=', ';'});
    if i < |s| {
      FindIsFirst(s[i + 1..], {';'});
    }
  }

  // ----- the string handed back ------------------------------------------------------

  /** One attribute as `appendAttribute` writes it. */
  function Written(name: string, value: string, empty: bool): string
  {
    (if empty then "" else ";") + name + "=" + CText(value)
  }

  function Build(a: Attributes): string
  {
    Written("DSN", a.dsn, true) + Written("UIC", a.account, false) + Written("PWD", a.password, false) +
    Written("SCHEMA", a.schema, false) + Written("DRIVER", a.driver, false)
  }

  /** `appendString` into the return buffer. */
  method AppendString(buffer: array<char>, at: nat, text: string) returns (at': nat)
    requires at + |text| <= buffer.Length
    modifies buffer
    ensures at' == at + |text| && buffer[..at'] == old(buffer[..at]) + text
  {
    at' := at;
    var i := 0;
    while i < |text|
      invariant 0 <= i <= |text| && at' == at + i
      invariant buffer[..at'] == old(buffer[..at]) + text[..i]
    {
      buffer[at'] := text[i];
      at', i := at' + 1, i + 1;
    }
  }

  method AppendAttribute(buffer: array<char>, at: nat, name: string, value: string, empty: bool) returns (at': nat)
    requires at + |Written(name, value, empty)| <= buffer.Length
    modifies buffer
    ensures at' == at + |Written(name, value, empty)|
    ensures buffer[..at'] == old(buffer[..at]) + Written(name, value, empty)
  {
    at' := at;
    if !empty {
      at' := AppendString(buffer, at', ";");
    }
    at' := AppendString(buffer, at', name);
    at' := AppendString(buffer, at', "=");
    at' := AppendString(buffer, at', CText(value));
  }

  /** The connection string of `sqlDriverConnect`, left in the return buffer. */
  method BuildConnectString(buffer: array<char>, a: Attributes) returns (at: nat)
    requires |Build(a)| <= buffer.Length
    modifies buffer
    ensures at == |Build(a)| && buffer[..at] == Build(a)
  {
    ghost var w1, w2, w3, w4, w5 := Written("DSN", a.dsn, true), Written("UIC", a.account, false),
      Written("PWD", a.password, false), Written("SCHEMA", a.schema, false), Written("DRIVER", a.driver, false);
    assert Build(a) == w1 + w2 + w3 + w4 + w5;
    at := AppendAttribute(buffer, 0, "DSN", a.dsn, true);
    assert buffer[..at] == w1;
    at := AppendAttribute(buffer, at, "UIC", a.account, false);
    assert buffer[..at] == w1 + w2;
    at := AppendAttribute(buffer, at, "PWD", a.password, false);
    assert buffer[..at] == w1 + w2 + w3;
    at := AppendAttribute(buffer, at, "SCHEMA", a.schema, false);
    at := AppendAttribute(buffer, at, "DRIVER", a.driver, false);
  }

  // ----- round trip ------------------------------------------------------------------

  predicate Plain(s: string) { ';' !in s && NUL !in s }

  /** Field values that survive the trip. */
  predicate Clean(a: Attributes)
  {
    && Plain(a.dsn) && Plain(a.account) && Plain(a.password) && Plain(a.schema)
    && Plain(a.driver) && Bare(a.driver, {'{', '}'})
  }

  predicate SameFields(a: Attributes, b: Attributes)
  {
    (a.dsn, a.account, a.password, a.schema, a.driver) == (b.dsn, b.account, b.password, b.schema, b.driver)
  }

  /** A name, an equals sign and a value without semicolon, alone or followed by more. */
  lemma FirstOfWritten(name: string, value: string, rest: string)
    requires '=' !in name && ';' !in name && ';' !in value
    ensures First(name + "=" + value) == Attribute(name, value, "", false)
    ensures First(name + "=" + value + ";" + rest) == Attribute(name, value, rest, true)
  {
    hide Find;
    FindNone(name, {'=', ';'});
    FindNone(value, {';'});
    var s, u := name + "=" + value, "=" + value;
    assert s == name + u;
    FindIsFirst(u, {'=', ';'});
    assert u[0] == '=';
    FindInPrefix(name, u, {'=', ';'});
    assert s[..|name|] == name && s[|name| + 1..] == value;
    FirstUnterminated(s, rest);
    assert s + ";" + rest == s + (";" + rest);
  }

  lemma {:induction false} FindNone(s: string, stops: set<char>)
    requires forall c :: c in stops ==> c !in s
    ensures Find(s, stops) == |s|
  {
    if s != "" {
      FindNone(s[1..], stops);
    }
  }

  lemma CTextOfPlain(s: string)
    ensures NUL !in s <==> CText(s) == s
    ensures Plain(s) ==> CText(s) == s
    ensures ';' !in s ==> Plain(CText(s))
  {
    FindIsFirst(s, {NUL});
    if NUL !in s {
      FindNone(s, {NUL});
    }
  }

  /** Reading back clean fields, one at a time. */
  lemma ParseWritten(a: Attributes, name: string, value: string, rest: string)
    requires '=' !in name && Plain(name) && Plain(value)
    ensures Parse(a, name + "=" + CText(value)) == Assign(a, name, value)
    ensures Parse(a, name + "=" + CText(value) + ";" + rest) == Parse(Assign(a, name, value), rest)
  {
    CTextOfPlain(name);
    CTextOfPlain(value);
    FirstOfWritten(name, value, rest);
  }

  lemma ValueHasNoSemicolon(s: string)
    requires s != ""
    ensures ';' !in First(s).value
  {
    var i := Find(s, {'=', ';'});
    if i < |s| {
      FindIsFirst(s[i + 1..], {';'});
    }
  }

  lemma AssignKeepsClean(a: Attributes, name: string, value: string)
    requires Clean(a) && Plain(value)
    ensures Clean(Assign(a, name, value))
  {
    TrimSpec(value, {'{', '}'});
    var i: nat, j: nat :| Remains(Trimmed(value, {'{', '}'}), value, {'{', '}'}, i, j);
    assert Plain(Trimmed(value, {'{', '}'}));
  }

  /** Values found by the loop never contain a semicolon or NUL, and drivers are trimmed. */
  lemma {:induction false} ParsedFieldsAreClean(a: Attributes, s: string)
    requires Clean(a)
    ensures Clean(Parse(a, s))
    decreases |s|
  {
    if s != "" {
      var f := First(s);
      ValueHasNoSemicolon(s);
      CTextOfPlain(f.value);
      AssignKeepsClean(a, CText(f.name), CText(f.value));
      ParsedFieldsAreClean(Assign(a, CText(f.name), CText(f.value)), f.rest);
    }
  }

  /** Round trip.  Parsing the string built from a connection's attributes into a
      connection recovers all five fields if and only if no field contains a
      semicolon or NUL and the driver has no brace at either end; then nothing is
      complained about. */
  lemma RoundTrip(a: Attributes, start: Attributes)
    requires Clean(start)
    ensures var b := Parse(start, Build(a));
      && (SameFields(a, b) <==> Clean(a))
      && (Clean(a) ==> b.complaints == start.complaints)
  {
    ParsedFieldsAreClean(start, Build(a));
    if Clean(a) {
      CleanRoundTrip(a, start);
    }
  }

  /** The room a connection's attributes take, against the buffers of 1024 and 256. */
  predicate Roomy(a: Attributes)
  {
    && |a.dsn| + |a.account| + |a.password| + |a.schema| + |a.driver| + 30 <= 1024
    && |a.dsn| < 256 && |a.account| < 256 && |a.password| < 256 && |a.schema| < 256 && |a.driver| < 256
  }

  lemma WrittenFits(name: string, value: string, rest: string)
    requires '=' !in name && ';' !in name && ';' !in value && |name| < 256
    ensures FitsBuffers(name + "=" + value) <==> |value| < 256
    ensures FitsBuffers(name + "=" + value + ";" + rest) <==> |value| < 256 && FitsBuffers(rest)
  {
    hide First;
    FirstOfWritten(name, value, rest);
  }

  /** The built string fits the buffer it is built in and the buffers it is parsed with
      exactly when the fields have room, so builder and parser compose. */
  lemma BuiltStringFits(a: Attributes)
    requires Clean(a)
    ensures |Build(a)| == |a.dsn| + |a.account| + |a.password| + |a.schema| + |a.driver| + 30
    ensures |Build(a)| <= 1024 && FitsBuffers(Build(a)) <==> Roomy(a)
  {
    hide FitsBuffers, Build, CText;
    var r2, r3, r4, r5 := BuildInParts(a);
    CTextOfPlain(a.dsn); CTextOfPlain(a.account); CTextOfPlain(a.password);
    CTextOfPlain(a.schema); CTextOfPlain(a.driver);
    WrittenFits("DSN", a.dsn, r2);
    WrittenFits("UIC", a.account, r3);
    WrittenFits("PWD", a.password, r4);
    WrittenFits("SCHEMA", a.schema, r5);
    WrittenFits("DRIVER", a.driver, "");
  }

  lemma FieldsByName()
    ensures FieldOf("DSN") == Dsn && FieldOf("UIC") == Account && FieldOf("PWD") == Password
  {
    assert Folded("DSN") == "dsn" && Folded("UIC") == "uic" && Folded("PWD") == "pwd";
  }

  lemma SchemaByName()
    ensures FieldOf("SCHEMA") == Schema
  {
    assert Folded("SCHEMA") == "schema";
    assert "schema"[0] != "driver"[0] && "schema"[0] != "dbname"[0];
  }

  lemma DriverByName()
    ensures FieldOf("DRIVER") == Driver
  {
    assert Folded("DRIVER") == "driver";
    assert "driver"[1] != "dbname"[1];
  }

  /** One field of the string read back, whatever follows. */
  lemma ReadField(a: Attributes, name: string, field: Field, value: string, rest: string, s: string)
    requires '=' !in name && Plain(name) && Plain(value) && FieldOf(name) == field && field in {Dsn, Account, Password, Schema}
    requires s == name + "=" + CText(value) + ";" + rest
    ensures Parse(a, s) == Parse(match field
                                 case Dsn => a.(dsn := value)
                                 case Account => a.(account := value)
                                 case Password => a.(password := value)
                                 case _ => a.(schema := value), rest)
  {
    ParseWritten(a, name, value, rest);
  }

  lemma ReadDriver(a: Attributes, value: string, s: string)
    requires Plain(value) && Bare(value, {'{', '}'}) && s == "DRIVER" + "=" + CText(value)
    ensures Parse(a, s) == a.(driver := value)
  {
    DriverByName();
    ParseWritten(a, "DRIVER", value, "");
    TrimSpec(value, {'{', '}'});
  }

  lemma ReadLastTwo(a: Attributes, start: Attributes, r4: string, r5: string)
    requires Clean(a)
    requires r5 == "DRIVER" + "=" + CText(a.driver)
    requires r4 == "SCHEMA" + "=" + CText(a.schema) + ";" + r5
    ensures Parse(start, r4) == start.(schema := a.schema, driver := a.driver)
  {
    SchemaByName();
    ReadField(start, "SCHEMA", Schema, a.schema, r5, r4);
    ReadDriver(start.(schema := a.schema), a.driver, r5);
  }

  lemma ReadFirstThree(a: Attributes, start: Attributes, r1: string, r2: string, r3: string, r4: string)
    requires Clean(a)
    requires r3 == "PWD" + "=" + CText(a.password) + ";" + r4
    requires r2 == "UIC" + "=" + CText(a.account) + ";" + r3
    requires r1 == "DSN" + "=" + CText(a.dsn) + ";" + r2
    ensures Parse(start, r1) == Parse(start.(dsn := a.dsn, account := a.account, password := a.password), r4)
  {
    hide Parse, CText, FieldOf;
    FieldsByName();
    assert Parse(start, r1) == Parse(start.(dsn := a.dsn), r2) by {
      ReadField(start, "DSN", Dsn, a.dsn, r2, r1);
    }
    assert Parse(start.(dsn := a.dsn), r2) == Parse(start.(dsn := a.dsn, account := a.account), r3) by {
      ReadField(start.(dsn := a.dsn), "UIC", Account, a.account, r3, r2);
    }
    ReadField(start.(dsn := a.dsn, account := a.account), "PWD", Password, a.password, r4, r3);
  }

  lemma CleanRoundTrip(a: Attributes, start: Attributes)
    requires Clean(a)
    ensures Parse(start, Build(a)) ==
      start.(dsn := a.dsn, account := a.account, password := a.password, schema := a.schema, driver := a.driver)
  {
    var r2, r3, r4, r5 := BuildInParts(a);
    ReadFirstThree(a, start, Build(a), r2, r3, r4);
    ReadLastTwo(a, start.(dsn := a.dsn, account := a.account, password := a.password), r4, r5);
  }

  lemma WrittenThen(name: string, value: string, rest: string)
    ensures Written(name, value, false) + rest == ";" + (name + "=" + CText(value) + rest)
    ensures Written(name, value, true) + rest == name + "=" + CText(value) + rest
  {
    hide CText;
  }

  lemma BuildInParts(a: Attributes) returns (r2: string, r3: string, r4: string, r5: string)
    ensures r5 == "DRIVER" + "=" + CText(a.driver)
    ensures r4 == "SCHEMA" + "=" + CText(a.schema) + ";" + r5
    ensures r3 == "PWD" + "=" + CText(a.password) + ";" + r4
    ensures r2 == "UIC" + "=" + CText(a.account) + ";" + r3
    ensures Build(a) == "DSN" + "=" + CText(a.dsn) + ";" + r2
  {
    hide CText, Written;
    r5 := "DRIVER" + "=" + CText(a.driver);
    r4 := "SCHEMA" + "=" + CText(a.schema) + ";" + r5;
    r3 := "PWD" + "=" + CText(a.password) + ";" + r4;
    r2 := "UIC" + "=" + CText(a.account) + ";" + r3;
    WrittenThen("DRIVER", a.driver, "");
    WrittenThen("SCHEMA", a.schema, ";" + r5);
    WrittenThen("PWD", a.password, ";" + r4);
    WrittenThen("UIC", a.account, ";" + r3);
    WrittenThen("DSN", a.dsn, ";" + r2);
    assert "SCHEMA" + "=" + CText(a.schema) + (";" + r5) == r4;
    assert "PWD" + "=" + CText(a.password) + (";" + r4) == r3;
    assert "UIC" + "=" + CText(a.account) + (";" + r3) == r2;
    assert "DSN" + "=" + CText(a.dsn) + (";" + r2) == "DSN" + "=" + CText(a.dsn) + ";" + r2;
    var w1, w2, w3, w4, w5 := Written("DSN", a.dsn, true), Written("UIC", a.account, false),
      Written("PWD", a.password, false), Written("SCHEMA", a.schema, false), Written("DRIVER", a.driver, false);
    assert w5 + "" == w5 && r5 + "" == r5;
    assert w1 + w2 + w3 + w4 + w5 == w1 + (w2 + (w3 + (w4 + w5)));
  }
}

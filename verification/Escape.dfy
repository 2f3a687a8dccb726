/** The stored-procedure escape recogniser (src/OdbcStatement.cpp: the character
    table, `getToken`, `isStoredProcedureEscape`) and the grammar it decides. */
module Escape {
  import C = ConnectString

  /** NUL ends the text, and a signed character indexes the table only up to 127. */
  predicate Ascii(s: string) { forall k :: 0 <= k < |s| ==> 0 < s[k] as int < 128 }

  predicate White(c: char) { c == ' ' || c == '\t' || c == '\n' }

  predicate Ident(c: char) { 'a' <= c <= 'z' || 'A' <= c <= 'Z' || '0' <= c <= '9' }

  // ----- tokens ----------------------------------------------------------------------

  function Skip(s: string): (r: string)
    ensures |r| <= |s| && r == s[|s| - |r|..]
    ensures r == "" || !White(r[0])
  {
    if s != "" && White(s[0]) then Skip(s[1..]) else s
  }

  /** Length of the alphanumeric run at the front. */
  function Extent(s: string): (n: nat)
    ensures n <= |s| && (n < |s| ==> !Ident(s[n]))
    ensures forall k :: 0 <= k < n ==> Ident(s[k])
  {
    if s != "" && Ident(s[0]) then 1 + Extent(s[1..]) else 0
  }

  /** Length of the token at the front of a text that begins with none of the blanks. */
  function Width(s: string): (n: nat)
    ensures n <= |s| && (s != "" ==> n > 0)
  {
    if s == "" then 0 else if Ident(s[0]) then Extent(s) else 1
  }

  function Token(s: string): string { var t := Skip(s); t[..Width(t)] }

  function Rest(s: string): (r: string)
    ensures if Skip(s) == "" then r == "" else |r| < |s|
  {
    var t := Skip(s); t[Width(t)..]
  }

  function Tokens(s: string): seq<string>
    decreases |s|
  {
    if Skip(s) == "" then [] else [Token(s)] + Tokens(Rest(s))
  }

  /** Token `k`; reading past the end gives the empty token. */
  function Nth(ts: seq<string>, k: nat): string { if k < |ts| then ts[k] else "" }

  predicate ProcedureWord(t: string) { C.Folded(t) == "call" || C.Folded(t) == "execute" }

  /** Tokens from `k` on: a procedure word, or a question mark, an equals sign and
      a procedure word. */
  predicate Inner(ts: seq<string>, k: nat)
  {
    if Nth(ts, k) == "?" then Nth(ts, k + 1) == "=" && ProcedureWord(Nth(ts, k + 2))
    else ProcedureWord(Nth(ts, k))
  }

  predicate Accepts(ts: seq<string>)
  {
    ProcedureWord(Nth(ts, 0)) || (Nth(ts, 0) == "{" && Inner(ts, 1))
  }

  /** How many tokens the recogniser reads. */
  function Looked(ts: seq<string>): nat
  {
    if Nth(ts, 0) != "{" then 1
    else if Nth(ts, 1) != "?" then 2
    else if Nth(ts, 2) != "=" then 3 else 4
  }

  // ----- the grammar, on characters ----------------------------------------------------

  /** Blanks, tabs and newlines. */
  predicate Blank(s: string) { forall k :: 0 <= k < |s| ==> s[k] in {' ', '\t', '\n'} }

  /** `call` or `execute`, in any casing. */
  predicate NamesProcedure(t: string) { C.Spells(t, "call") || C.Spells(t, "execute") }

  predicate Alphanumeric(c: char)
  {
    'a' <= c <= 'z' || 'A' <= c <= 'Z' || '0' <= c <= '9'
  }

  /** From `from`, blanks up to `i` and then `call` or `execute` up to `j`, as a
      maximal alphanumeric run. */
  predicate CallAt(s: string, from: nat, i: nat, j: nat)
  {
    from <= i < j <= |s| && Blank(s[from..i]) && NamesProcedure(s[i..j]) && (j == |s| || !Alphanumeric(s[j]))
  }

  ghost predicate CallFrom(s: string, from: nat)
  {
    exists i: nat, j: nat :: CallAt(s, from, i, j)
  }

  /** From `from`, blanks and then the character `c`, which ends at `next`. */
  predicate Mark(s: string, from: nat, c: char, next: nat)
  {
    from < next <= |s| && Blank(s[from..next - 1]) && s[next - 1] == c
  }

  /** From `from`, optionally a question mark and an equals sign, and then a call. */
  ghost predicate InnerFrom(s: string, from: nat)
  {
    || CallFrom(s, from)
    || exists q: nat, e: nat :: Mark(s, from, '?', q) && Mark(s, q, '=', e) && CallFrom(s, e)
  }

  ghost predicate IsEscape(s: string)
  {
    || CallFrom(s, 0)
    || exists b: nat :: Mark(s, 0, '{', b) && InnerFrom(s, b)
  }

  // ----- the code's classes are the grammar's ---------------------------------------------

  lemma WordNames(t: string)
    ensures ProcedureWord(t) <==> NamesProcedure(t)
  {
    hide C.Folded, C.Spells;
    C.FoldedSpells(t, "call");
    C.FoldedSpells(t, "execute");
  }

  lemma Classes(c: char)
    ensures White(c) <==> c in {' ', '\t', '\n'}
    ensures Ident(c) <==> Alphanumeric(c)
  {
  }

  // ----- the tokens decide the grammar ---------------------------------------------------

  /** Blanks in front of a text that begins with none are exactly what is skipped. */
  lemma {:induction false} SkipBlank(w: string, s: string)
    requires Blank(w)
    ensures Skip(w + s) == Skip(s)
  {
    if w != "" {
      assert White(w[0]);
      assert (w + s)[1..] == w[1..] + s;
      SkipBlank(w[1..], s);
    } else {
      assert w + s == s;
    }
  }

  lemma {:induction false} SkippedIsBlank(s: string)
    ensures Blank(s[..|s| - |Skip(s)|])
  {
    if s != "" && White(s[0]) {
      SkippedIsBlank(s[1..]);
      var n := |s| - |Skip(s)|;
      assert s[..n] == [s[0]] + s[1..][..n - 1];
    }
  }

  /** A run of alphanumerics not followed by another is the token's extent. */
  lemma {:induction false} ExtentOf(a: string, x: string)
    requires forall k :: 0 <= k < |a| ==> Ident(a[k])
    requires x == "" || !Ident(x[0])
    ensures Extent(a + x) == |a|
  {
    if a != "" {
      assert (a + x)[1..] == a[1..] + x;
      ExtentOf(a[1..], x);
    } else {
      assert a + x == x;
    }
  }

  /** `call` and `execute` consist of letters. */
  lemma WordIsIdent(t: string)
    requires ProcedureWord(t)
    ensures t != "" && forall k :: 0 <= k < |t| ==> Ident(t[k])
  {
    FoldedPointwise(t);
    forall k | 0 <= k < |t| ensures Ident(t[k]) {
      assert 'a' <= C.Folded(t)[k] <= 'z';
    }
  }

  lemma WordIsNoMark()
    ensures !ProcedureWord("?")
  {
    FoldedPointwise("?");
  }

  lemma {:induction false} FoldedPointwise(t: string)
    ensures |C.Folded(t)| == |t| && forall k :: 0 <= k < |t| ==> C.Folded(t)[k] == C.Lower(t[k])
  {
    if t != "" {
      FoldedPointwise(t[1..]);
    }
  }

  lemma SkipSplit(w: string, t: string)
    requires Blank(w) && (t == "" || !White(t[0]))
    ensures Skip(w + t) == t
  {
    SkipBlank(w, t);
  }

  /** Where the next token begins. */
  function At(s: string, from: nat): (i: nat)
    requires from <= |s|
    ensures from <= i <= |s|
    ensures Skip(s[from..]) == s[i..] && Blank(s[from..i])
  {
    hide Skip, Blank, White;
    var x := s[from..];
    var n := |x| - |Skip(x)|;
    SkippedIsBlank(x);
    Slices(s, from, n);
    from + n
  }

  lemma Slices(s: string, from: nat, n: nat)
    requires from + n <= |s|
    ensures s[from..][..n] == s[from..from + n] && s[from..][n..] == s[from + n..]
  {
  }

  lemma TokenIsCall(s: string, from: nat)
    requires from <= |s| && ProcedureWord(Token(s[from..]))
    ensures CallFrom(s, from)
  {
    hide Skip, Extent, C.Folded;
    var i := At(s, from);
    var word := Token(s[from..]);
    WordIsIdent(word);
    assert Ident(word[0]);
    var j := i + |word|;
    assert s[i..j] == word;
    assert j < |s| ==> s[j] == s[i..][|word|];
    WordNames(word);
    assert CallAt(s, from, i, j);
  }

  lemma CallIsToken(s: string, from: nat, i: nat, j: nat)
    requires CallAt(s, from, i, j)
    ensures ProcedureWord(Token(s[from..]))
  {
    hide Skip, Extent, C.Folded;
    var word, after := s[i..j], s[j..];
    WordNames(word);
    WordIsIdent(word);
    assert Ident(word[0]);
    assert s[i..] == word + after;
    assert s[from..] == s[from..i] + s[i..];
    SkipSplit(s[from..i], s[i..]);
    ExtentOf(word, after);
    assert Token(s[from..]) == word;
  }

  /** The next token is `call` or `execute` exactly when the grammar has a call here. */
  lemma CallFromToken(s: string, from: nat)
    requires from <= |s|
    ensures ProcedureWord(Token(s[from..])) <==> CallFrom(s, from)
  {
    hide Token, CallAt, ProcedureWord;
    if ProcedureWord(Token(s[from..])) {
      TokenIsCall(s, from);
    }
    forall i: nat, j: nat | CallAt(s, from, i, j) ensures ProcedureWord(Token(s[from..])) {
      CallIsToken(s, from, i, j);
    }
  }

  lemma TokenIsMark(s: string, from: nat, c: char)
    requires from <= |s| && Token(s[from..]) == [c]
    ensures exists n: nat :: Mark(s, from, c, n)
  {
    hide Skip, Width, Blank;
    var i := At(s, from);
    assert Token(s[from..])[0] == s[i..][0];
    assert Mark(s, from, c, i + 1);
  }

  lemma MarkStep(s: string, from: nat, c: char, n: nat)
    requires Mark(s, from, c, n) && !White(c) && !Ident(c)
    ensures Token(s[from..]) == [c] && Rest(s[from..]) == s[n..] && |Rest(s[from..])| == |s| - n
  {
    hide Skip, Blank;
    var i := n - 1;
    assert s[from..] == s[from..i] + s[i..];
    SkipSplit(s[from..i], s[i..]);
    assert s[i..][1..] == s[n..];
  }

  /** The next token is the mark `c` exactly when the grammar has it here, and then
      the rest begins where the mark ends. */
  lemma MarkIsToken(s: string, from: nat, c: char)
    requires from <= |s| && !White(c) && !Ident(c)
    ensures Token(s[from..]) == [c] <==> exists n: nat :: Mark(s, from, c, n)
    ensures forall n: nat :: Mark(s, from, c, n) ==> Rest(s[from..]) == s[n..]
    ensures forall n: nat, n': nat :: Mark(s, from, c, n) && Mark(s, from, c, n') ==> n == n'
  {
    hide Token, Rest, Mark;
    if Token(s[from..]) == [c] {
      TokenIsMark(s, from, c);
    }
    forall n: nat | Mark(s, from, c, n)
      ensures n <= |s| && Token(s[from..]) == [c] && Rest(s[from..]) == s[n..] && |Rest(s[from..])| == |s| - n
    {
      MarkEnds(s, from, c, n);
      MarkStep(s, from, c, n);
    }
  }

  lemma MarkEnds(s: string, from: nat, c: char, n: nat)
    requires Mark(s, from, c, n)
    ensures from < n <= |s|
  {}

  /** Token `k + 1` of a text is token `k` of what follows its first token. */
  lemma TokensFrom(s: string, k: nat)
    ensures Nth(Tokens(s), 0) == Token(s)
    ensures Nth(Tokens(s), k + 1) == Nth(Tokens(Rest(s)), k)
  {
    hide Skip, Width, Rest;
    if Skip(s) == "" {
      assert Rest(s) == "" && Skip(Rest(s)) == "";
    } else {
      var ts := Tokens(Rest(s));
      assert Tokens(s) == [Token(s)] + ts;
    }
  }

  /** The token rule decides the grammar. */
  lemma TokensDecide(s: string)
    ensures Accepts(Tokens(s)) <==> IsEscape(s)
  {
    hide Tokens, Token, Rest, CallFrom, Mark, ProcedureWord, InnerFrom, Inner;
    assert s[0..] == s;
    TokensFrom(s, 0); TokensFrom(s, 1); TokensFrom(s, 2);
    CallFromToken(s, 0);
    MarkIsToken(s, 0, '{');
    if Token(s) == "{" {
      var b: nat :| Mark(s, 0, '{', b);
      assert b <= |s| by { MarkEnds(s, 0, '{', b); }
      InnerDecides(s, b);
      assert Inner(Tokens(s[b..]), 0) <==> Inner(Tokens(s), 1) by {
        InnerShifted(s);
      }
    }
  }

  lemma InnerShifted(s: string)
    ensures Inner(Tokens(Rest(s)), 0) <==> Inner(Tokens(s), 1)
  {
    hide Tokens, Rest, ProcedureWord;
    TokensFrom(s, 0); TokensFrom(s, 1); TokensFrom(s, 2);
  }

  /** `Inner` on the tokens of a text, without the token list. */
  predicate InnerText(x: string)
  {
    if Token(x) == "?" then Token(Rest(x)) == "=" && ProcedureWord(Token(Rest(Rest(x))))
    else ProcedureWord(Token(x))
  }

  lemma InnerOfTokens(x: string)
    ensures Inner(Tokens(x), 0) <==> InnerText(x)
  {
    hide Tokens, Token, Rest, ProcedureWord, Nth;
    TokensFrom(x, 0); TokensFrom(x, 1);
    TokensFrom(Rest(x), 0); TokensFrom(Rest(Rest(x)), 0);
  }

  lemma InnerTextIsGrammar(s: string, b: nat)
    requires b <= |s| && InnerText(s[b..])
    ensures InnerFrom(s, b)
  {
    hide Token, Rest, CallFrom, Mark, ProcedureWord;
    CallFromToken(s, b);
    MarkIsToken(s, b, '?');
    if Token(s[b..]) == "?" {
      var q: nat :| Mark(s, b, '?', q);
      MarkEnds(s, b, '?', q);
      MarkIsToken(s, q, '=');
      var e: nat :| Mark(s, q, '=', e);
      MarkEnds(s, q, '=', e);
      CallFromToken(s, e);
    }
  }

  lemma GrammarIsInnerText(s: string, b: nat, q: nat, e: nat)
    requires Mark(s, b, '?', q) && Mark(s, q, '=', e) && CallFrom(s, e)
    ensures InnerText(s[b..])
  {
    hide Token, Rest, CallFrom, Mark, ProcedureWord;
    MarkEnds(s, b, '?', q);
    MarkEnds(s, q, '=', e);
    MarkIsToken(s, b, '?');
    MarkIsToken(s, q, '=');
    CallFromToken(s, e);
  }

  /** Inside the brace. */
  lemma InnerDecides(s: string, b: nat)
    requires b <= |s|
    ensures Inner(Tokens(s[b..]), 0) <==> InnerFrom(s, b)
  {
    hide Tokens, Token, Rest, CallFrom, Mark, ProcedureWord, Inner;
    InnerOfTokens(s[b..]);
    if InnerText(s[b..]) {
      InnerTextIsGrammar(s, b);
    } else {
      CallFromToken(s, b);
      WordIsNoMark();
      forall q: nat, e: nat | Mark(s, b, '?', q) && Mark(s, q, '=', e) ensures !CallFrom(s, e) {
        if CallFrom(s, e) {
          GrammarIsInnerText(s, b, q, e);
        }
      }
    }
  }

  // ----- layout between tokens -------------------------------------------------------------

  lemma BlankPrefix(w: string, s: string)
    requires Blank(w)
    ensures Tokens(w + s) == Tokens(s)
  {
    hide Skip;
    SkipBlank(w, s);
  }

  /** What follows a token's end cannot change it. */
  lemma TokenSettled(a: string, x: string)
    requires Skip(a) != ""
    requires Width(Skip(a)) < |Skip(a)| || !Ident(Skip(a)[0]) || x == "" || !Ident(x[0])
    ensures Skip(a + x) != "" && Token(a + x) == Token(a) && Rest(a + x) == Rest(a) + x
  {
    hide Skip, Width;
    var t := Skip(a);
    var m := Width(t);
    SkipThrough(a, x);
    WidthSettled(t, x);
    assert (t + x)[..m] == t[..m];
    assert (t + x)[m..] == t[m..] + x;
  }

  lemma SkipThrough(a: string, x: string)
    requires Skip(a) != ""
    ensures Skip(a + x) == Skip(a) + x
  {
    hide Skip, Blank, White;
    var t := Skip(a);
    var n := |a| - |t|;
    var w := a[..n];
    SkippedIsBlank(a);
    assert a == w + t;
    assert (w + t) + x == w + (t + x);
    SkipSplit(w, t + x) by { assert !White(t[0]); }
  }

  lemma WidthSettled(t: string, x: string)
    requires t != "" && (Width(t) < |t| || !Ident(t[0]) || x == "" || !Ident(x[0]))
    ensures Width(t + x) == Width(t)
  {
    hide Extent, Ident;
    if Ident(t[0]) {
      var m := Extent(t);
      assert t + x == t[..m] + (t[m..] + x);
      ExtentOf(t[..m], t[m..] + x);
    }
  }

  lemma RestIsTail(a: string)
    ensures Rest(a) != "" ==> Rest(a)[|Rest(a)| - 1] == a[|a| - 1]
  {
    hide Skip;
  }

  /** Blanks, tabs or newlines put anywhere but inside an alphanumeric run leave the tokens alone. */
  lemma {:induction false} LayoutKeepsTokens(a: string, w: string, b: string)
    requires Blank(w)
    requires a == "" || b == "" || !Ident(a[|a| - 1]) || !Ident(b[0])
    ensures Tokens(a + w + b) == Tokens(a + b)
    decreases |a|
  {
    hide Skip, Extent, Token, Rest;
    assert a + w + b == a + (w + b);
    if Skip(a) == "" {
      SkippedIsBlank(a);
      assert a[..|a|] == a;
      BlankPrefix(a, w + b);
      BlankPrefix(a, b);
      BlankPrefix(w, b);
    } else if w == "" {
      assert w + b == b;
    } else {
      var t, r := Skip(a), Rest(a);
      assert White(w[0]);
      if Width(t) == |t| && Ident(t[0]) {
        assert a[|a| - 1] == t[|t| - 1];
        assert Ident(t[|t| - 1]);
      }
      TokenSettled(a, w + b);
      TokenSettled(a, b);
      RestIsTail(a);
      assert r + w + b == r + (w + b);
      LayoutKeepsTokens(r, w, b);
    }
  }

  /** So layout never changes the answer. */
  lemma LayoutIsIrrelevant(a: string, w: string, b: string)
    requires Blank(w)
    requires a == "" || b == "" || !Ident(a[|a| - 1]) || !Ident(b[0])
    ensures IsEscape(a + w + b) <==> IsEscape(a + b)
  {
    LayoutKeepsTokens(a, w, b);
    TokensDecide(a + w + b);
    TokensDecide(a + b);
  }

  // ----- the code -----------------------------------------------------------------------------

  /** SKIP_WHITE. */
  method SkipWhite(s: string, p: nat) returns (p': nat)
    requires p <= |s|
    ensures p <= p' <= |s| && s[p'..] == Skip(s[p..])
  {
    p' := p;
    while p' < |s| && White(s[p'])
      invariant p <= p' <= |s| && Skip(s[p..]) == Skip(s[p'..])
    {
      ghost var rest := s[p'..];
      assert rest[0] == s[p'] && rest[1..] == s[p' + 1..];
      p' := p' + 1;
    }
  }

  /** The inner loop of `getToken`: the rest of an alphanumeric run. */
  method CopyRun(s: string, at: nat, token: array<char>) returns (p: nat, q: nat)
    requires at < |s| && Ident(s[at]) && Extent(s[at..]) < token.Length && token[0] == s[at]
    modifies token
    ensures q == Extent(s[at..]) && p == at + q <= |s| && token[..q] == s[at..][..q]
  {
    hide Ident;
    ghost var t := s[at..];
    assert t[0] == s[at] && Extent(t) > 0;
    p, q := at + 1, 1;
    while p < |s| && Ident(s[p])
      invariant 0 < q <= Extent(t) < token.Length && p == at + q <= |s|
      invariant token[..q] == t[..q]
    {
      assert s[p] == t[q];
      assert q != Extent(t);
      token[q] := s[p];
      q, p := q + 1, p + 1;
    }
    assert q < |t| ==> t[q] == s[p];
  }

  /** `getToken`: skips blanks, then copies one token into the buffer and terminates it. */
  method GetToken(s: string, p: nat, token: array<char>) returns (p': nat, q: nat)
    requires p <= |s| && Ascii(s) && |Token(s[p..])| < token.Length
    modifies token
    ensures p <= p' <= |s| && s[p'..] == Rest(s[p..])
    ensures q < token.Length && token[..q] == Token(s[p..]) && token[q] == C.NUL
  {
    hide Skip, Extent, Ascii, White, Ident;
    p' := SkipWhite(s, p);
    q := 0;
    ghost var t := s[p'..];
    if p' < |s| {
      var c := s[p'];
      token[q] := c;
      if Ident(c) {
        p', q := CopyRun(s, p', token);
      } else {
        q, p' := 1, p' + 1;
      }
    }
    assert q == Width(t) && token[..q] == t[..q];
    token[q] := C.NUL;
    assert s[p'..] == t[q..];
  }

  /** The tokens the recogniser reads fit its buffer. */
  predicate FitsBuffer(s: string)
  {
    forall k :: 0 <= k < Looked(Tokens(s)) ==> |Nth(Tokens(s), k)| < 128
  }

  /** What the recogniser needs of the tokens, one read at a time. */
  lemma ReadingTokens(s: string)
    ensures IsEscape(s) <==> ProcedureWord(Token(s)) || (Token(s) == "{" && InnerText(Rest(s)))
  {
    hide Tokens, Token, Rest, IsEscape, ProcedureWord, Inner, InnerText, Nth;
    TokensDecide(s);
    TokensFrom(s, 0);
    InnerShifted(s);
    InnerOfTokens(Rest(s));
  }

  /** The tokens read fit the buffer, each in its turn. */
  lemma RoomForTokens(s: string)
    requires FitsBuffer(s)
    ensures var x := Rest(s);
      && |Token(s)| < 128
      && (Token(s) == "{" ==>
          && |Token(x)| < 128
          && (Token(x) == "?" ==>
              && |Token(Rest(x))| < 128
              && (Token(Rest(x)) == "=" ==> |Token(Rest(Rest(x)))| < 128)))
  {
    hide Tokens, Token, Rest, Nth;
    var x := Rest(s);
    TokensFrom(s, 0); TokensFrom(s, 1); TokensFrom(s, 2);
    TokensFrom(x, 0); TokensFrom(x, 1);
    TokensFrom(Rest(x), 0); TokensFrom(Rest(Rest(x)), 0);
    var ts := Tokens(s);
    assert |Nth(ts, 0)| < 128;
    assert Nth(ts, 0) == "{" ==> |Nth(ts, 1)| < 128;
    assert Nth(ts, 0) == "{" && Nth(ts, 1) == "?" ==> |Nth(ts, 2)| < 128;
  }

  /** `isStoredProcedureEscape` decides the grammar. */
  method IsStoredProcedureEscape(s: string) returns (r: bool)
    requires Ascii(s) && FitsBuffer(s)
    ensures r <==> IsEscape(s)
  {
    hide Token, Rest, IsEscape, ProcedureWord, Ascii, FitsBuffer;
    hide Skip, Extent, Width, White, Ident, Tokens, Nth, Looked, Inner;
    ReadingTokens(s);
    RoomForTokens(s);
    var token := new char[128];
    assert s[0..] == s;
    var p, q := GetToken(s, 0, token);
    MarkToken(s, token, q, '{');
    if ProcedureWord(token[..q]) {
      return true;
    }
    if token[0] != '{' {
      return false;
    }
    ghost var x := s[p..];
    p, q := GetToken(s, p, token);
    MarkToken(x, token, q, '?');
    if token[0] == '?' {
      ghost var y := s[p..];
      p, q := GetToken(s, p, token);
      MarkToken(y, token, q, '=');
      if token[0] != '=' {
        return false;
      }
      p, q := GetToken(s, p, token);
    }
    return ProcedureWord(token[..q]);
  }

  /** The first character of the buffer tells whether the token is the mark `c`. */
  lemma MarkToken(s: string, token: array<char>, q: nat, c: char)
    requires q < token.Length && token[..q] == Token(s) && token[q] == C.NUL
    requires c in {'{', '?', '='}
    ensures token[0] == c <==> Token(s) == [c]
  {
    hide Skip, Extent;
    if q > 0 {
      assert token[..q][0] == token[0];
    }
  }
}

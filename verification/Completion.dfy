/** What the Tab key does to the line. */
module Completion {
  import opened Bytes
  import opened EditLine
  import opened Completer

  /** The environment to complete in, when the caller of the line getter gave one. */
  datatype Scope = NoScope | InScope(env: Env)

  ghost predicate PrintableScope(scope: Scope) {
    scope.InScope? ==>
      var c := Candidates(scope.env);
      forall i | 0 <= i < |c| :: Printable(c[i])
  }

  /** The candidates are C strings. */
  ghost predicate NulFreeScope(scope: Scope) {
    scope.InScope? ==> AllNulFree(Candidates(scope.env))
  }

  ghost predicate SymbolicScope(scope: Scope) {
    scope.InScope? ==>
      var c := Candidates(scope.env);
      forall i | 0 <= i < |c| :: Symbolic(c[i])
  }

  /** The bytes of `s` from `i` on, typed one by one; what does not fit in the buffer is dropped. */
  function InsertFrom(z: Zipper, s: Text, i: nat): Zipper
    decreases |s| - i
  {
    if i >= |s| then z else InsertFrom(z.Insert(s[i]), s, i + 1)
  }

  /** The matches that Tab keeps for the symbol that ends at the cursor of `z`. */
  function MatchesAt(z: Zipper, env: Env): seq<Text> {
    if z.Prefix() == [] then [] else Kept(z.Prefix(), Candidates(env))
  }

  /** The line after Tab: two spaces without an environment; else the cursor leaves the symbol, and the
      common prefix of the kept matches is typed to its end. */
  function Complete(z: Zipper, scope: Scope): Zipper {
    match scope
    case NoScope => z.Insert(SPACE).Insert(SPACE)
    case InScope(env) =>
      var at := z.PastSymbol();
      var m := MatchesAt(at, env);
      if m == [] then at else InsertFrom(at, Lcp(m), |at.Prefix()|)
  }

  // ---------- Lemmas ----------

  lemma {:induction false} InsertFromIs(z: Zipper, s: Text, i: nat)
    requires i <= |s| && |z.Content()| < LINE_MAX
    ensures var room := LINE_MAX - 1 - |z.Content()|;
            var k := if |s| - i <= room then |s| - i else room;
            InsertFrom(z, s, i) == Zipper(z.left + s[i..i + k], z.right)
    decreases |s| - i
  {
    if i < |s| {
      InsertFromIs(z.Insert(s[i]), s, i + 1);
      var room := LINE_MAX - 1 - |z.Content()|;
      if room > 0 {
        var k := if |s| - i <= room then |s| - i else room;
        SliceHead(s, i, i + k);
        assert z.left + ([s[i]] + s[i + 1..i + k]) == z.left + [s[i]] + s[i + 1..i + k];
      }
    }
  }

  lemma SliceHead(s: Text, i: nat, j: nat)
    requires i < j <= |s|
    ensures s[i..j] == [s[i]] + s[i + 1..j]
  {
  }

  lemma {:induction false} SymbolStartOfAppend(left: Text, s: Text, n: nat)
    requires |left| <= n <= |left| + |s| && Symbolic(s)
    ensures SymbolStart(left + s, n) == SymbolStart(left, |left|)
  {
    if n > |left| {
      assert (left + s)[n - 1] == s[n - 1 - |left|];
      SymbolStartOfAppend(left, s, n - 1);
    } else {
      SymbolStartOfPrefix(left, s, |left|);
    }
  }

  lemma {:induction false} SymbolStartOfPrefix(left: Text, s: Text, n: nat)
    requires n <= |left|
    ensures SymbolStart(left + s, n) == SymbolStart(left, n)
  {
    if n > 0 {
      SymbolStartOfPrefix(left, s, n - 1);
    }
  }

  /** Leaving a symbol changes no byte, and leaves the cursor where no symbol goes on. */
  lemma PastSymbolIs(z: Zipper)
    ensures var at := z.PastSymbol();
            && at.Content() == z.Content()
            && z.left <= at.left
            && Symbolic(at.left[|z.left|..])
            && (at.right == [] || !IsSymbolChar(at.right[0]))
  {
    SymbolEndIsMaximal(|z.left|, z.Content());
    var k := SymbolEnd(|z.left|, z.Content());
    assert z.Content()[..k][|z.left|..] == z.Content()[|z.left|..k];
  }

  lemma StaysPut(z: Zipper)
    requires z.right == [] || !IsSymbolChar(z.right[0])
    ensures z.PastSymbol() == z
  {
    assert z.Goto(|z.left|) == z;
  }

  /** The symbol at the end of a text is a maximal run of symbol characters. */
  lemma SymbolSplits(text: Text)
    ensures text == BeforeSymbol(text) + LastSymbol(text)
    ensures Symbolic(LastSymbol(text))
    ensures var before := BeforeSymbol(text); before == [] || !IsSymbolChar(before[|before| - 1])
  {
    SymbolStartIsMaximal(text, |text|);
  }

  lemma LcpExtendsPrefix(p: Text, c: seq<Text>)
    requires Kept(p, c) != []
    ensures p <= Lcp(Kept(p, c))
    ensures forall i | 0 <= i < |Kept(p, c)| :: Lcp(Kept(p, c)) <= Kept(p, c)[i]
  {
    var m := Kept(p, c);
    forall i | 0 <= i < |m| ensures p <= m[i] {
      KeptMembers(p, c, i);
    }
    LcpIsLongest(m, p);
    LcpIsLongest(m, Lcp(m));
  }

  /** What the typing of the rest of the common prefix adds: all of it when there is room, and otherwise
      what fills the line. */
  lemma Typing(at: Zipper, p: Text, lcp: Text) returns (typed: Text)
    requires |at.Content()| < LINE_MAX && p <= lcp
    ensures InsertFrom(at, lcp, |p|) == Zipper(at.left + typed, at.right)
    ensures p + typed <= lcp
    ensures |at.Content()| + |typed| < LINE_MAX
    ensures p + typed == lcp || |at.Content()| + |typed| == LINE_MAX - 1
    ensures |at.Content()| - |p| + |lcp| < LINE_MAX ==> p + typed == lcp
  {
    InsertFromIs(at, lcp, |p|);
    var room := LINE_MAX - 1 - |at.Content()|;
    var k := if |lcp| - |p| <= room then |lcp| - |p| else room;
    typed := lcp[|p|..|p| + k];
    assert p == lcp[..|p|];
    assert p + typed == lcp[..|p| + k];
  }

  /** With an environment, a match, and room in the line, Tab turns the symbol around the cursor into the
      longest common prefix of the kept matches, puts the cursor behind it, and alters no other byte. */
  lemma CompleteReplacesSymbol(z: Zipper, env: Env)
    requires z.Valid()
    ensures var at := z.PastSymbol();
            var m := MatchesAt(at, env);
            m != [] && |z.Content()| - |at.Prefix()| + |Lcp(m)| < LINE_MAX ==>
              var start := |at.left| - |at.Prefix()|;
              var r := Complete(z, InScope(env));
              && r.left == z.Content()[..start] + Lcp(m)
              && r.right == z.Content()[|at.left|..]
              && z.Content()[start..|at.left|] == at.Prefix()
  {
    PastSymbolIs(z);
    var at := z.PastSymbol();
    var m := MatchesAt(at, env);
    if m != [] && |z.Content()| - |at.Prefix()| + |Lcp(m)| < LINE_MAX {
      var p, lcp := at.Prefix(), Lcp(m);
      LcpExtendsPrefix(p, Candidates(env));
      var typed := Typing(at, p, lcp);
      Around(z, at, p, typed, lcp);
    }
  }

  lemma Around(z: Zipper, at: Zipper, p: Text, typed: Text, lcp: Text)
    requires at.Content() == z.Content() && p == at.Prefix() && lcp == p + typed
    ensures var start := |at.left| - |p|;
            && 0 <= start
            && at.left + typed == z.Content()[..start] + lcp
            && at.right == z.Content()[|at.left|..]
            && z.Content()[start..|at.left|] == p
  {
    var before := BeforeSymbol(at.left);
    SymbolSplits(at.left);
    Regrouped(before, p, typed);
    Parts(before, p, at.right);
  }

  lemma Parts(a: Text, b: Text, c: Text)
    ensures var s, n := a + b + c, |a + b|;
            n == |a| + |b| && s[..|a|] == a && s[|a|..n] == b && s[n..] == c
  {
    var s := a + b + c;
    SplitAt(a + b, c);
    assert s[..|a|] == a;
    assert s[|a|..|a + b|] == b;
  }

  lemma SplitAt(a: Text, b: Text)
    ensures (a + b)[..|a|] == a && (a + b)[|a|..] == b
  {
  }

  lemma Regrouped(a: Text, b: Text, c: Text)
    ensures a + b + c == a + (b + c)
  {
  }

  /** When Tab changes nothing at a cursor that stands in front of no symbol: without matches, with nothing
      to add to the symbol, or in a full line. */
  lemma CompleteStaysExactly(r: Zipper, env: Env)
    requires |r.Content()| < LINE_MAX && r.PastSymbol() == r
    ensures Complete(r, InScope(env)) == r <==>
            || MatchesAt(r, env) == []
            || Lcp(MatchesAt(r, env)) == r.Prefix()
            || |r.Content()| == LINE_MAX - 1
  {
    var m, p := MatchesAt(r, env), r.Prefix();
    if m != [] {
      LcpExtendsPrefix(p, Candidates(env));
      var typed := Typing(r, p, Lcp(m));
      assert r.left + typed == r.left ==> typed == [];
      assert p + [] == p;
      assert r.left + [] == r.left;
      assert Lcp(m) == p ==> |typed| == 0;
    }
  }

  /** The symbol at the end of a line whose last symbol was completed. */
  lemma TailOfCompleted(before: Text, lcp: Text)
    requires before == [] || !IsSymbolChar(before[|before| - 1])
    ensures LastSymbol(before + lcp) == LastSymbol(lcp)
  {
    var k := SymbolStart(lcp, |lcp|);
    SymbolStartBehind(before, lcp, |lcp|);
    SliceOfSecond(before, lcp, k);
  }

  lemma SliceOfSecond(a: Text, b: Text, k: nat)
    requires k <= |b|
    ensures (a + b)[|a| + k..] == b[k..]
  {
  }

  lemma {:induction false} SymbolStartBehind(left: Text, s: Text, n: nat)
    requires n <= |s| && (left == [] || !IsSymbolChar(left[|left| - 1]))
    ensures SymbolStart(left + s, |left| + n) == |left| + SymbolStart(s, n)
  {
    if n > 0 {
      assert (left + s)[|left| + n - 1] == s[n - 1];
      SymbolStartBehind(left, s, n - 1);
    }
  }

  /** A line that is full after Tab, and one whose whole completion was typed. */
  lemma CompletedIs(z: Zipper, env: Env)
    requires z.Valid() && MatchesAt(z.PastSymbol(), env) != []
    ensures var at := z.PastSymbol();
            var p, lcp := at.Prefix(), Lcp(MatchesAt(at, env));
            var once := Complete(z, InScope(env));
            && |once.Content()| < LINE_MAX && once.PastSymbol() == once
            && if |z.Content()| - |p| + |lcp| >= LINE_MAX - 1 then |once.Content()| == LINE_MAX - 1
               else |once.Content()| == |z.Content()| - |p| + |lcp| && once.Prefix() == LastSymbol(lcp)
  {
    PastSymbolIs(z);
    var at := z.PastSymbol();
    var p, lcp := at.Prefix(), Lcp(MatchesAt(at, env));
    LcpExtendsPrefix(p, Candidates(env));
    var typed := Typing(at, p, lcp);
    var once := Zipper(at.left + typed, at.right);
    StaysPut(once);
    assert |once.Content()| == |at.Content()| + |typed|;
    if |at.Content()| - |p| + |lcp| < LINE_MAX - 1 {
      CompletedPrefix(at, p, typed, lcp);
    } else {
      assert p + typed == lcp ==> |p| + |typed| == |lcp|;
    }
  }

  lemma CompletedPrefix(at: Zipper, p: Text, typed: Text, lcp: Text)
    requires p == at.Prefix() && p + typed == lcp
    ensures LastSymbol(at.left + typed) == LastSymbol(lcp)
    ensures |p| + |typed| == |lcp|
  {
    var before := BeforeSymbol(at.left);
    SymbolSplits(at.left);
    Regrouped(before, p, typed);
    TailOfCompleted(before, lcp);
  }

  /** Exactly when a second Tab changes nothing: without a match, when the line is full, or when nothing can
      be added to the symbol that the completed line ends in before the cursor. That symbol is the whole
      completion when it consists of symbol characters. */
  lemma SecondTabExactly(z: Zipper, env: Env)
    requires z.Valid()
    ensures var m := MatchesAt(z.PastSymbol(), env);
            var once := Complete(z, InScope(env));
            if m == [] then Complete(once, InScope(env)) == once
            else
              var lcp, q := Lcp(m), LastSymbol(Lcp(m));
              var again := Kept(q, Candidates(env));
              Complete(once, InScope(env)) == once <==>
              || |z.Content()| - |z.PastSymbol().Prefix()| + |lcp| >= LINE_MAX - 1
              || Symbolic(lcp)
              || q == []
              || again == []
              || Lcp(again) == q
  {
    PastSymbolIs(z);
    var at := z.PastSymbol();
    var m := MatchesAt(at, env);
    if m == [] {
      StaysPut(at);
    } else {
      CompletedIs(z, env);
      CompleteStaysExactly(Complete(z, InScope(env)), env);
      if Symbolic(Lcp(m)) {
        SymbolicIsLastSymbol(Lcp(m));
        SameAgain(at.Prefix(), Candidates(env));
      }
    }
  }

  lemma SymbolicIsLastSymbol(s: Text)
    requires Symbolic(s)
    ensures LastSymbol(s) == s
  {
    SymbolStartOfAppend([], s, |s|);
    assert [] + s == s;
  }

  /** A search for the common prefix of the matches keeps the same matches. */
  lemma SameAgain(p: Text, c: seq<Text>)
    requires Kept(p, c) != []
    ensures Kept(Lcp(Kept(p, c)), c) == Kept(p, c)
  {
    LcpExtendsPrefix(p, c);
    KeptOfLongerPrefix(p, Lcp(Kept(p, c)), c);
  }

  /** Tab is a fixed point after one press: however many candidates were dropped, and whether or not the
      whole prefix fitted in the line, a second Tab changes neither the text nor the cursor, when what is
      typed consists of symbol characters. */
  lemma CompleteTwice(z: Zipper, env: Env)
    requires z.Valid()
    requires var m := MatchesAt(z.PastSymbol(), env); m != [] ==> Symbolic(Lcp(m))
    ensures Complete(Complete(z, InScope(env)), InScope(env)) == Complete(z, InScope(env))
  {
    SecondTabExactly(z, env);
  }

  /** A scope whose symbols are `a z` and `zq`: the first has a character no symbol has. */
  function SpacedScope(): Env {
    [[Symbol([97, 32, 122]), Symbol([122, 113])]]
  }

  /** A line on which the second Tab does change: a candidate `a z` completes `a` to `a z`, where the symbol is now `z`, and a
      second Tab completes that to `zq`. */
  lemma CompleteTwiceCanDiffer()
    ensures var once := Complete(Zipper([97], []), InScope(SpacedScope()));
            && once == Zipper([97, 32, 122], [])
            && Complete(once, InScope(SpacedScope())) == Zipper([97, 32, 122, 113], [])
  {
    SpacedPrefixes();
    SpacedMatch([97], [97, 32, 122], 0);
    SpacedMatch([122], [122, 113], 1);
    TypeOnly(Zipper([97], []), [97], [97, 32, 122], SpacedScope());
    TypeOnly(Zipper([97, 32, 122], []), [122], [122, 113], SpacedScope());
  }

  lemma SpacedPrefixes()
    ensures Zipper([97], []).Prefix() == [97] && Zipper([97, 32, 122], []).Prefix() == [122]
  {
    var az: Text := [97, 32, 122];
    assert SymbolStart([97], 1) == 0;
    assert SymbolStart(az, 2) == 2 && SymbolStart(az, 3) == 2;
    assert az[2..] == [122];
  }

  /** In that scope, a candidate is alone in starting with its first character. */
  lemma SpacedMatch(p: Text, x: Text, k: nat)
    requires (k == 0 && p == [97] && x == [97, 32, 122]) || (k == 1 && p == [122] && x == [122, 113])
    ensures var m := Kept(p, Candidates(SpacedScope())); m != [] && Lcp(m) == x
  {
    var c := Candidates(SpacedScope());
    SpacedFirsts(c);
    assert p <= x;
    forall i | 0 <= i < |c| && p <= c[i] ensures c[i] == x {
      assert c[i][0] == p[0];
    }
    OnlyMatch(p, x, c, k);
  }

  lemma SpacedFirsts(c: seq<Text>)
    requires c == Candidates(SpacedScope())
    ensures |c| == 14 && c[0] == [97, 32, 122] && c[1] == [122, 113]
    ensures forall i | 2 <= i < |c| :: c[i] != [] && c[i][0] != 97 && c[i][0] != 122
  {
    SpacedCandidates();
    SpecialsStart();
    assert forall i | 2 <= i < |c| :: c[i] == Specials()[i - 2];
  }

  lemma SpacedCandidates()
    ensures Candidates(SpacedScope()) == [[97, 32, 122], [122, 113]] + Specials()
  {
    var table := SpacedScope()[0];
    NamesSnoc(table, 0);
    NamesSnoc(table, 1);
    assert table[..0] == [] && table[..2] == table && SpacedScope()[..0] == [];
    assert Names(table) == [[97, 32, 122], [122, 113]];
    assert AllNames(SpacedScope()) == Names(table);
  }

  /** No special form starts with `a` or `z`. */
  lemma SpecialsStart()
    ensures forall i | 0 <= i < 12 :: Specials()[i] != [] && Specials()[i][0] != 97 && Specials()[i][0] != 122
  {
    var s := Specials();
    assert s[0][0] == 98 && s[1][0] == 100 && s[2][0] == 100 && s[3][0] == 102 && s[4][0] == 105 && s[5][0] == 113;
    assert s[6][0] == 113 && s[7][0] == 115 && s[8][0] == 115 && s[9][0] == 117 && s[10][0] == 118 && s[11][0] == 119;
  }

  /** A candidate that is alone in starting with the prefix is the common prefix of the matches. */
  lemma OnlyMatch(p: Text, x: Text, c: seq<Text>, k: nat)
    requires k < |c| && c[k] == x && p <= x
    requires forall i | 0 <= i < |c| && p <= c[i] :: c[i] == x
    ensures Kept(p, c) != [] && Lcp(Kept(p, c)) == x
  {
    var m := Kept(p, c);
    FilterMembers(c, p, x);
    assert Filter(c, p) != [];
    forall i | 0 <= i < |m| ensures m[i] == x {
      KeptMembers(p, c, i);
    }
    LcpIsLongest(m, x);
    LcpIsLongest(m, Lcp(m));
  }

  lemma TypeOnly(z: Zipper, p: Text, x: Text, env: Env)
    requires z.right == [] && z.Prefix() == p != [] && p <= x && |z.left| + |x| < LINE_MAX
    requires Kept(p, Candidates(env)) != [] && Lcp(Kept(p, Candidates(env))) == x
    ensures Complete(z, InScope(env)) == Zipper(z.left + x[|p|..], [])
  {
    StaysPut(z);
    InsertFromIs(z, x, |p|);
    assert x[|p|..|x|] == x[|p|..];
  }

  /** The candidates of a scope whose symbols consist of symbol characters meet the condition above. */
  lemma SymbolicScopeSuffices(z: Zipper, env: Env)
    requires SymbolicScope(InScope(env))
    ensures var m := MatchesAt(z, env); m != [] ==> Symbolic(Lcp(m))
  {
    var m := MatchesAt(z, env);
    if m != [] {
      KeptMembers(z.Prefix(), Candidates(env), 0);
      LcpExtendsPrefix(z.Prefix(), Candidates(env));
      assert Lcp(m) <= m[0] && Symbolic(m[0]);
      assert forall i | 0 <= i < |Lcp(m)| :: Lcp(m)[i] == m[0][i];
    }
  }

  lemma LcpIsPrintable(z: Zipper, env: Env)
    requires PrintableScope(InScope(env))
    ensures var m := MatchesAt(z, env); m != [] ==> Printable(Lcp(m))
  {
    var m := MatchesAt(z, env);
    if m != [] {
      KeptMembers(z.Prefix(), Candidates(env), 0);
      LcpExtendsPrefix(z.Prefix(), Candidates(env));
      assert Lcp(m) <= m[0] && Printable(m[0]);
      assert forall i | 0 <= i < |Lcp(m)| :: Lcp(m)[i] == m[0][i];
    }
  }

  lemma LcpIsNulFree(z: Zipper, env: Env)
    requires NulFreeScope(InScope(env))
    ensures var m := MatchesAt(z, env); m != [] ==> NulFree(Lcp(m))
  {
    var m := MatchesAt(z, env);
    if m != [] {
      KeptMembers(z.Prefix(), Candidates(env), 0);
      LcpExtendsPrefix(z.Prefix(), Candidates(env));
      assert Lcp(m) <= m[0] && NulFree(m[0]);
      assert forall i | 0 <= i < |Lcp(m)| :: Lcp(m)[i] == m[0][i];
    }
  }

  lemma CompleteIsValid(z: Zipper, scope: Scope)
    requires z.Valid() && NulFreeScope(scope)
    ensures Complete(z, scope).Valid()
  {
    match scope
    case NoScope =>
      InsertIsValid(z, SPACE);
      InsertIsValid(z.Insert(SPACE), SPACE);
    case InScope(env) =>
      PastSymbolIs(z);
      var at := z.PastSymbol();
      GotoIsValid(z, |at.left|);
      var m := MatchesAt(at, env);
      if m != [] {
        LcpIsNulFree(at, env);
        LcpExtendsPrefix(at.Prefix(), Candidates(env));
        InsertFromIs(at, Lcp(m), |at.Prefix()|);
      }
  }

  /** Names without control bytes bring none into the line. */
  lemma CompleteIsPlain(z: Zipper, scope: Scope)
    requires z.Valid() && z.Plain() && PrintableScope(scope)
    ensures Complete(z, scope).Plain()
  {
    if scope.InScope? {
      PastSymbolIs(z);
      var at := z.PastSymbol();
      GotoIsPlain(z, |at.left|);
      var m := MatchesAt(at, scope.env);
      if m != [] {
        LcpIsPrintable(at, scope.env);
        LcpExtendsPrefix(at.Prefix(), Candidates(scope.env));
        InsertFromIs(at, Lcp(m), |at.Prefix()|);
      }
    }
  }

  lemma GotoIsPlain(z: Zipper, n: nat)
    requires z.Plain() && n <= |z.Content()|
    ensures z.Goto(n).Plain()
  {
  }

  lemma GotoIsValid(z: Zipper, n: nat)
    requires z.Valid() && n <= |z.Content()|
    ensures z.Goto(n).Valid()
  {
  }
}

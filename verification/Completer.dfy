/** Symbol completion: collecting the 256 smallest candidates and their longest common prefix. */
module Completer {
  import opened Bytes

  const MATCH_MAX := 256

  // ---------- Candidates ----------

  /** A hash-table slot of an environment: its key is a symbol, or something else (or nothing). */
  datatype Slot = Symbol(name: Text) | Other

  type Table = seq<Slot>

  /** An environment and its chain of prototypes, in the order they are searched. */
  type Env = seq<Table>

  function Ascii(s: string): (r: Text)
    requires forall i | 0 <= i < |s| :: s[i] < 128 as char
    ensures |r| == |s|
    ensures forall i | 0 <= i < |s| :: r[i] as int == s[i] as int
  {
    seq(|s|, i requires 0 <= i < |s| => s[i] as int as byte)
  }

  function Specials(): (r: seq<Text>)
    ensures |r| == 12
  {
    [Ascii("break"), Ascii("def"), Ascii("do"), Ascii("fn"), Ascii("if"), Ascii("quasiquote"),
     Ascii("quote"), Ascii("set"), Ascii("splice"), Ascii("unquote"), Ascii("var"), Ascii("while")]
  }

  function Names(t: Table): seq<Text> {
    if t == [] then []
    else
      var before := Names(t[..|t| - 1]);
      match t[|t| - 1] case Symbol(name) => before + [name] case Other => before
  }

  function AllNames(env: Env): seq<Text> {
    if env == [] then [] else AllNames(env[..|env| - 1]) + Names(env[|env| - 1])
  }

  /** Everything that Tab offers: the symbols of the environment chain, then the special forms. */
  function Candidates(env: Env): seq<Text> {
    AllNames(env) + Specials()
  }

  ghost predicate AllNulFree(c: seq<Text>) {
    forall i | 0 <= i < |c| :: NulFree(c[i])
  }

  function Filter(c: seq<Text>, prefix: Text): seq<Text> {
    if c == [] then []
    else
      var before := Filter(c[..|c| - 1], prefix);
      if prefix <= c[|c| - 1] then before + [c[|c| - 1]] else before
  }

  // ---------- The order ----------

  /** `strncmp` on strings that are at least `n` bytes long: it stops at a NUL. */
  function Strncmp(a: Text, b: Text, n: nat): int
    requires n <= |a| && n <= |b|
  {
    if n == 0 then 0
    else if a[0] != b[0] then a[0] as int - b[0] as int
    else if a[0] == 0 then 0
    else Strncmp(a[1..], b[1..], n - 1)
  }

  function CompareBytes(a: Text, b: Text): int {
    var minlen := if |a| < |b| then |a| else |b|;
    var result := Strncmp(a, b, minlen);
    if result != 0 then result else if |a| < |b| then -1 else if |a| > |b| then 1 else 0
  }

  predicate Le(a: Text, b: Text) {
    CompareBytes(a, b) <= 0
  }

  /** On all byte strings the comparison is antisymmetric in sign, and 0 exactly when the lengths agree
      and so do the bytes up to the first NUL; on NUL-free strings that is equality. */
  lemma {:induction false} CompareIsTotal(a: Text, b: Text)
    ensures CompareBytes(a, b) < 0 <==> CompareBytes(b, a) > 0
    ensures CompareBytes(a, b) == 0 <==> |a| == |b| && Strncmp(a, b, |a|) == 0
    ensures CompareBytes(a, b) == 0 <==> CompareBytes(b, a) == 0
    ensures NulFree(a) && CompareBytes(a, b) == 0 ==> a == b
    decreases |a|
  {
    if a != [] && b != [] && a[0] == b[0] != 0 {
      CompareTails(a, b);
      CompareTails(b, a);
      CompareIsTotal(a[1..], b[1..]);
      assert a == [a[0]] + a[1..] && b == [b[0]] + b[1..];
    }
  }

  lemma CompareTails(a: Text, b: Text)
    requires a != [] && b != [] && a[0] == b[0] != 0
    ensures CompareBytes(a, b) == CompareBytes(a[1..], b[1..])
  {
  }

  lemma {:induction false} LeIsTransitive(a: Text, b: Text, c: Text)
    requires Le(a, b) && Le(b, c)
    ensures Le(a, c)
    decreases |a|
  {
    if a != [] && b != [] && c != [] && a[0] == b[0] == c[0] != 0 {
      CompareTails(a, b);
      CompareTails(b, c);
      CompareTails(a, c);
      LeIsTransitive(a[1..], b[1..], c[1..]);
    }
  }

  ghost predicate Ordered(s: seq<Text>) {
    forall i, j | 0 <= i < j < |s| :: Le(s[i], s[j])
  }

  // ---------- The 256 smallest ----------

  /** Insertion into a sorted list, behind the strings that are not larger. */
  function InsertSorted(s: seq<Text>, x: Text): (r: seq<Text>)
    ensures |r| == |s| + 1
  {
    var n := |s| - 1;
    if s == [] || CompareBytes(x, s[n]) >= 0 then s + [x] else InsertSorted(s[..n], x) + [s[n]]
  }

  function Sort(c: seq<Text>): (r: seq<Text>)
    ensures |r| == |c|
  {
    if c == [] then [] else InsertSorted(Sort(c[..|c| - 1]), c[|c| - 1])
  }

  function Take(s: seq<Text>): (r: seq<Text>)
    ensures |r| <= MATCH_MAX
  {
    if |s| <= MATCH_MAX then s else s[..MATCH_MAX]
  }

  /** The first 256 of the sorted candidates that start with the prefix. */
  function Kept(prefix: Text, c: seq<Text>): (m: seq<Text>)
    ensures |m| <= MATCH_MAX
  {
    Take(Sort(Filter(c, prefix)))
  }

  lemma OrderedSnoc(s: seq<Text>, x: Text)
    ensures Ordered(s + [x]) <==> Ordered(s) && forall k | 0 <= k < |s| :: Le(s[k], x)
  {
    var t := s + [x];
    if Ordered(t) {
      forall i, j | 0 <= i < j < |s| ensures Le(s[i], s[j]) {
        assert t[i] == s[i] && t[j] == s[j];
      }
      forall k | 0 <= k < |s| ensures Le(s[k], x) {
        assert t[k] == s[k] && t[|s|] == x;
      }
    }
  }

  lemma {:induction false} InsertSortedMembers(s: seq<Text>, x: Text)
    ensures multiset(InsertSorted(s, x)) == multiset(s) + multiset{x}
    ensures forall k | 0 <= k < |s| + 1 :: InsertSorted(s, x)[k] == x || InsertSorted(s, x)[k] in s
  {
    var n := |s| - 1;
    if s != [] && CompareBytes(x, s[n]) < 0 {
      InsertSortedMembers(s[..n], x);
      assert s == s[..n] + [s[n]];
    }
  }

  lemma {:induction false} InsertSortedIsSorted(s: seq<Text>, x: Text)
    requires Ordered(s)
    ensures Ordered(InsertSorted(s, x))
  {
    var n := |s| - 1;
    if s == [] || CompareBytes(x, s[n]) >= 0 {
      forall k | 0 <= k < |s| ensures Le(s[k], x) {
        CompareIsTotal(x, s[n]);
        if k < n {
          LeIsTransitive(s[k], s[n], x);
        }
      }
      OrderedSnoc(s, x);
    } else {
      var r := InsertSorted(s[..n], x);
      InsertSortedIsSorted(s[..n], x);
      InsertSortedMembers(s[..n], x);
      OrderedSnoc(r, s[n]);
    }
  }

  lemma {:induction false} SortIsSorted(c: seq<Text>)
    ensures Ordered(Sort(c)) && multiset(Sort(c)) == multiset(c)
  {
    if c != [] {
      var n := |c| - 1;
      SortIsSorted(c[..n]);
      InsertSortedIsSorted(Sort(c[..n]), c[n]);
      InsertSortedMembers(Sort(c[..n]), c[n]);
      assert c == c[..n] + [c[n]];
    }
  }

  /** Dropping what exceeds 256 before an insertion makes no difference to what is kept after it. */
  lemma {:induction false} TakeThenInsert(s: seq<Text>, x: Text)
    requires Ordered(s)
    ensures Take(InsertSorted(Take(s), x)) == Take(InsertSorted(s, x))
  {
    var n := |s| - 1;
    if |s| > MATCH_MAX {
      var e := s[n];
      if CompareBytes(x, e) >= 0 {
        CompareIsTotal(x, e);
        LeIsTransitive(s[MATCH_MAX - 1], e, x);
        CompareIsTotal(x, s[MATCH_MAX - 1]);
        var kept := Take(s);
        assert kept[|kept| - 1] == s[MATCH_MAX - 1];
        assert InsertSorted(kept, x) == kept + [x];
      } else {
        TakeThenInsert(s[..n], x);
        assert Take(s) == Take(s[..n]);
        assert Take(InsertSorted(s[..n], x) + [e]) == Take(InsertSorted(s[..n], x));
      }
    }
  }

  // ---------- Filtering and longer prefixes ----------

  lemma FilterSnoc(c: seq<Text>, x: Text, prefix: Text)
    ensures Filter(c + [x], prefix) == if prefix <= x then Filter(c, prefix) + [x] else Filter(c, prefix)
  {
    assert (c + [x])[..|c|] == c;
  }

  lemma {:induction false} FilterAppend(c: seq<Text>, d: seq<Text>, prefix: Text)
    ensures Filter(c + d, prefix) == Filter(c, prefix) + Filter(d, prefix)
  {
    if d == [] {
      assert c + d == c;
    } else {
      var n := |d| - 1;
      FilterAppend(c, d[..n], prefix);
      assert (c + d)[..|c + d| - 1] == c + d[..n];
    }
  }

  lemma {:induction false} FilterMembers(c: seq<Text>, prefix: Text, x: Text)
    ensures x in Filter(c, prefix) <==> x in c && prefix <= x
  {
    if c != [] {
      FilterMembers(c[..|c| - 1], prefix, x);
      assert c == c[..|c| - 1] + [c[|c| - 1]];
    }
  }

  /** Filtering a sorted list commutes with an insertion. */
  lemma {:induction false} FilterInsertSorted(s: seq<Text>, x: Text, q: Text)
    requires Ordered(s)
    ensures Filter(InsertSorted(s, x), q) == if q <= x then InsertSorted(Filter(s, q), x) else Filter(s, q)
  {
    var n := |s| - 1;
    if s == [] || CompareBytes(x, s[n]) >= 0 {
      FilterSnoc(s, x, q);
      InsertBehindFilter(s, x, q);
    } else {
      var p, e := s[..n], s[n];
      assert s == p + [e];
      FilterInsertSorted(p, x, q);
      FilterSnoc(p, e, q);
      FilterSnoc(InsertSorted(p, x), e, q);
      InsertBeforeLarger(Filter(p, q), x, e);
    }
  }

  lemma InsertBehindFilter(s: seq<Text>, x: Text, q: Text)
    requires Ordered(s) && (s == [] || CompareBytes(x, s[|s| - 1]) >= 0)
    ensures InsertSorted(Filter(s, q), x) == Filter(s, q) + [x]
  {
    var f := Filter(s, q);
    if f != [] {
      var last := f[|f| - 1];
      FilterMembers(s, q, last);
      var k :| 0 <= k < |s| && s[k] == last;
      CompareIsTotal(x, s[|s| - 1]);
      if k < |s| - 1 {
        LeIsTransitive(last, s[|s| - 1], x);
      }
      CompareIsTotal(x, last);
    }
  }

  lemma InsertBeforeLarger(f: seq<Text>, x: Text, e: Text)
    requires CompareBytes(x, e) < 0
    ensures InsertSorted(f + [e], x) == InsertSorted(f, x) + [e]
  {
    assert (f + [e])[..|f|] == f;
  }

  lemma {:induction false} FilterSorted(c: seq<Text>, q: Text)
    ensures Filter(Sort(c), q) == Sort(Filter(c, q))
  {
    if c != [] {
      var n := |c| - 1;
      FilterSorted(c[..n], q);
      SortIsSorted(c[..n]);
      FilterInsertSorted(Sort(c[..n]), c[n], q);
      assert (Filter(c[..n], q) + [c[n]])[..|Filter(c[..n], q)|] == Filter(c[..n], q);
    }
  }

  lemma {:induction false} FilterTwice(c: seq<Text>, p: Text, q: Text)
    requires p <= q
    ensures Filter(Filter(c, p), q) == Filter(c, q)
  {
    if c != [] {
      var n := |c| - 1;
      FilterTwice(c[..n], p, q);
      if p <= c[n] {
        FilterSnoc(Filter(c[..n], p), c[n], q);
      }
    }
  }

  lemma {:induction false} FilterAll(s: seq<Text>, q: Text)
    requires forall i | 0 <= i < |s| :: q <= s[i]
    ensures Filter(s, q) == s
  {
    if s != [] {
      FilterAll(s[..|s| - 1], q);
    }
  }

  /** Searching again with a longer prefix that all the kept candidates share keeps the same list, even
      when candidates were dropped. */
  lemma KeptOfLongerPrefix(p: Text, q: Text, c: seq<Text>)
    requires p <= q && forall i | 0 <= i < |Kept(p, c)| :: q <= Kept(p, c)[i]
    ensures Kept(q, c) == Kept(p, c)
  {
    SortOfLongerPrefix(p, q, c);
    assert Kept(p, c) == Take(Sort(Filter(c, p)));
    forall i | 0 <= i < |Take(Sort(Filter(c, p)))| ensures q <= Take(Sort(Filter(c, p)))[i] {
      assert q <= Kept(p, c)[i];
    }
    FilterKeepsTake(Sort(Filter(c, p)), q);
  }

  lemma SortOfLongerPrefix(p: Text, q: Text, c: seq<Text>)
    requires p <= q
    ensures Sort(Filter(c, q)) == Filter(Sort(Filter(c, p)), q)
  {
    FilterSorted(Filter(c, p), q);
    FilterTwice(c, p, q);
  }

  lemma FilterKeepsTake(sorted: seq<Text>, q: Text)
    requires forall i | 0 <= i < |Take(sorted)| :: q <= Take(sorted)[i]
    ensures Take(Filter(sorted, q)) == Take(sorted)
  {
    var m := Take(sorted);
    var rest := sorted[|m|..];
    assert sorted == m + rest;
    FilterAppend(m, rest, q);
    FilterAll(m, q);
    TakeFull(m, Filter(rest, q));
  }

  lemma TakeFull(m: seq<Text>, rest: seq<Text>)
    requires |m| == MATCH_MAX || (|m| < MATCH_MAX && rest == [])
    ensures Take(m + rest) == m
  {
    assert rest == [] ==> m + rest == m;
  }

  lemma KeptMembers(prefix: Text, c: seq<Text>, i: nat)
    requires i < |Kept(prefix, c)|
    ensures prefix <= Kept(prefix, c)[i] && Kept(prefix, c)[i] in c
  {
    var f := Filter(c, prefix);
    SortIsSorted(f);
    assert Sort(f)[i] in multiset(f);
    FilterMembers(c, prefix, Kept(prefix, c)[i]);
  }

  /** What is kept: a sorted list of candidates with the prefix, 256 of them or all there are, such that
      every candidate left out is at least as large as every one kept. */
  lemma KeptAreSmallest(prefix: Text, c: seq<Text>) returns (dropped: seq<Text>)
    ensures var m := Kept(prefix, c);
            && multiset(m) + multiset(dropped) == multiset(Filter(c, prefix))
            && Ordered(m + dropped)
            && (dropped != [] ==> |m| == MATCH_MAX)
  {
    var sorted := Sort(Filter(c, prefix));
    SortIsSorted(Filter(c, prefix));
    var m := Kept(prefix, c);
    dropped := sorted[|m|..];
    assert sorted == m + dropped;
  }

  // ---------- Longest common prefix ----------

  /** The first position from `i` on where `a` and `b` differ or one of them ends. */
  function Agreement(a: Text, b: Text, i: nat): (k: nat)
    requires i <= |a| && i <= |b|
    ensures i <= k <= |a| && k <= |b|
    ensures forall j | i <= j < k :: a[j] == b[j]
    ensures k == |a| || k == |b| || a[k] != b[k]
    decreases |a| - i
  {
    if i < |a| && i < |b| && a[i] == b[i] then Agreement(a, b, i + 1) else i
  }

  function CommonPrefix(a: Text, b: Text): (p: Text)
    ensures p <= a && p <= b
  {
    var k := Agreement(a, b, 0);
    assert a[..k] == b[..k];
    a[..k]
  }

  /** The common prefix of the first `n` strings. */
  function LcpTo(m: seq<Text>, n: nat): Text
    requires 0 < n <= |m|
  {
    if n == 1 then m[0] else CommonPrefix(LcpTo(m, n - 1), m[n - 1])
  }

  function Lcp(m: seq<Text>): Text
    requires m != []
  {
    LcpTo(m, |m|)
  }

  lemma CommonPrefixIsLongest(a: Text, b: Text, q: Text)
    ensures q <= a && q <= b <==> q <= CommonPrefix(a, b)
  {
    var k := Agreement(a, b, 0);
    assert q <= a ==> forall j | 0 <= j < |q| :: q[j] == a[j];
    assert q <= b ==> forall j | 0 <= j < |q| :: q[j] == b[j];
    if q <= CommonPrefix(a, b) {
      assert q == CommonPrefix(a, b)[..|q|];
    }
  }

  lemma PrefixTail(q: Text, a: Text)
    requires q != [] && a != [] && q[0] == a[0]
    ensures q <= a <==> q[1..] <= a[1..]
  {
    assert q == [q[0]] + q[1..] && a == [a[0]] + a[1..];
    if q[1..] <= a[1..] {
      assert a[1..][..|q| - 1] == q[1..];
      assert a[..|q|] == q;
    }
  }

  lemma {:induction false} LcpToIsLongest(m: seq<Text>, n: nat, q: Text)
    requires 0 < n <= |m|
    ensures (forall i | 0 <= i < n :: q <= m[i]) <==> q <= LcpTo(m, n)
  {
    if n > 1 {
      LcpToIsLongest(m, n - 1, q);
      CommonPrefixIsLongest(LcpTo(m, n - 1), m[n - 1], q);
    }
  }

  /** A string is a prefix of every match exactly when it is a prefix of the computed one: that one is a
      common prefix, and no common prefix is longer. */
  lemma LcpIsLongest(m: seq<Text>, q: Text)
    requires m != []
    ensures (forall i | 0 <= i < |m| :: q <= m[i]) <==> q <= Lcp(m)
  {
    LcpToIsLongest(m, |m|, q);
  }

  /** On a sorted list the first and the last match alone determine the common prefix. */
  lemma LcpOfSorted(m: seq<Text>)
    requires m != [] && Ordered(m) && AllNulFree(m)
    ensures Lcp(m) == CommonPrefix(m[0], m[|m| - 1])
  {
    var n := |m| - 1;
    var ends := CommonPrefix(m[0], m[n]);
    LcpIsLongest(m, Lcp(m));
    LcpIsLongest(m, ends);
    CommonPrefixIsLongest(m[0], m[n], Lcp(m));
    forall i | 0 <= i < |m| ensures ends <= m[i] {
      if 0 < i < n {
        Sandwich(ends, m[0], m[i], m[n]);
      }
    }
  }

  lemma {:induction false} Sandwich(q: Text, a: Text, x: Text, b: Text)
    requires q <= a && q <= b && Le(a, x) && Le(x, b) && NulFree(q)
    ensures q <= x
    decreases |q|
  {
    if q != [] {
      assert x != [] && q[0] == a[0] == b[0] == x[0];
      CompareTails(a, x);
      CompareTails(x, b);
      PrefixTail(q, a);
      PrefixTail(q, b);
      PrefixTail(q, x);
      Sandwich(q[1..], a[1..], x[1..], b[1..]);
    }
  }

  // ---------- The match array ----------

  lemma {:induction false} StrncmpIsPrefix(p: Text, s: Text)
    requires |p| <= |s| && NulFree(p)
    ensures Strncmp(p, s, |p|) == 0 <==> p <= s
    decreases |p|
  {
    if p != [] && p[0] == s[0] {
      StrncmpIsPrefix(p[1..], s[1..]);
      PrefixTail(p, s);
    }
  }

  class MatchArray {
    const matches: array<Text>
    var count: nat

    /** The array is sorted and holds NUL-free strings. */
    ghost predicate Valid()
      reads this, matches
    {
      matches.Length == MATCH_MAX && count <= MATCH_MAX && Ordered(matches[..count]) && AllNulFree(matches[..count])
    }

    ghost function Matches(): seq<Text>
      requires Valid()
      reads this, matches
    {
      matches[..count]
    }

    constructor ()
      ensures Valid() && fresh(matches)
    {
      matches := new Text[MATCH_MAX](i => []);
      count := 0;
    }

    /** Inserts a candidate that starts with the prefix into the sorted array; when the array is full
        the largest of the array and the candidate is dropped. */
    method CheckMatch(prefix: Text, test: Text)
      requires Valid() && NulFree(prefix) && NulFree(test)
      modifies this, matches
      ensures Valid() && Matches() == Keep(old(Matches()), test, prefix)
    {
      if |prefix| > |test| {
        return;
      }
      StrncmpIsPrefix(prefix, test);
      if Strncmp(prefix, test, |prefix|) != 0 {
        return;
      }
      var mm := BubbleIn(test);
      if count == MATCH_MAX {
        return;
      }
      matches[count] := mm;
      count := count + 1;
      assert matches[..count] == matches[..count - 1] + [mm];
    }

    /** The pass of swaps that carries the largest string out of the array. */
    method BubbleIn(test: Text) returns (mm: Text)
      requires Valid() && NulFree(test)
      modifies matches
      ensures Valid() && Matches() + [mm] == InsertSorted(old(Matches()), test)
      ensures Ordered(Matches() + [mm]) && AllNulFree(Matches() + [mm])
    {
      ghost var before := Matches();
      mm := test;
      var i := 0;
      while i < count
        invariant i <= count == |before|
        invariant forall k | i <= k < count :: matches[k] == before[k]
        invariant matches[..i] + [mm] == InsertSorted(before[..i], test)
      {
        SwapStep(before, i, test, matches[..i], mm);
        mm := SwapAt(i, mm);
        i := i + 1;
      }
      assert before[..i] == before;
      InsertSortedIsSorted(before, test);
      InsertSortedNulFree(before, test);
      OrderedSnoc(matches[..count], mm);
      AllNulFreeSnoc(matches[..count], mm);
    }

    /** The smaller of two strings stays in its slot, and the other one is carried on. */
    method SwapAt(i: nat, carried: Text) returns (mm: Text)
      requires i < matches.Length
      modifies matches
      ensures matches[..i] == old(matches[..i])
      ensures forall k | i < k < matches.Length :: matches[k] == old(matches[k])
      ensures matches[..i + 1] + [mm] == old(matches[..i])
              + if CompareBytes(carried, old(matches[i])) < 0 then [carried, old(matches[i])] else [old(matches[i]), carried]
    {
      ghost var done := matches[..i];
      mm := carried;
      if CompareBytes(mm, matches[i]) < 0 {
        var temp := mm;
        mm := matches[i];
        matches[i] := temp;
      }
      assert matches[..i + 1] == done + [matches[i]];
    }

    /** Adds the symbols of one table to the matches. */
    method FindInTable(prefix: Text, table: Table)
      requires Valid() && NulFree(prefix) && AllNulFree(Names(table))
      modifies this, matches
      ensures Valid() && Matches() == KeepTable(old(Matches()), table, |table|, prefix)
    {
      var kv := 0;
      while kv < |table|
        invariant kv <= |table| && Valid()
        invariant Matches() == KeepTable(old(Matches()), table, kv, prefix)
      {
        if table[kv].Symbol? {
          NamesAreNulFree(table, kv);
          CheckMatch(prefix, table[kv].name);
        }
        kv := kv + 1;
      }
    }

    method FindMatches(prefix: Text, env: Env)
      requires Valid() && NulFree(prefix) && AllNulFree(AllNames(env))
      modifies this, matches
      ensures Valid() && Matches() == KeepEnv(env, |env|, prefix)
    {
      count := 0;
      var t := 0;
      while t < |env|
        invariant t <= |env| && Valid()
        invariant Matches() == KeepEnv(env, t, prefix)
      {
        TablesAreNulFree(env, t);
        FindInTable(prefix, env[t]);
        t := t + 1;
      }
    }

    /** Adds each of the special forms to the matches. */
    method CheckSpecials(prefix: Text, specials: seq<Text>)
      requires Valid() && NulFree(prefix) && AllNulFree(specials)
      modifies this, matches
      ensures Valid() && Matches() == KeepList(old(Matches()), specials, |specials|, prefix)
    {
      var i := 0;
      while i < |specials|
        invariant i <= |specials| && Valid()
        invariant Matches() == KeepList(old(Matches()), specials, i, prefix)
      {
        CheckMatch(prefix, specials[i]);
        i := i + 1;
      }
    }

    /** All the candidates of an environment, symbols first, then the special forms. */
    method Collect(prefix: Text, env: Env)
      requires Valid() && NulFree(prefix) && AllNulFree(Candidates(env))
      modifies this, matches
      ensures Valid() && Matches() == Kept(prefix, Candidates(env))
    {
      CandidatesAreNulFree(env);
      FindMatches(prefix, env);
      CheckSpecials(prefix, Specials());
      KeepAllIsKept(env, prefix);
    }

    method LongestCommonPrefix() returns (lcp: Text)
      requires Valid()
      ensures lcp == if Matches() == [] then [] else Lcp(Matches())
    {
      if count == 0 {
        return [];
      }
      ghost var m := Matches();
      var bytes, len := matches[0], |matches[0]|;
      var i := 0;
      while i < count
        invariant 0 <= i <= count && 0 <= len <= |bytes|
        invariant bytes[..len] == LcpTo(m, if i == 0 then 1 else i)
      {
        len := CommonLength(bytes, len, matches[i]);
        if i == 0 {
          AgreementUnique(bytes, bytes, |bytes|);
        }
        i := i + 1;
      }
      lcp := bytes[..len];
    }
  }

  /** How far `bytes[..len]` and `other` agree. */
  method CommonLength(bytes: Text, len: nat, other: Text) returns (n: nat)
    requires len <= |bytes|
    ensures n <= len && bytes[..n] == CommonPrefix(bytes[..len], other)
  {
    var minlen := if |other| < len then |other| else len;
    n := 0;
    while n < minlen
      invariant 0 <= n <= minlen
      invariant forall j | 0 <= j < n :: bytes[j] == other[j]
    {
      if bytes[n] != other[n] {
        break;
      }
      n := n + 1;
    }
    AgreementUnique(bytes[..len], other, n);
  }

  lemma AgreementUnique(a: Text, b: Text, k: nat)
    requires k <= |a| && k <= |b| && forall j | 0 <= j < k :: a[j] == b[j]
    requires k == |a| || k == |b| || a[k] != b[k]
    ensures k == Agreement(a, b, 0)
  {
  }

  /** One step of the pass of swaps: the passed strings and the carried one are the insertion of `test`
      into the passed strings. */
  lemma SwapStep(before: seq<Text>, i: nat, test: Text, done: seq<Text>, mm: Text)
    requires i < |before| && Ordered(before) && AllNulFree(before)
    requires |done| == i && done + [mm] == InsertSorted(before[..i], test)
    ensures InsertSorted(before[..i + 1], test)
         == if CompareBytes(mm, before[i]) < 0 then done + [mm, before[i]] else done + [before[i], mm]
  {
    var p, e := before[..i], before[i];
    assert before[..i + 1] == p + [e];
    assert (p + [e])[..i] == p;
    InsertSortedLast(p, test);
    CompareIsTotal(mm, e);
    CompareIsTotal(test, e);
    if CompareBytes(test, e) < 0 {
      assert InsertSorted(p + [e], test) == done + [mm] + [e];
      if CompareBytes(mm, e) >= 0 {
        assert mm == before[i - 1] && Le(mm, e);
        CompareIsTotal(e, mm);
      }
    } else {
      assert InsertSorted(p + [e], test) == p + [e] + [test];
      if i > 0 {
        LeIsTransitive(before[i - 1], e, test);
        CompareIsTotal(before[i - 1], test);
      }
      assert InsertSorted(p, test) == p + [test];
      assert done + [mm] == p + [test];
      assert done == (done + [mm])[..i] && mm == (done + [mm])[i];
    }
  }

  lemma InsertSortedLast(s: seq<Text>, x: Text)
    ensures var last := InsertSorted(s, x)[|s|];
            (CompareBytes(x, last) >= 0 && last == x) || (s != [] && last == s[|s| - 1])
  {
    CompareIsTotal(x, x);
    StrncmpSelf(x, |x|);
  }

  lemma {:induction false} StrncmpSelf(a: Text, n: nat)
    requires n <= |a|
    ensures Strncmp(a, a, n) == 0
  {
    if n > 0 && a[0] != 0 {
      StrncmpSelf(a[1..], n - 1);
    }
  }

  lemma AllNulFreeSnoc(s: seq<Text>, x: Text)
    requires AllNulFree(s + [x])
    ensures AllNulFree(s)
  {
    assert forall k | 0 <= k < |s| :: (s + [x])[k] == s[k];
  }

  lemma InsertSortedNulFree(s: seq<Text>, x: Text)
    requires AllNulFree(s) && NulFree(x)
    ensures AllNulFree(InsertSorted(s, x))
  {
    InsertSortedMembers(s, x);
  }

  // ---------- Streaming is sorting ----------

  /** What one more candidate does to the kept list. */
  function Keep(m: seq<Text>, x: Text, prefix: Text): seq<Text> {
    if prefix <= x then Take(InsertSorted(m, x)) else m
  }

  function KeepList(m: seq<Text>, c: seq<Text>, n: nat, prefix: Text): seq<Text>
    requires n <= |c|
  {
    if n == 0 then m else Keep(KeepList(m, c, n - 1, prefix), c[n - 1], prefix)
  }

  function KeepTable(m: seq<Text>, t: Table, n: nat, prefix: Text): seq<Text>
    requires n <= |t|
  {
    if n == 0 then m
    else
      var before := KeepTable(m, t, n - 1, prefix);
      match t[n - 1] case Symbol(name) => Keep(before, name, prefix) case Other => before
  }

  function KeepEnv(env: Env, n: nat, prefix: Text): seq<Text>
    requires n <= |env|
  {
    if n == 0 then [] else KeepTable(KeepEnv(env, n - 1, prefix), env[n - 1], |env[n - 1]|, prefix)
  }

  lemma KeepIsKept(c: seq<Text>, x: Text, prefix: Text)
    ensures Keep(Kept(prefix, c), x, prefix) == Kept(prefix, c + [x])
  {
    var f := Filter(c, prefix);
    FilterSnoc(c, x, prefix);
    if prefix <= x {
      assert (f + [x])[..|f|] == f;
      SortIsSorted(f);
      TakeThenInsert(Sort(f), x);
    }
  }

  lemma {:induction false} KeepListIsKept(seen: seq<Text>, c: seq<Text>, n: nat, prefix: Text)
    requires n <= |c|
    ensures KeepList(Kept(prefix, seen), c, n, prefix) == Kept(prefix, seen + c[..n])
  {
    if n == 0 {
      assert seen + c[..0] == seen;
    } else {
      KeepListIsKept(seen, c, n - 1, prefix);
      KeepIsKept(seen + c[..n - 1], c[n - 1], prefix);
      assert seen + c[..n] == seen + c[..n - 1] + [c[n - 1]];
    }
  }

  lemma {:induction false} KeepTableIsKept(seen: seq<Text>, t: Table, n: nat, prefix: Text)
    requires n <= |t|
    ensures KeepTable(Kept(prefix, seen), t, n, prefix) == Kept(prefix, seen + Names(t[..n]))
  {
    if n == 0 {
      assert seen + Names(t[..0]) == seen;
    } else {
      KeepTableIsKept(seen, t, n - 1, prefix);
      NamesSnoc(t, n - 1);
      if t[n - 1].Symbol? {
        KeepName(seen, Names(t[..n - 1]), t[n - 1].name, prefix);
      }
    }
  }

  lemma KeepName(seen: seq<Text>, names: seq<Text>, name: Text, prefix: Text)
    ensures Keep(Kept(prefix, seen + names), name, prefix) == Kept(prefix, seen + (names + [name]))
  {
    KeepIsKept(seen + names, name, prefix);
    assert seen + names + [name] == seen + (names + [name]);
  }

  lemma NamesSnoc(t: Table, k: nat)
    requires k < |t|
    ensures var before := Names(t[..k]);
            Names(t[..k + 1]) == match t[k] case Symbol(name) => before + [name] case Other => before
  {
    assert t[..k + 1][..k] == t[..k];
  }

  lemma {:induction false} KeepEnvIsKept(env: Env, n: nat, prefix: Text)
    requires n <= |env|
    ensures KeepEnv(env, n, prefix) == Kept(prefix, AllNames(env[..n]))
  {
    if n > 0 {
      var t := env[n - 1];
      KeepEnvIsKept(env, n - 1, prefix);
      KeepTableIsKept(AllNames(env[..n - 1]), t, |t|, prefix);
      assert t[..|t|] == t;
      assert env[..n][..n - 1] == env[..n - 1];
    }
  }

  lemma KeepAllIsKept(env: Env, prefix: Text)
    ensures KeepList(KeepEnv(env, |env|, prefix), Specials(), |Specials()|, prefix) == Kept(prefix, Candidates(env))
  {
    KeepEnvIsKept(env, |env|, prefix);
    assert env[..|env|] == env;
    var specials := Specials();
    KeepListIsKept(AllNames(env), specials, |specials|, prefix);
    assert specials[..|specials|] == specials;
  }

  // ---------- NUL-freedom of the parts ----------

  lemma CandidatesAreNulFree(env: Env)
    requires AllNulFree(Candidates(env))
    ensures AllNulFree(AllNames(env)) && AllNulFree(Specials())
  {
    var names, specials := AllNames(env), Specials();
    assert forall i | 0 <= i < |names| :: (names + specials)[i] == names[i];
    assert forall i | 0 <= i < |specials| :: (names + specials)[|names| + i] == specials[i];
  }

  lemma {:induction false} NamesAreNulFree(t: Table, k: nat)
    requires k < |t| && AllNulFree(Names(t)) && t[k].Symbol?
    ensures NulFree(t[k].name)
  {
    var n := |t| - 1;
    var names := Names(t[..n]);
    if k == n {
      assert Names(t)[|names|] == t[n].name;
    } else {
      assert forall i | 0 <= i < |names| :: Names(t)[i] == names[i];
      NamesAreNulFree(t[..n], k);
    }
  }

  lemma {:induction false} TablesAreNulFree(env: Env, k: nat)
    requires k < |env| && AllNulFree(AllNames(env))
    ensures AllNulFree(Names(env[k]))
  {
    var n := |env| - 1;
    var names, last := AllNames(env[..n]), Names(env[n]);
    if k == n {
      assert forall i | 0 <= i < |last| :: AllNames(env)[|names| + i] == last[i];
    } else {
      assert forall i | 0 <= i < |names| :: AllNames(env)[i] == names[i];
      TablesAreNulFree(env[..n], k);
    }
  }
}

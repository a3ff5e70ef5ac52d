/** The history of the line editor: an array of owned C strings, newest first. */
module History {
  import opened Bytes
  import EditLine

  const HISTORY_MAX := 100

  // ---------- The history as a sequence ----------

  /** A line that the edit buffer can hold. */
  ghost predicate IsLine(s: Text) {
    |s| < EditLine.LINE_MAX && NulFree(s)
  }

  ghost predicate AreLines(h: seq<Text>) {
    forall i | 0 <= i < |h| :: IsLine(h[i])
  }

  /** A new first entry; the oldest entry is lost when there is no room for it. */
  function Prepend(h: seq<Text>, s: Text): (r: seq<Text>)
    ensures |h| <= HISTORY_MAX ==> |r| <= HISTORY_MAX
  {
    [s] + if |h| < HISTORY_MAX then h else h[..HISTORY_MAX - 1]
  }

  /** An accepted line takes the place of the draft entry, unless it is empty or repeats the entry
      below it; then the draft entry goes. */
  function Accept(h: seq<Text>, line: Text): seq<Text>
    requires h != []
  {
    if line == [] || (|h| > 1 && line == h[1]) then h[1..] else h[0 := line]
  }

  /** One session: the draft entry is added, a line is edited without browsing, and accepted. */
  function Session(h: seq<Text>, line: Text): seq<Text> {
    Accept(Prepend(h, []), line)
  }

  function Sessions(h: seq<Text>, lines: seq<Text>): seq<Text>
    decreases |lines|
  {
    if lines == [] then h else Sessions(Session(h, lines[0]), lines[1..])
  }

  function Clamp(i: int, count: nat): (k: nat)
    requires count > 0
    ensures k < count
  {
    if i < 0 then 0 else if i >= count then count - 1 else i
  }

  // ---------- Properties of the sequence ----------

  ghost predicate Tidy(h: seq<Text>) {
    && |h| <= HISTORY_MAX
    && (forall i | 0 <= i < |h| :: h[i] != [])
    && (forall i | 0 < i < |h| :: h[i - 1] != h[i])
  }

  /** The lines of `lines` that a history keeps, newest first: empty lines and immediate repetitions
      are left out. */
  function Kept(lines: seq<Text>): seq<Text>
    decreases |lines|
  {
    if lines == [] then []
    else
      var older := Kept(lines[..|lines| - 1]);
      var last := lines[|lines| - 1];
      if last == [] || (older != [] && older[0] == last) then older else [last] + older
  }

  lemma {:induction false} SessionsSnoc(h: seq<Text>, lines: seq<Text>, line: Text)
    ensures Sessions(h, lines + [line]) == Session(Sessions(h, lines), line)
    decreases |lines|
  {
    if lines == [] {
      assert Sessions(h, [line]) == Sessions(Session(h, line), []);
    } else {
      SessionsSnoc(Session(h, lines[0]), lines[1..], line);
      assert (lines + [line])[0] == lines[0];
      assert (lines + [line])[1..] == lines[1..] + [line];
    }
  }

  /** Whatever lines are entered, the history stays within its 100 entries, holds no empty entry and no
      two adjacent equal ones, and starts with the lines a boundless history would keep. */
  lemma {:induction false} SessionsKeepTidy(lines: seq<Text>)
    ensures var h := Sessions([], lines);
            && Tidy(h)
            && h <= Kept(lines)
            && (h == [] ==> Kept(lines) == [])
            && (lines != [] && lines[|lines| - 1] != [] ==> h != [] && h[0] == lines[|lines| - 1])
            && (|Kept(lines)| < HISTORY_MAX ==> h == Kept(lines))
    decreases |lines|
  {
    if lines != [] {
      var n := |lines| - 1;
      var before, line := Sessions([], lines[..n]), lines[n];
      SessionsKeepTidy(lines[..n]);
      LastSession(lines);
      SessionIsTidy(before, line);
      SessionFollowsKept(before, Kept(lines[..n]), line);
    }
  }

  lemma LastSession(lines: seq<Text>)
    requires lines != []
    ensures var n := |lines| - 1; Sessions([], lines) == Session(Sessions([], lines[..n]), lines[n])
  {
    var n := |lines| - 1;
    assert lines[..n] + [lines[n]] == lines;
    SessionsSnoc([], lines[..n], lines[n]);
  }

  lemma SessionIsTidy(h: seq<Text>, line: Text)
    requires Tidy(h)
    ensures Tidy(Session(h, line))
    ensures line != [] ==> Session(h, line) != [] && Session(h, line)[0] == line
  {
    var draft := Prepend(h, []);
    assert |h| > 0 ==> draft[1] == h[0];
    var r := Session(h, line);
    if line == [] || (|draft| > 1 && line == draft[1]) {
      assert r == if |h| < HISTORY_MAX then h else h[..HISTORY_MAX - 1];
    } else {
      assert forall i | 0 < i < |r| :: r[i] == h[i - 1];
    }
  }

  lemma SessionFollowsKept(h: seq<Text>, kept: seq<Text>, line: Text)
    requires |h| <= HISTORY_MAX && h <= kept
    requires h == [] ==> kept == []
    ensures var next := if line == [] || (kept != [] && kept[0] == line) then kept else [line] + kept;
            var r := Session(h, line);
            && r <= next
            && (r == [] ==> next == [])
            && (h == kept && |next| < HISTORY_MAX ==> r == next)
  {
    var draft := Prepend(h, []);
    assert |h| > 0 ==> draft[1] == h[0];
    var cut := if |h| < HISTORY_MAX then h else h[..HISTORY_MAX - 1];
    assert Session(h, line) == if line == [] || (h != [] && line == h[0]) then cut else [line] + cut;
  }

  // ---------- The array ----------

  /** A heap-allocated C string. */
  class CString {
    const text: Text

    constructor (text: Text)
      ensures this.text == text
    {
      this.text := text;
    }
  }

  ghost predicate AllSet(p: seq<CString?>) {
    forall i | 0 <= i < |p| :: p[i] != null
  }

  /** `p` lists the strings of `live`, each once. */
  ghost predicate Lists(p: seq<CString?>, live: set<CString>) {
    && AllSet(p)
    && (forall i, j | 0 <= i < j < |p| :: p[i] != p[j])
    && (forall i | 0 <= i < |p| :: p[i] in live)
    && (forall q | q in live :: q in p)
  }

  ghost function Texts(p: seq<CString?>): (h: seq<Text>)
    requires AllSet(p)
    ensures |h| == |p|
  {
    seq(|p|, i requires 0 <= i < |p| => p[i].text)
  }

  lemma ListsAdded(p: seq<CString?>, live: set<CString>, q: CString)
    requires Lists(p, live) && q !in live
    ensures Lists([q] + p, live + {q})
    ensures Texts([q] + p) == [q.text] + Texts(p)
  {
    assert forall r | r in live :: r in [q] + p;
  }

  lemma ListsWithoutLast(p: seq<CString?>, live: set<CString>)
    requires Lists(p, live) && p != []
    ensures var n := |p| - 1;
            Lists(p[..n], live - {p[n]}) && Texts(p[..n]) == Texts(p)[..n]
  {
    var n := |p| - 1;
    forall r | r in live - {p[n]} ensures r in p[..n] {
      var i :| 0 <= i < |p| && p[i] == r;
      assert p[..n][i] == r;
    }
  }

  lemma ListsWithoutFirst(p: seq<CString?>, live: set<CString>)
    requires Lists(p, live) && p != []
    ensures Lists(p[1..], live - {p[0]}) && Texts(p[1..]) == Texts(p)[1..]
  {
    forall r | r in live - {p[0]} ensures r in p[1..] {
      var i :| 0 <= i < |p| && p[i] == r;
      assert p[1..][i - 1] == r;
    }
  }

  lemma ListsReplaced(p: seq<CString?>, live: set<CString>, i: nat, q: CString)
    requires Lists(p, live) && i < |p| && q !in live
    ensures Lists(p[i := q], live - {p[i]} + {q})
    ensures Texts(p[i := q]) == Texts(p)[i := q.text]
  {
    forall r | r in live - {p[i]} ensures r in p[i := q] {
      var k :| 0 <= k < |p| && p[k] == r;
      assert p[i := q][k] == r;
    }
    assert p[i := q][i] == q;
  }

  /** Moves `a[..len - 1]` one slot up, from the top down. */
  method ShiftUp(a: array<CString?>, len: nat)
    requires 0 < len <= a.Length
    modifies a
    ensures a[1..len] == old(a[..len - 1])
  {
    var i := len - 1;
    while i > 0
      invariant 0 <= i < len
      invariant forall k | 0 <= k <= i :: a[k] == old(a[k])
      invariant forall k {:trigger a[k]} | i < k < len :: a[k] == old(a[k - 1])
    {
      a[i] := a[i - 1];
      i := i - 1;
    }
  }

  /** Moves `a[1..len]` one slot down. */
  method ShiftDown(a: array<CString?>, len: nat)
    requires 0 < len <= a.Length
    modifies a
    ensures a[..len - 1] == old(a[1..len])
  {
    var i := 1;
    while i < len
      invariant 1 <= i <= len
      invariant forall k {:trigger a[k]} | 0 <= k < i - 1 :: a[k] == old(a[k + 1])
      invariant forall k | i - 1 < k < len :: a[k] == old(a[k])
    {
      a[i - 1] := a[i];
      i := i + 1;
    }
  }

  class HistoryArray {
    const slots: array<CString?>
    var count: nat
    var index: nat
    /** The strings that were allocated for this history and not freed yet. */
    ghost var live: set<CString>

    ghost function Owned(): seq<CString?>
      requires count <= slots.Length
      reads this, slots
    {
      slots[..count]
    }

    /** The slots own distinct strings, and every live string is in a slot: nothing leaks, and no slot
        holds a freed string. */
    ghost predicate Valid()
      reads this, slots
    {
      && slots.Length == HISTORY_MAX
      && count <= HISTORY_MAX
      && (index < count || index == 0)
      && Lists(Owned(), live)
      && AreLines(Texts(Owned()))
    }

    ghost function Entries(): (h: seq<Text>)
      requires Valid()
      reads this, slots
      ensures |h| == count
    {
      Texts(Owned())
    }

    constructor ()
      ensures Valid() && Entries() == [] && index == 0 && fresh(slots)
    {
      slots := new CString?[HISTORY_MAX](i => null);
      count, index := 0, 0;
      live := {};
    }

    method Sdup(s: Text) returns (p: CString)
      modifies this`live
      ensures p.text == s && fresh(p)
      ensures live == old(live) + {p}
    {
      p := new CString(s);
      live := live + {p};
    }

    /** `free`: only a live string may be freed, and it is freed once. */
    method Free(p: CString?)
      requires p != null && p in live
      modifies this`live
      ensures live == old(live) - {p}
    {
      live := live - {p};
    }

    method Add(s: Text)
      requires Valid() && IsLine(s)
      modifies this`count, this`live, slots
      ensures Valid() && Entries() == Prepend(old(Entries()), s)
    {
      ghost var before := Owned();
      var newline := Sdup(s);
      if count < HISTORY_MAX {
        slots[count] := newline;
        count := count + 1;
        PutFirst(newline, before);
      } else {
        ListsWithoutLast(before, old(live));
        Free(slots[HISTORY_MAX - 1]);
        assert live - {newline} == old(live) - {before[HISTORY_MAX - 1]};
        PutFirst(newline, before[..HISTORY_MAX - 1]);
      }
    }

    /** The last slot in use holds nothing of value: the others move up and `newline` comes first. */
    method PutFirst(newline: CString, ghost kept: seq<CString?>)
      requires slots.Length == HISTORY_MAX && 0 < count <= HISTORY_MAX && (index < count || index == 0)
      requires slots[..count - 1] == kept
      requires newline in live && Lists(kept, live - {newline})
      requires AreLines(Texts(kept)) && IsLine(newline.text)
      modifies slots
      ensures Valid() && Entries() == [newline.text] + Texts(kept)
    {
      ShiftUp(slots, count);
      slots[0] := newline;
      assert Owned() == [newline] + slots[1..count];
      ListsAdded(kept, live - {newline}, newline);
      assert live == live - {newline} + {newline};
    }

    /** The index is moved back to the draft here; the program does so when it starts the next session,
        and does not use the index in between. */
    method Replace(line: Text)
      requires Valid() && IsLine(line) && count > 0
      modifies this`count, this`index, this`live, slots
      ensures Valid() && Entries() == Accept(old(Entries()), line)
      ensures index == 0
    {
      ghost var before := Owned();
      index := 0;
      if line == [] || (count > 1 && line == slots[1].text) {
        Free(slots[0]);
        ShiftDown(slots, count);
        count := count - 1;
        assert Owned() == before[1..];
        ListsWithoutFirst(before, old(live));
      } else {
        var newline := Sdup(line);
        Free(slots[0]);
        slots[0] := newline;
        assert Owned() == before[0 := newline];
        ListsReplaced(before, old(live), 0, newline);
        assert live == old(live) - {before[0]} + {newline};
      }
    }

    /** The saving half of `historymove`: the live line replaces the current entry, and the index moves. */
    method SaveAndMove(line: Text, delta: int) returns (entry: Text)
      requires Valid() && IsLine(line) && count > 1
      modifies this`index, this`live, slots
      ensures Valid()
      ensures Entries() == old(Entries())[old(index) := line]
      ensures index == Clamp(old(index) + delta, count)
      ensures entry == Entries()[index]
    {
      ghost var before := Owned();
      Free(slots[index]);
      var copy := Sdup(line);
      slots[index] := copy;
      assert Owned() == before[index := copy];
      ListsReplaced(before, old(live), index, copy);
      assert live == old(live) - {before[index]} + {copy};
      var moved := index + delta;
      if moved < 0 {
        index := 0;
      } else if moved >= count {
        index := count - 1;
      } else {
        index := moved;
      }
      entry := slots[index].text;
    }

    /** The end of the program: every string is freed, each once, and none is left. */
    method Deinit()
      requires Valid()
      modifies this`index, this`live
      ensures live == {} && index == 0
    {
      ghost var all := Owned();
      var i := 0;
      while i < count
        invariant i <= count
        invariant forall k | i <= k < count :: slots[k] in live
        invariant forall p | p in live :: p in all[i..]
      {
        assert slots[i] == all[i];
        Free(slots[i]);
        i := i + 1;
      }
      index := 0;
    }
  }
}

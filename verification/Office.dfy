/** The association list behind the cross-thread boxes, as one thread sees it. */
module Office {
  import opened Bytes
  import opened Options

  // ---------- Association lists ----------

  datatype Entry = Entry(k: Text, v: Text)

  /** The position of a key, or the length of the list. */
  function Find(l: seq<Entry>, k: Text): (i: nat)
    ensures i <= |l| && (i < |l| ==> l[i].k == k)
    ensures forall j | 0 <= j < i :: l[j].k != k
  {
    if l == [] then 0
    else
      var i := Find(l[..|l| - 1], k);
      if i < |l| - 1 then i else if l[i].k == k then i else i + 1
  }

  function Lookup(l: seq<Entry>, k: Text): Option<Text> {
    var i := Find(l, k);
    if i < |l| then Some(l[i].v) else None
  }

  /** A value is replaced in place, and a new key goes to the tail. */
  function Put(l: seq<Entry>, k: Text, v: Text): seq<Entry> {
    var i := Find(l, k);
    if i < |l| then l[i := Entry(k, v)] else l + [Entry(k, v)]
  }

  /** The list starts with the empty-key sentinel and no key occurs twice. */
  ghost predicate WellFormed(l: seq<Entry>) {
    && l != [] && l[0].k == []
    && forall i, j | 0 <= i < j < |l| :: l[i].k != l[j].k
  }

  const EMPTY_OFFICE := [Entry([], [])]

  function ToMap(l: seq<Entry>): map<Text, Text> {
    if l == [] then map[] else ToMap(l[..|l| - 1])[l[|l| - 1].k := l[|l| - 1].v]
  }

  lemma FindUnique(l: seq<Entry>, k: Text, i: nat)
    requires i <= |l| && (i < |l| ==> l[i].k == k) && forall j | 0 <= j < i :: l[j].k != k
    ensures Find(l, k) == i
  {
  }

  lemma {:induction false} LookupIsMap(l: seq<Entry>, k: Text)
    requires forall i, j | 0 <= i < j < |l| :: l[i].k != l[j].k
    ensures Lookup(l, k) == if k in ToMap(l) then Some(ToMap(l)[k]) else None
  {
    if l != [] {
      var p := l[..|l| - 1];
      LookupIsMap(p, k);
    }
  }

  /** A put is a map update; it keeps the list well-formed, moves no key, and loses none. */
  lemma {:induction false} PutIsUpdate(l: seq<Entry>, k: Text, v: Text)
    requires WellFormed(l)
    ensures var r := Put(l, k, v);
            && WellFormed(r)
            && ToMap(r) == ToMap(l)[k := v]
            && |l| <= |r| <= |l| + 1
            && (forall i | 0 <= i < |l| :: r[i].k == l[i].k)
            && (forall i | 0 <= i < |l| && l[i].k != k :: r[i].v == l[i].v)
            && Lookup(r, k) == Some(v)
  {
    var i := Find(l, k);
    var r := Put(l, k, v);
    FindUnique(r, k, i);
    if i < |l| {
      assert WellFormed(r);
      ToMapUpdate(l, i, v);
    } else {
      assert r[..|r| - 1] == l;
    }
  }

  lemma PutKeepsWellFormed(l: seq<Entry>, k: Text, v: Text)
    requires WellFormed(l)
    ensures WellFormed(Put(l, k, v))
  {
    PutIsUpdate(l, k, v);
  }

  lemma {:induction false} ToMapUpdate(l: seq<Entry>, i: nat, v: Text)
    requires i < |l| && forall a, b | 0 <= a < b < |l| :: l[a].k != l[b].k
    ensures ToMap(l[i := Entry(l[i].k, v)]) == ToMap(l)[l[i].k := v]
  {
    var n := |l| - 1;
    var r := l[i := Entry(l[i].k, v)];
    if i == n {
      assert r[..n] == l[..n];
    } else {
      ToMapUpdate(l[..n], i, v);
      assert r[..n] == l[..n][i := Entry(l[i].k, v)];
    }
  }

  function PutAll(puts: seq<Entry>): seq<Entry> {
    if puts == [] then EMPTY_OFFICE
    else
      var p := puts[|puts| - 1];
      Put(PutAll(puts[..|puts| - 1]), p.k, p.v)
  }

  /** Over any sequence of puts the list refines the map of the last value put under each key. */
  lemma {:induction false} PutAllIsMap(puts: seq<Entry>)
    ensures WellFormed(PutAll(puts))
    ensures ToMap(PutAll(puts)) == map[[] := []] + ToMap(puts)
    decreases |puts|
  {
    if puts == [] {
      EmptyOffice();
    } else {
      var last := puts[|puts| - 1];
      var before := puts[..|puts| - 1];
      PutAllIsMap(before);
      PutIsUpdate(PutAll(before), last.k, last.v);
      UpdateRight(map[[] := []], ToMap(before), last.k, last.v);
    }
  }

  lemma EmptyOffice()
    ensures WellFormed(EMPTY_OFFICE) && ToMap(EMPTY_OFFICE) == map[[] := []]
  {
    assert EMPTY_OFFICE[..0] == [];
  }

  lemma UpdateRight(m: map<Text, Text>, n: map<Text, Text>, k: Text, v: Text)
    ensures m + n[k := v] == (m + n)[k := v]
  {
  }

  /** Further puts only add keys behind those that are there. */
  lemma {:induction false} PutAllKeepsKeys(puts: seq<Entry>, n: nat)
    requires n <= |puts|
    ensures var early, late := PutAll(puts[..n]), PutAll(puts);
            |early| <= |late| && forall i | 0 <= i < |early| :: late[i].k == early[i].k
    decreases |puts|
  {
    if n == |puts| {
      assert puts[..n] == puts;
    } else {
      var last := |puts| - 1;
      PutAllKeepsKeys(puts[..last], n);
      assert puts[..last][..n] == puts[..n];
      PutAllIsMap(puts[..last]);
      PutIsUpdate(PutAll(puts[..last]), puts[last].k, puts[last].v);
    }
  }

  // ---------- The linked list ----------

  class Node {
    const k: Text
    var v: Text
    var next: Node?

    constructor (k: Text, v: Text)
      ensures this.k == k && this.v == v && next == null
    {
      this.k := k;
      this.v := v;
      next := null;
    }
  }

  /** 0 when the byte strings are equal, 1 otherwise. */
  method Bytecmp(a: Text, b: Text) returns (r: int)
    ensures r == 0 <==> a == b
    ensures r == 0 || r == 1
  {
    if |a| != |b| {
      return 1;
    }
    var i := 0;
    while i < |a|
      invariant 0 <= i <= |a| == |b|
      invariant a[..i] == b[..i]
    {
      if a[i] != b[i] {
        return 1;
      }
      i := i + 1;
    }
    return 0;
  }

  ghost function ListOf(spine: seq<Node>): (l: seq<Entry>)
    reads spine
    ensures |l| == |spine|
    ensures forall i | 0 <= i < |l| :: l[i] == Entry(spine[i].k, spine[i].v)
  {
    if spine == [] then []
    else
      var n := |spine| - 1;
      ListOf(spine[..n]) + [Entry(spine[n].k, spine[n].v)]
  }

  lemma ListOfOne(n: Node)
    ensures ListOf([n]) == [Entry(n.k, n.v)]
  {
    assert [n][..0] == [];
  }

  class Office {
    var head: Node
    ghost var spine: seq<Node>

    /** The spine lists the nodes in the order of their links, and the list ends. */
    ghost predicate Chained()
      reads this, spine
    {
      && spine != [] && spine[0] == head
      && (forall i {:trigger spine[i].next} | 0 <= i < |spine| - 1 :: spine[i].next == spine[i + 1])
      && spine[|spine| - 1].next == null
    }

    /** The list is acyclic. */
    ghost predicate Linked()
      reads this, spine
    {
      Chained() && forall i, j | 0 <= i < j < |spine| :: spine[i] != spine[j]
    }

    ghost function List(): (l: seq<Entry>)
      reads this, spine
      ensures |l| == |spine|
      ensures forall i | 0 <= i < |l| :: l[i] == Entry(spine[i].k, spine[i].v)
    {
      ListOf(spine)
    }

    ghost predicate Valid()
      reads this, spine
    {
      Linked() && WellFormed(List())
    }

    constructor ()
      ensures Valid() && List() == EMPTY_OFFICE && fresh(spine)
    {
      head := new Node([], []);
      spine := [head];
      new;
      ListOfOne(head);
      EmptyOffice();
    }

    /** The node of a key, or null. */
    method TableGet(k: Text) returns (found: Node?)
      requires Chained()
      ensures var i := Find(List(), k);
              found == if i < |spine| then spine[i] else null
    {
      found := head;
      ghost var i, l := 0, List();
      while found != null
        invariant 0 <= i <= |spine| && found == if i < |spine| then spine[i] else null
        invariant forall j | 0 <= j < i :: l[j].k != k
        decreases |spine| - i
      {
        var c := Bytecmp(found.k, k);
        assert l[i].k == found.k;
        if c == 0 {
          break;
        }
        found := found.next;
        i := i + 1;
      }
      FindUnique(l, k, i);
    }

    /** Overwrites the value of a key in place, or links a new node behind the last one. The value of the
        sentinel is not heap-allocated: a put on the empty key crashes when it frees that value. */
    method TablePut(k: Text, v: Text) returns (crashed: bool)
      requires Valid()
      modifies this, spine
      ensures crashed <==> k == []
      ensures Valid() && List() == if crashed then old(List()) else Put(old(List()), k, v)
      ensures old(spine) <= spine && fresh(spine[|old(spine)|..]) && head == old(head)
    {
      ghost var l := List();
      var node, found := Walk(k);
      HeadIsSentinel(k);
      crashed := found && node == head;
      if !crashed {
        PutKeepsWellFormed(l, k, v);
        Place(node, found, k, v);
      }
    }

    lemma HeadIsSentinel(k: Text)
      requires Valid()
      ensures var i := Find(List(), k); (i < |spine| && spine[i] == head) <==> k == []
    {
      assert List()[0].k == [];
    }

    method Place(node: Node, found: bool, k: Text, v: Text)
      requires Valid()
      requires var i := Find(List(), k);
               found == (i < |spine|) && node == spine[if found then i else |spine| - 1]
      modifies this, spine
      ensures Linked() && List() == Put(old(List()), k, v)
      ensures old(spine) <= spine && fresh(spine[|old(spine)|..]) && head == old(head)
    {
      ghost var i := Find(List(), k);
      if found {
        assert node.k == List()[i].k == k;
        Overwrite(node, v, i);
      } else {
        Append(node, k, v);
      }
    }

    method Overwrite(node: Node, v: Text, ghost i: nat)
      requires Linked() && i < |spine| && spine[i] == node
      modifies node`v
      ensures Linked() && List() == old(List())[i := Entry(node.k, v)]
    {
      node.v := v;
    }

    method Append(last: Node, k: Text, v: Text)
      requires Linked() && last == spine[|spine| - 1]
      modifies this`spine, last`next
      ensures Linked() && List() == old(List()) + [Entry(k, v)]
      ensures fresh(spine[|old(spine)|..]) && old(spine) <= spine
    {
      var nnode := new Node(k, v);
      last.next := nnode;
      spine := spine + [nnode];
    }

    /** The node of a key, or else the last node. */
    method Walk(k: Text) returns (last: Node, found: bool)
      requires Chained()
      ensures var i := Find(List(), k);
              found == (i < |spine|) && last == spine[if found then i else |spine| - 1]
    {
      last, found := head, false;
      var node: Node? := head;
      ghost var i, l := 0, List();
      while node != null && !found
        invariant 0 <= i <= |spine| && node == if i < |spine| then spine[i] else null
        invariant if found then last == node && l[i].k == k else i > 0 ==> last == spine[i - 1]
        invariant forall j | 0 <= j < i :: l[j].k != k
        decreases |spine| - i, !found
      {
        last := node;
        var c := Bytecmp(node.k, k);
        assert l[i].k == node.k;
        if c == 0 {
          found := true;
        } else {
          node := node.next;
          i := i + 1;
        }
      }
      FindUnique(l, k, i);
    }
  }
}

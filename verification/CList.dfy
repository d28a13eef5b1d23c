/** The doubly linked list of c_list.c. */
module CLists {
  import opened MergeSorts

  class Node<T> {
    const data: T
    var next: Node?<T>
    var prev: Node?<T>

    constructor (data: T)
      ensures this.data == data && next == null && prev == null
    {
      this.data := data;
      next, prev := null, null;
    }
  }

  function Head<T>(s: seq<Node<T>>): Node?<T> { if s == [] then null else s[0] }
  function Last<T>(s: seq<Node<T>>): Node?<T> { if s == [] then null else s[|s| - 1] }

  ghost function Nodes<T>(s: seq<Node<T>>): set<Node<T>> { set n | n in s }

  /** The nodes are distinct, and linked in this order in both directions; what comes before the first is left open. */
  ghost predicate Chain<T>(s: seq<Node<T>>) reads Nodes(s) {
    s != [] ==>
      && s[0] !in s[1..] && s[0].next == Head(s[1..]) && (s[1..] != [] ==> s[1].prev == s[0])
      && Nodes(s[1..]) <= Nodes(s) && Chain(s[1..])
  }

  /** A whole list. */
  ghost predicate List<T>(s: seq<Node<T>>) reads Nodes(s) { Chain(s) && (s != [] ==> s[0].prev == null) }

  /** Nodes compared by their data. */
  function ByData<T>(cmp: (T, T) -> int): (Node<T>, Node<T>) -> int { (m: Node<T>, n: Node<T>) => cmp(m.data, n.data) }

  lemma Tail<T>(s: seq<Node<T>>)
    requires s != []
    ensures Nodes(s) == {s[0]} + Nodes(s[1..])
  {
  }

  lemma Cons<T>(n: Node<T>, s: seq<Node<T>>)
    ensures ([n] + s)[1..] == s && Nodes([n] + s) == {n} + Nodes(s)
  {
  }

  /** In a list next and prev are inverse to each other, and no node occurs twice. */
  lemma {:induction false} Links<T>(s: seq<Node<T>>, i: nat)
    requires Chain(s) && i < |s|
    ensures s[i].next == (if i + 1 < |s| then s[i + 1] else null) && (i > 0 ==> s[i].prev == s[i - 1])
    ensures forall j | 0 <= j < |s| && j != i :: s[j] != s[i]
  {
    if i > 0 {
      Links(s[1..], i - 1);
      assert s[i] in s[1..];
      forall j | 0 <= j < |s| && j != i ensures s[j] != s[i] {
        if j > 0 { assert s[j] == s[1..][j - 1]; }
      }
    } else {
      forall j | 0 < j < |s| ensures s[j] != s[0] { assert s[j] == s[1..][j - 1]; }
    }
  }

  /** Puts a node before a list. */
  method Join<T>(n: Node<T>, list: Node?<T>, ghost s: seq<Node<T>>)
    requires Chain(s) && list == Head(s) && n !in s
    modifies n`next, if s == [] then {} else {s[0]}
    ensures Chain([n] + s) && n.prev == old(n.prev)
  {
    n.next := list;
    if n.next != null {
      n.next.prev := n;
    }
    Cons(n, s);
  }

  /** Merges two lists. The first node keeps its prev link; the caller sets it. */
  method Merge<T>(list1: Node?<T>, list2: Node?<T>, cmp: (T, T) -> int, ghost a: seq<Node<T>>, ghost b: seq<Node<T>>)
    returns (list: Node?<T>)
    requires Chain(a) && Chain(b) && Nodes(a) !! Nodes(b) && list1 == Head(a) && list2 == Head(b)
    modifies Nodes(a), Nodes(b)
    ensures var c := Merged(a, b, ByData(cmp));
              Chain(c) && list == Head(c) && Nodes(c) == Nodes(a) + Nodes(b)
                  && (c != [] ==> c[0].prev == old(c[0].prev))
    decreases |a| + |b|
  {
    if list1 == null {
      return list2;
    } else if list2 == null {
      return list1;
    }
    if cmp(list1.data, list2.data) <= 0 {
      Tail(a);
      var rest := Merge(list1.next, list2, cmp, a[1..], b);
      Join(list1, rest, Merged(a[1..], b, ByData(cmp)));
      Cons(list1, Merged(a[1..], b, ByData(cmp)));
      return list1;
    } else {
      Tail(b);
      var rest := Merge(list1, list2.next, cmp, a, b[1..]);
      Join(list2, rest, Merged(a, b[1..], ByData(cmp)));
      Cons(list2, Merged(a, b[1..], ByData(cmp)));
      return list2;
    }
  }

  /** Splits a list into alternate nodes: the first keeps its place, the second heads a list of its own. */
  method Split<T>(list: Node?<T>, ghost s: seq<Node<T>>) returns (second: Node?<T>)
    requires Chain(s) && list == Head(s)
    modifies Nodes(s)
    ensures Chain(Evens(s)) && List(Odds(s)) && second == Head(Odds(s))
    ensures Nodes(Evens(s)) !! Nodes(Odds(s)) && Nodes(Evens(s)) + Nodes(Odds(s)) == Nodes(s)
    ensures s != [] ==> s[0].prev == old(s[0].prev)
    decreases |s|, 1
  {
    if list == null {
      return null;
    } else if list.next == null {
      return null;
    }
    second := list.next;
    ghost var rest := s[2..];
    TwoTails(s);
    Unlink(list, second, rest);
    SplitRest(list, second, rest);
  }

  /** Splits what follows the first two nodes, which already are in lists of their own. */
  method SplitRest<T>(list: Node<T>, second: Node<T>, ghost rest: seq<Node<T>>)
    requires Chain(rest) && list !in rest && second !in rest && list != second && list.next == second.next == Head(rest)
    requires rest != [] ==> rest[0].prev == list
    modifies second`next, Nodes(rest)
    ensures Chain([list] + Evens(rest)) && Chain([second] + Odds(rest))
    ensures Nodes([list] + Evens(rest)) !! Nodes([second] + Odds(rest))
    ensures Nodes([list] + Evens(rest)) + Nodes([second] + Odds(rest)) == {list, second} + Nodes(rest)
    ensures list.prev == old(list.prev) && second.prev == old(second.prev)
    decreases |rest|, 2
  {
    var others := Split(second.next, rest);
    assert second !in Nodes(rest) && list !in Nodes(rest);
    assert second !in Nodes(Odds(rest)) && list !in Nodes(Evens(rest));
    Join(second, others, Odds(rest));
    Cons(list, Evens(rest));
    Cons(second, Odds(rest));
  }

  lemma TwoTails<T>(s: seq<Node<T>>)
    requires Chain(s) && |s| > 1
    ensures s[1..][1..] == s[2..] && Chain(s[2..]) && s[0] !in s[2..] && s[1] !in s[2..] && s[0] != s[1]
    ensures s[0].next == s[1] && s[1].next == Head(s[2..])
    ensures Nodes(s) == {s[0], s[1]} + Nodes(s[2..])
  {
    assert s[1..][1..] == s[2..];
    Tail(s);
    Tail(s[1..]);
  }

  /** Leaves the second node out, and opens it to the left. */
  method Unlink<T>(list: Node<T>, second: Node<T>, ghost rest: seq<Node<T>>)
    requires Chain(rest) && list !in rest && second !in rest && list != second && second.next == Head(rest)
    modifies list`next, second`prev, if rest == [] then {} else {rest[0]}
    ensures Chain(rest) && list.next == second.next == Head(rest) && second.prev == null && list.prev == old(list.prev)
    ensures rest != [] ==> rest[0].prev == list
  {
    list.next := second.next;
    if list.next != null {
      list.next.prev := list;
    }
    second.prev := null;
  }

  /** Sorts a list in place: the same nodes, linked in the order that the merge sort gives. */
  method Sort<T>(list: Node?<T>, cmp: (T, T) -> int, ghost s: seq<Node<T>>) returns (sorted: Node?<T>)
    requires List(s) && list == Head(s)
    modifies Nodes(s)
    ensures var r := Sorted(s, ByData(cmp)); List(r) && sorted == Head(r) && Nodes(r) == Nodes(s)
    decreases |s|
  {
    if list == null {
      return null;
    } else if list.next == null {
      return list;
    }
    TwoTails(s);
    var second := Split(list, s);
    sorted := Sort(list, cmp, Evens(s));
    second := Sort(second, cmp, Odds(s));
    sorted := Merge(sorted, second, cmp, Sorted(Evens(s), ByData(cmp)), Sorted(Odds(s), ByData(cmp)));
  }

  /** Where a node stands in a list. */
  ghost predicate Stands<T>(list: Node?<T>, s: seq<Node<T>>, i: nat) {
    if list == null then s == [] else i < |s| && list == s[i]
  }

  method First<T>(node: Node?<T>, ghost s: seq<Node<T>>, ghost i: nat) returns (first: Node?<T>)
    requires List(s) && Stands(node, s, i)
    ensures first == Head(s)
  {
    first := node;
    if first != null {
      ghost var j: nat := i;
      Links(s, j);
      while first.prev != null
        invariant j < |s| && first == s[j]
        invariant if j == 0 then first.prev == null else first.prev == s[j - 1]
        decreases j
      {
        first, j := first.prev, j - 1;
        Links(s, j);
      }
    }
  }

  method LastOf<T>(node: Node?<T>, ghost s: seq<Node<T>>, ghost i: nat) returns (last: Node?<T>)
    requires List(s) && Stands(node, s, i)
    ensures last == Last(s)
  {
    last := node;
    ghost var j := i;
    if last != null {
      Links(s, j);
      while last.next != null
        invariant j < |s| && last == s[j] && last.next == if j + 1 < |s| then s[j + 1] else null
        decreases |s| - j
      {
        last, j := last.next, j + 1;
        Links(s, j);
      }
    }
  }

  /** Adds an element in front, given any node of the list. */
  method Prepend<T>(list: Node?<T>, data: T, ghost s: seq<Node<T>>, ghost i: nat) returns (new_: Node<T>)
    requires List(s) && Stands(list, s, i)
    modifies if s == [] then {} else {s[0]}
    ensures fresh(new_) && new_.data == data && List([new_] + s)
  {
    new_ := new Node(data);
    if list != null {
      var first := First(list, s, i);
      first.prev := new_;
      new_.next := first;
    }
    assert new_ !in Nodes(s);
    Cons(new_, s);
  }

  /** Frees a whole list, given any of its nodes: every node once, from the last to the first, and none is used after
      it was freed. */
  method Free<T>(node: Node?<T>, ghost s: seq<Node<T>>, ghost i: nat) returns (freed: seq<Node<T>>)
    requires List(s) && Stands(node, s, i)
    ensures |freed| == |s| && forall j | 0 <= j < |s| :: freed[j] == s[|s| - 1 - j]
  {
    freed := [];
    if node == null {
      return;
    }
    var list := LastOf(node, s, i);
    ghost var j := |s| - 1;
    Links(s, j);
    while list.prev != null
      invariant 0 <= j < |s| && list == s[j] && list !in freed
      invariant (j == 0 ==> list.prev == null) && (j > 0 ==> list.prev == s[j - 1])
      invariant |freed| == |s| - 1 - j && forall k | 0 <= k < |freed| :: freed[k] == s[|s| - 1 - k]
      decreases j
    {
      var temp := list;
      list, j := list.prev, j - 1;
      Links(s, j);
      freed := freed + [temp];
    }
    freed := freed + [list];
  }

  // ---------- insertion into a sorted list ----------

  /** The place of a new element: before the first that is not smaller. */
  function Place<T>(s: seq<Node<T>>, data: T, cmp: (T, T) -> int): (i: nat)
    ensures i <= |s| && (forall j | 0 <= j < i :: cmp(data, s[j].data) > 0) && (i < |s| ==> cmp(data, s[i].data) <= 0)
  {
    if s == [] || cmp(data, s[0].data) <= 0 then 0 else
      var i := Place(s[1..], data, cmp);
      assert forall j | 0 < j < 1 + i :: s[j] == s[1..][j - 1];
      1 + i
  }

  function Inserted<T>(s: seq<Node<T>>, n: Node<T>, cmp: (T, T) -> int): seq<Node<T>> {
    s[..Place(s, n.data, cmp)] + [n] + s[Place(s, n.data, cmp)..]
  }

  lemma AroundPlace<T>(s: seq<Node<T>>, n: Node<T>, cmp: (T, T) -> int, k: nat)
    requires Ordering(Elements(s) + {n}, ByData(cmp)) && Ascending(s, ByData(cmp)) && k < |s|
    ensures if k < Place(s, n.data, cmp) then cmp(s[k].data, n.data) <= 0 else cmp(n.data, s[k].data) <= 0
  {
    var i, c, dom := Place(s, n.data, cmp), ByData(cmp), Elements(s) + {n};
    assert s[k] in dom && n in dom;
    if k < i {
      assert c(n, s[k]) > 0;
    } else if k > i {
      assert s[i] in dom;
      assert c(n, s[i]) <= 0 && c(s[i], s[k]) <= 0;
    }
  }

  /** A sorted list stays sorted. */
  lemma InsertedAscends<T>(s: seq<Node<T>>, n: Node<T>, cmp: (T, T) -> int)
    requires Ordering(Elements(s) + {n}, ByData(cmp)) && Ascending(s, ByData(cmp))
    ensures Ascending(Inserted(s, n, cmp), ByData(cmp))
  {
    var i := Place(s, n.data, cmp);
    forall k | 0 <= k < |s| ensures if k < i then cmp(s[k].data, n.data) <= 0 else cmp(n.data, s[k].data) <= 0 {
      AroundPlace(s, n, cmp, k);
    }
    AscendingWith(s, i, n, ByData(cmp));
  }

  lemma AscendingWith<A>(s: seq<A>, i: nat, n: A, c: (A, A) -> int)
    requires i <= |s| && Ascending(s, c)
    requires forall k | 0 <= k < |s| :: if k < i then c(s[k], n) <= 0 else c(n, s[k]) <= 0
    ensures Ascending(s[..i] + [n] + s[i..], c)
  {
    var r := s[..i] + [n] + s[i..];
    forall j, k | 0 <= j < k < |r| ensures c(r[j], r[k]) <= 0 {
      assert r[j] == if j < i then s[j] else if j == i then n else s[j - 1];
      assert r[k] == if k < i then s[k] else if k == i then n else s[k - 1];
    }
  }

  /** Links that fit at every place make a chain. */
  lemma {:induction false} FromLinks<T>(s: seq<Node<T>>)
    requires forall i, j | 0 <= i < j < |s| :: s[i] != s[j]
    requires forall i | 0 <= i < |s| :: LinksAt(s, i)
    ensures Chain(s)
  {
    if s != [] {
      var t := s[1..];
      assert LinksAt(s, 0) && (|s| > 1 ==> LinksAt(s, 1));
      forall i | 0 <= i < |t| ensures LinksAt(t, i) {
        assert LinksAt(s, i + 1);
      }
      FromLinks(t);
    }
  }

  ghost predicate LinksAt<T>(s: seq<Node<T>>, i: nat) reads Nodes(s) requires i < |s| {
    assert s[i] in Nodes(s);
    s[i].next == (if i + 1 < |s| then s[i + 1] else null) && (i > 0 ==> s[i].prev == s[i - 1])
  }

  lemma AllLinks<T>(s: seq<Node<T>>)
    requires Chain(s)
    ensures forall i | 0 <= i < |s| :: LinksAt(s, i)
    ensures forall i, j | 0 <= i < j < |s| :: s[i] != s[j]
  {
    forall i | 0 <= i < |s| ensures LinksAt(s, i) { Links(s, i); }
    forall i, j | 0 <= i < j < |s| ensures s[i] != s[j] { Links(s, i); }
  }

  /** Links a new node in before the one at `i`. */
  method LinkBefore<T>(temp: Node<T>, new_: Node<T>, ghost s: seq<Node<T>>, ghost i: nat)
    requires List(s) && i < |s| && temp == s[i] && new_ !in s && new_.prev == null
    modifies new_, Nodes(s)
    ensures List(s[..i] + [new_] + s[i..])
  {
    AllLinks(s);
    assert LinksAt(s, i) && (i > 0 ==> LinksAt(s, i - 1));
    if temp.prev != null {
      temp.prev.next := new_;
      new_.prev := temp.prev;
    }
    new_.next := temp;
    temp.prev := new_;
    ghost var t := s[..i] + [new_] + s[i..];
    forall k | 0 <= k < |t| ensures LinksAt(t, k) {
      assert k < |s| ==> old(LinksAt(s, k));
      assert k > 0 ==> old(LinksAt(s, k - 1));
    }
    FromLinks(t);
  }

  method LinkAfter<T>(temp: Node<T>, new_: Node<T>, ghost s: seq<Node<T>>)
    requires List(s) && s != [] && temp == Last(s) && new_ !in s && new_.next == null
    modifies new_, Nodes(s)
    ensures List(s + [new_])
  {
    AllLinks(s);
    temp.next := new_;
    new_.prev := temp;
    ghost var t := s + [new_];
    forall k | 0 <= k < |t| ensures LinksAt(t, k) {
      assert k < |s| ==> old(LinksAt(s, k));
    }
    FromLinks(t);
  }

  /** Inserts before the first element that is not smaller. */
  method InsertSorted<T>(list: Node?<T>, data: T, cmp: (T, T) -> int, ghost s: seq<Node<T>>)
    returns (r: Node<T>, ghost n: Node<T>)
    requires List(s) && list == Head(s)
    modifies Nodes(s)
    ensures fresh(n) && n.data == data && List(Inserted(s, n, cmp)) && r == Inserted(s, n, cmp)[0]
  {
    var new_ := new Node(data);
    n := new_;
    if list == null {
      return new_, n;
    }
    var temp: Node<T> := list;
    ghost var i: nat := 0;
    var c := cmp(data, temp.data);
    Links(s, i);
    while temp.next != null && c > 0
      invariant List(s) && new_ !in s && new_.next == null && new_.prev == null
      invariant i < |s| && temp == s[i] && c == cmp(data, s[i].data)
      invariant temp.next == if i + 1 < |s| then s[i + 1] else null
      invariant forall j | 0 <= j < i :: cmp(data, s[j].data) > 0
      decreases |s| - i
    {
      temp, i := temp.next, i + 1;
      Links(s, i);
      c := cmp(data, temp.data);
    }
    if temp.next == null && c > 0 {
      LinkAfter(temp, new_, s);
      assert Inserted(s, n, cmp) == s + [n];
      return list, n;
    }
    LinkBefore(temp, new_, s, i);
    assert Place(s, data, cmp) == i;
    r := if temp == list then new_ else list;
  }
}

/** The merge sort of c_list.c on sequences: split into alternate elements, sort both, merge. */
module MergeSorts {
  function Evens<A>(s: seq<A>): (r: seq<A>)
    ensures |r| == (|s| + 1) / 2
  {
    if |s| <= 1 then s else [s[0]] + Evens(s[2..])
  }

  function Odds<A>(s: seq<A>): (r: seq<A>)
    ensures |r| == |s| / 2
  {
    if |s| <= 1 then [] else [s[1]] + Odds(s[2..])
  }

  function Merged<A>(a: seq<A>, b: seq<A>, cmp: (A, A) -> int): (r: seq<A>)
    ensures |r| == |a| + |b|
    decreases |a| + |b|
  {
    if a == [] then b
    else if b == [] then a
    else if cmp(a[0], b[0]) <= 0 then [a[0]] + Merged(a[1..], b, cmp)
    else [b[0]] + Merged(a, b[1..], cmp)
  }

  function Sorted<A>(s: seq<A>, cmp: (A, A) -> int): (r: seq<A>)
    ensures |r| == |s|
    decreases |s|
  {
    if |s| <= 1 then s else Merged(Sorted(Evens(s), cmp), Sorted(Odds(s), cmp), cmp)
  }

  /** On these elements `cmp` compares as strcmp() does: totally, and consistently. */
  ghost predicate Ordering<A>(dom: set<A>, cmp: (A, A) -> int) {
    && (forall a, b {:trigger a in dom, b in dom} | a in dom && b in dom :: cmp(a, b) > 0 ==> cmp(b, a) <= 0)
    && (forall a, b, c {:trigger a in dom, b in dom, c in dom} | a in dom && b in dom && c in dom ::
        cmp(a, b) <= 0 && cmp(b, c) <= 0 ==> cmp(a, c) <= 0)
  }

  ghost function Elements<A>(s: seq<A>): set<A> { set x | x in s }

  ghost predicate Ascending<A>(s: seq<A>, cmp: (A, A) -> int) { forall i, j | 0 <= i < j < |s| :: cmp(s[i], s[j]) <= 0 }

  lemma {:induction false} SplitKeeps<A>(s: seq<A>)
    ensures multiset(Evens(s)) + multiset(Odds(s)) == multiset(s)
  {
    if |s| > 1 {
      SplitKeeps(s[2..]);
      Gathered(s, Evens(s[2..]), Odds(s[2..]));
    }
  }

  lemma Gathered<A>(s: seq<A>, e: seq<A>, o: seq<A>)
    requires |s| > 1 && multiset(e) + multiset(o) == multiset(s[2..])
    ensures multiset([s[0]] + e) + multiset([s[1]] + o) == multiset(s)
  {
    assert s == [s[0], s[1]] + s[2..];
  }

  lemma {:induction false} MergeKeeps<A>(a: seq<A>, b: seq<A>, cmp: (A, A) -> int)
    ensures multiset(Merged(a, b, cmp)) == multiset(a) + multiset(b)
    decreases |a| + |b|
  {
    if a != [] && b != [] {
      assert a == [a[0]] + a[1..] && b == [b[0]] + b[1..];
      if cmp(a[0], b[0]) <= 0 { MergeKeeps(a[1..], b, cmp); } else { MergeKeeps(a, b[1..], cmp); }
    }
  }

  lemma {:induction false} MergeAscends<A>(a: seq<A>, b: seq<A>, cmp: (A, A) -> int, dom: set<A>)
    requires Ordering(dom, cmp) && Ascending(a, cmp) && Ascending(b, cmp) && Elements(a) + Elements(b) <= dom
    ensures Ascending(Merged(a, b, cmp), cmp)
    decreases |a| + |b|
  {
    if a != [] && b != [] {
      var first := cmp(a[0], b[0]) <= 0;
      var x, a', b' := if first then a[0] else b[0], if first then a[1..] else a, if first then b else b[1..];
      assert Elements(a') <= Elements(a) && Elements(b') <= Elements(b);
      MergeAscends(a', b', cmp, dom);
      forall y | y in Merged(a', b', cmp) ensures cmp(x, y) <= 0 {
        MergedFrom(a', b', cmp, y);
        Least(a, b, x, y, cmp, dom);
      }
      Prefixed(x, Merged(a', b', cmp), cmp);
      assert Merged(a, b, cmp) == [x] + Merged(a', b', cmp);
    }
  }

  lemma MergedFrom<A>(a: seq<A>, b: seq<A>, cmp: (A, A) -> int, y: A)
    requires y in Merged(a, b, cmp)
    ensures y in a || y in b
  {
    MergeKeeps(a, b, cmp);
    assert y in multiset(Merged(a, b, cmp));
  }

  lemma Prefixed<A>(x: A, s: seq<A>, cmp: (A, A) -> int)
    requires Ascending(s, cmp) && forall y | y in s :: cmp(x, y) <= 0
    ensures Ascending([x] + s, cmp)
  {
    var r := [x] + s;
    forall i, j | 0 <= i < j < |r| ensures cmp(r[i], r[j]) <= 0 {
      assert r[j] == s[j - 1] && (i > 0 ==> r[i] == s[i - 1]);
    }
  }

  /** The head that a merge takes first is not above anything in either sequence. */
  lemma Least<A>(a: seq<A>, b: seq<A>, x: A, y: A, cmp: (A, A) -> int, dom: set<A>)
    requires Ordering(dom, cmp) && Ascending(a, cmp) && Ascending(b, cmp) && a != [] && b != []
    requires Elements(a) + Elements(b) <= dom
    requires x == (if cmp(a[0], b[0]) <= 0 then a[0] else b[0]) && (y in a || y in b)
    ensures cmp(x, y) <= 0
  {
    assert a[0] in dom && b[0] in dom && y in dom by {
      assert a[0] in Elements(a) && b[0] in Elements(b) && (y in Elements(a) || y in Elements(b));
    }
    assert y in a ==> cmp(a[0], y) <= 0;
    assert y in b ==> cmp(b[0], y) <= 0;
  }

  lemma {:induction false} SortKeeps<A>(s: seq<A>, cmp: (A, A) -> int)
    ensures multiset(Sorted(s, cmp)) == multiset(s)
    ensures Elements(Sorted(s, cmp)) == Elements(s)
    decreases |s|
  {
    if |s| > 1 {
      SortKeeps(Evens(s), cmp);
      SortKeeps(Odds(s), cmp);
      SplitKeeps(s);
      MergeKeeps(Sorted(Evens(s), cmp), Sorted(Odds(s), cmp), cmp);
    }
    SameElements(Sorted(s, cmp), s);
  }

  lemma SameElements<A>(s: seq<A>, t: seq<A>)
    requires multiset(s) == multiset(t)
    ensures Elements(s) == Elements(t)
  {
    forall x ensures x in s <==> x in t { assert x in s <==> x in multiset(s); assert x in t <==> x in multiset(t); }
  }

  lemma {:induction false} SortAscends<A>(s: seq<A>, cmp: (A, A) -> int, dom: set<A>)
    requires Ordering(dom, cmp) && Elements(s) <= dom
    ensures Ascending(Sorted(s, cmp), cmp)
    decreases |s|
  {
    if |s| > 1 {
      SplitFrom(s);
      SortAscends(Evens(s), cmp, dom);
      SortAscends(Odds(s), cmp, dom);
      SortKeeps(Evens(s), cmp);
      SortKeeps(Odds(s), cmp);
      MergeAscends(Sorted(Evens(s), cmp), Sorted(Odds(s), cmp), cmp, dom);
    }
  }

  lemma SplitFrom<A>(s: seq<A>)
    ensures Elements(Evens(s)) <= Elements(s) && Elements(Odds(s)) <= Elements(s)
  {
    SplitKeeps(s);
    forall x | x in Evens(s) ensures x in s { assert x in multiset(Evens(s)) && x in multiset(s); }
    forall x | x in Odds(s) ensures x in s { assert x in multiset(Odds(s)) && x in multiset(s); }
  }

  /** The sort orders the elements, and keeps each as often as it was there. */
  lemma SortIsRight<A>(s: seq<A>, cmp: (A, A) -> int)
    requires Ordering(Elements(s), cmp)
    ensures Ascending(Sorted(s, cmp), cmp) && multiset(Sorted(s, cmp)) == multiset(s)
  {
    SortKeeps(s, cmp);
    SortAscends(s, cmp, Elements(s));
  }

  // ---------- ties ----------

  predicate Tied<A>(x: A, y: A, cmp: (A, A) -> int) { cmp(x, y) <= 0 && cmp(y, x) <= 0 }

  ghost predicate Precedes<A>(s: seq<A>, x: A, y: A) { exists p, q :: 0 <= p < q < |s| && s[p] == x && s[q] == y }

  ghost predicate Unrepeated<A>(s: seq<A>) { forall i, j | 0 <= i < j < |s| :: s[i] != s[j] }

  /** At the lowest bit where they differ, `i` has a 0 and `j` a 1. */
  predicate LowBitFirst(i: nat, j: nat)
    decreases i + j
  {
    if i % 2 != j % 2 then i % 2 == 0 else i != j && LowBitFirst(i / 2, j / 2)
  }

  lemma {:induction false} OneIsFirst(i: nat, j: nat)
    requires i != j
    ensures LowBitFirst(i, j) <==> !LowBitFirst(j, i)
    decreases i + j
  {
    if i % 2 == j % 2 { OneIsFirst(i / 2, j / 2); }
  }

  lemma {:induction false} SplitAt<A>(s: seq<A>, i: nat)
    requires i < |s|
    ensures i % 2 == 0 ==> i / 2 < |Evens(s)| && Evens(s)[i / 2] == s[i]
    ensures i % 2 == 1 ==> i / 2 < |Odds(s)| && Odds(s)[i / 2] == s[i]
  {
    if i >= 2 { SplitAt(s[2..], i - 2); }
  }

  lemma PrecedesAfter<A>(h: A, s: seq<A>, x: A, y: A)
    requires Precedes(s, x, y) || (h == x && y in s)
    ensures Precedes([h] + s, x, y)
  {
    var r := [h] + s;
    if Precedes(s, x, y) {
      var p, q :| 0 <= p < q < |s| && s[p] == x && s[q] == y;
      assert r[p + 1] == x && r[q + 1] == y;
    } else {
      var q :| 0 <= q < |s| && s[q] == y;
      assert r[0] == x && r[q + 1] == y;
    }
  }

  lemma InMerged<A>(a: seq<A>, b: seq<A>, cmp: (A, A) -> int, y: A)
    requires y in a || y in b
    ensures y in Merged(a, b, cmp)
  {
    MergeKeeps(a, b, cmp);
    assert y in multiset(a) || y in multiset(b);
    assert y in multiset(Merged(a, b, cmp));
  }

  lemma PrecedesInTail<A>(s: seq<A>, x: A, y: A)
    requires Precedes(s, x, y)
    ensures s != [] && (Precedes(s[1..], x, y) || (s[0] == x && y in s[1..]))
  {
    var p, q :| 0 <= p < q < |s| && s[p] == x && s[q] == y;
    assert s[1..][q - 1] == y && (p > 0 ==> s[1..][p - 1] == x);
  }

  /** A merge keeps the order of either sequence. */
  lemma {:induction false} MergeKeepsOrder<A>(a: seq<A>, b: seq<A>, cmp: (A, A) -> int, x: A, y: A)
    requires Precedes(a, x, y) || Precedes(b, x, y)
    ensures Precedes(Merged(a, b, cmp), x, y)
    decreases |a| + |b|
  {
    if a != [] && b != [] {
      var first := cmp(a[0], b[0]) <= 0;
      var h, a', b' := if first then a[0] else b[0], if first then a[1..] else a, if first then b else b[1..];
      if Precedes(a, x, y) { PrecedesInTail(a, x, y); } else { PrecedesInTail(b, x, y); }
      if Precedes(a', x, y) || Precedes(b', x, y) {
        MergeKeepsOrder(a', b', cmp, x, y);
      } else {
        InMerged(a', b', cmp, y);
      }
      PrecedesAfter(h, Merged(a', b', cmp), x, y);
    }
  }

  /** Of tied elements a merge takes the one of the first sequence first. */
  lemma {:induction false} MergeBreaksTies<A>(a: seq<A>, b: seq<A>, cmp: (A, A) -> int, dom: set<A>, x: A, y: A)
    requires Ordering(dom, cmp) && Ascending(a, cmp) && Elements(a) + Elements(b) <= dom
    requires x in a && y in b && cmp(x, y) <= 0
    ensures Precedes(Merged(a, b, cmp), x, y)
    decreases |a| + |b|
  {
    var first := cmp(a[0], b[0]) <= 0;
    assert a[0] in Elements(a) && b[0] in Elements(b) && x in Elements(a) && y in Elements(b);
    if first {
      if a[0] == x { InMerged(a[1..], b, cmp, y); } else { MergeBreaksTies(a[1..], b, cmp, dom, x, y); }
      PrecedesAfter(a[0], Merged(a[1..], b, cmp), x, y);
    } else {
      assert cmp(a[0], x) <= 0 && cmp(a[0], y) <= 0;
      assert y in b[1..];
      MergeBreaksTies(a, b[1..], cmp, dom, x, y);
      PrecedesAfter(b[0], Merged(a, b[1..], cmp), x, y);
    }
  }

  /** Of two tied elements the one that comes first at the lowest differing bit of the positions comes out first. */
  lemma {:induction false} TieOrder<A>(s: seq<A>, cmp: (A, A) -> int, dom: set<A>, i: nat, j: nat)
    requires Ordering(dom, cmp) && Elements(s) <= dom && i < |s| && j < |s| && Tied(s[i], s[j], cmp)
    requires LowBitFirst(i, j)
    ensures Precedes(Sorted(s, cmp), s[i], s[j])
    decreases |s|
  {
    var a, b := Sorted(Evens(s), cmp), Sorted(Odds(s), cmp);
    SplitAt(s, i);
    SplitAt(s, j);
    SplitFrom(s);
    if i % 2 != j % 2 {
      SortAscends(Evens(s), cmp, dom);
      SortKeeps(Evens(s), cmp);
      SortKeeps(Odds(s), cmp);
      assert s[i] in Elements(a) && s[j] in Elements(b);
      MergeBreaksTies(a, b, cmp, dom, s[i], s[j]);
    } else {
      TieOrder(if i % 2 == 0 then Evens(s) else Odds(s), cmp, dom, i / 2, j / 2);
      MergeKeepsOrder(a, b, cmp, s[i], s[j]);
    }
  }

  lemma {:induction false} OnceEach<A>(s: seq<A>)
    ensures Unrepeated(s) <==> forall x | x in multiset(s) :: multiset(s)[x] == 1
  {
    if s != [] {
      var t := s[1..];
      OnceEach(t);
      assert s == [s[0]] + t;
      assert s[0] in multiset(t) <==> s[0] in t;
      assert Unrepeated(s) <==> s[0] !in t && Unrepeated(t) by {
        forall i, j | 0 <= i < j < |s| && s[0] !in t && Unrepeated(t) ensures s[i] != s[j] {
          assert s[j] == t[j - 1] && (i > 0 ==> s[i] == t[i - 1]);
        }
        forall i, j | 0 <= i < j < |t| && Unrepeated(s) ensures t[i] != t[j] {
          assert t[i] == s[i + 1] && t[j] == s[j + 1];
        }
        if Unrepeated(s) { assert forall j | 0 <= j < |t| :: t[j] == s[j + 1]; }
      }
      forall x ensures multiset(s)[x] == multiset(t)[x] + (if x == s[0] then 1 else 0) { }
      assert s[0] in multiset(s);
    }
  }

  lemma SortedUnrepeated<A>(s: seq<A>, cmp: (A, A) -> int, x: A, y: A)
    requires Unrepeated(s) && Precedes(Sorted(s, cmp), x, y)
    ensures !Precedes(Sorted(s, cmp), y, x)
  {
    SortKeeps(s, cmp);
    OnceEach(s);
    OnceEach(Sorted(s, cmp));
  }

  /** The order of two tied elements after the sort, exactly: it does not depend on which of them was first. */
  lemma TiesExactly<A>(s: seq<A>, cmp: (A, A) -> int, i: nat, j: nat)
    requires Ordering(Elements(s), cmp) && Unrepeated(s) && i < |s| && j < |s| && i != j && Tied(s[i], s[j], cmp)
    ensures Precedes(Sorted(s, cmp), s[i], s[j]) <==> LowBitFirst(i, j)
  {
    OneIsFirst(i, j);
    if LowBitFirst(i, j) {
      TieOrder(s, cmp, Elements(s), i, j);
    } else {
      TieOrder(s, cmp, Elements(s), j, i);
      SortedUnrepeated(s, cmp, s[j], s[i]);
    }
  }

  /** All tied elements keep their order. */
  ghost predicate KeepsTies<A>(s: seq<A>, cmp: (A, A) -> int) {
    forall i, j | 0 <= i < j < |s| && Tied(s[i], s[j], cmp) :: Precedes(Sorted(s, cmp), s[i], s[j])
  }

  ghost predicate LowTiesFirst<A>(s: seq<A>, cmp: (A, A) -> int) {
    forall i, j | 0 <= i < j < |s| && Tied(s[i], s[j], cmp) :: LowBitFirst(i, j)
  }

  /** The sort is stable on exactly those lists in which of no two tied elements the first has the 1 at the lowest bit
      where their positions differ. */
  lemma StableExactly<A>(s: seq<A>, cmp: (A, A) -> int)
    requires Ordering(Elements(s), cmp) && Unrepeated(s)
    ensures KeepsTies(s, cmp) <==> LowTiesFirst(s, cmp)
  {
    if KeepsTies(s, cmp) {
      forall i, j | 0 <= i < j < |s| && Tied(s[i], s[j], cmp) ensures LowBitFirst(i, j) { TiesExactly(s, cmp, i, j); }
    }
    if LowTiesFirst(s, cmp) {
      forall i, j | 0 <= i < j < |s| && Tied(s[i], s[j], cmp) ensures Precedes(Sorted(s, cmp), s[i], s[j]) {
        TieOrder(s, cmp, Elements(s), i, j);
      }
    }
  }

  /** So it is not stable: of three equal elements the second comes out last. */
  lemma Unstable<A>(a: A, b: A, c: A, cmp: (A, A) -> int)
    requires cmp(a, b) == cmp(a, c) == cmp(c, b) == 0
    ensures Sorted([a, b, c], cmp) == [a, c, b]
  {
    assert [a, b, c][2..] == [c];
    assert Evens([a, b, c]) == [a, c] && Odds([a, b, c]) == [b];
    assert [a, c][2..] == [];
    assert Evens([a, c]) == [a] && Odds([a, c]) == [c];
    assert [a][1..] == [] && [c][1..] == [] && [a, c][1..] == [c];
    assert Merged([], [c], cmp) == [c];
    assert Sorted([a, c], cmp) == Merged([a], [c], cmp) == [a, c];
    assert Merged([c], [b], cmp) == [c, b];
  }
}

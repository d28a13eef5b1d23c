/** The removal of directories: attempts in the order of the tree, a deferred list, and a sweep of it in reverse path
    order. */
module DirRemovals {
  import opened Options
  import opened SyncRules
  import opened MergeSorts
  import opened CLists

  type Path = string

  /** strcmp(), by the bytes of the paths. */
  function StrCmp(a: Path, b: Path): int {
    if a == [] && b == [] then 0
    else if a == [] then -1
    else if b == [] then 1
    else if a[0] != b[0] then a[0] as int - b[0] as int
    else StrCmp(a[1..], b[1..])
  }

  lemma {:induction false} StrCmpTotal(a: Path, b: Path)
    ensures StrCmp(a, b) > 0 <==> StrCmp(b, a) < 0
  {
    if a != [] && b != [] && a[0] == b[0] { StrCmpTotal(a[1..], b[1..]); }
  }

  lemma {:induction false} StrCmpTransitive(a: Path, b: Path, c: Path)
    requires StrCmp(a, b) <= 0 && StrCmp(b, c) <= 0
    ensures StrCmp(a, c) <= 0
  {
    if a != [] && b != [] && c != [] && a[0] == b[0] == c[0] { StrCmpTransitive(a[1..], b[1..], c[1..]); }
  }

  /** The first place where two paths differ decides. */
  lemma {:induction false} FirstDifferenceDecides(a: Path, b: Path, k: nat)
    requires k < |a| && k < |b| && a[..k] == b[..k] && a[k] != b[k]
    ensures StrCmp(a, b) == a[k] as int - b[k] as int
  {
    if k > 0 {
      assert a[0] == a[..k][0] && b[0] == b[..k][0];
      assert a[1..][..k - 1] == a[..k][1..] && b[1..][..k - 1] == b[..k][1..];
      FirstDifferenceDecides(a[1..], b[1..], k - 1);
    }
  }

  lemma {:induction false} EqualOnly(a: Path, b: Path)
    ensures StrCmp(a, b) == 0 <==> a == b
  {
    if a != [] && b != [] && a[0] == b[0] {
      EqualOnly(a[1..], b[1..]);
      assert a == [a[0]] + a[1..] && b == [b[0]] + b[1..];
    }
  }

  /** `p` lies somewhere below the directory `d`. */
  predicate Below(p: Path, d: Path) { |d| + 1 < |p| && d + "/" == p[..|d| + 1] }

  /** What lies below a directory compares greater than it. */
  lemma BelowIsGreater(p: Path, d: Path)
    requires Below(p, d)
    ensures StrCmp(p, d) > 0
  {
    assert d == p[..|d|];
    PrefixIsLess(d, p);
  }

  lemma {:induction false} PrefixIsLess(d: Path, p: Path)
    requires |d| < |p| && d == p[..|d|]
    ensures StrCmp(p, d) > 0
  {
    if d != [] {
      assert d[0] == p[0] && d[1..] == p[1..][..|d| - 1];
      PrefixIsLess(d[1..], p[1..]);
    }
  }

  lemma BelowBelow(p: Path, q: Path, d: Path)
    requires Below(p, q) && Below(q, d)
    ensures Below(p, d)
  {
    assert p[..|d| + 1] == q[..|d| + 1] by { assert q == p[..|q|]; }
  }

  /** rmdir() works on a directory with nothing below it. */
  predicate Empty(entries: set<Path>, d: Path) { forall p | p in entries :: !Below(p, d) }

  /** A directory that can go: it is to be removed, and so is everything below it. */
  predicate Removable(entries: set<Path>, doomed: set<Path>, d: Path) {
    d in doomed && forall p | p in entries && Below(p, d) :: p in doomed
  }

  /** Of the entries `e0` those that are gone from `e` could go. */
  ghost predicate Fair(e0: set<Path>, e: set<Path>, doomed: set<Path>) {
    e <= e0 && forall p | p in e0 && p !in e :: Removable(e0, doomed, p)
  }

  lemma EmptyIsRemovable(e0: set<Path>, e: set<Path>, doomed: set<Path>, d: Path)
    requires Fair(e0, e, doomed) && Empty(e, d) && d in doomed
    ensures Removable(e0, doomed, d)
  {
  }

  /** What lies below a removable directory is removable itself. */
  lemma RemovableBelow(e0: set<Path>, doomed: set<Path>, p: Path, d: Path)
    requires Removable(e0, doomed, d) && p in e0 && Below(p, d)
    ensures Removable(e0, doomed, p)
  {
    forall q | q in e0 && Below(q, p) ensures q in doomed { BelowBelow(q, p, d); }
  }

  class DirStat {
    const path: Path
    var instruction: Instruction

    constructor (path: Path)
      ensures this.path == path && instruction == REMOVE
    {
      this.path, instruction := path, REMOVE;
    }
  }

  /** _csync_cleanup_cmp() */
  function CleanupCmp(a: DirStat, b: DirStat): int { StrCmp(a.path, b.path) }

  lemma CleanupOrders(nodes: set<Node<DirStat>>)
    ensures Ordering(nodes, ByData(CleanupCmp))
  {
    var c := ByData(CleanupCmp);
    forall a, b | a in nodes && b in nodes ensures c(a, b) > 0 ==> c(b, a) <= 0 {
      StrCmpTotal(a.data.path, b.data.path);
    }
    forall a, b, d | a in nodes && b in nodes && d in nodes ensures c(a, b) <= 0 && c(b, d) <= 0 ==> c(a, d) <= 0 {
      if c(a, b) <= 0 && c(b, d) <= 0 { StrCmpTransitive(a.data.path, b.data.path, d.data.path); }
    }
  }

  ghost function Paths(s: seq<Node<DirStat>>): set<Path> { set n | n in s :: n.data.path }

  datatype Errno = ENOTEMPTY | EACCES

  class Site {
    const stuck: set<Path>  // what rmdir() refuses for some other reason than content
    var entries: set<Path>
    var list: Node?<DirStat>
    ghost var deferred: seq<Node<DirStat>>

    constructor (entries: set<Path>, stuck: set<Path>)
      ensures this.entries == entries && this.stuck == stuck && list == null && deferred == []
    {
      this.entries, this.stuck, list, deferred := entries, stuck, null, [];
    }

    method Rmdir(d: Path) returns (error: Option<Errno>)
      modifies this`entries
      ensures error == if d in stuck then Some(EACCES) else if Empty(old(entries), d) then None else Some(ENOTEMPTY)
      ensures entries == if error == None then old(entries) - {d} else old(entries)
    {
      error := if d in stuck then Some(EACCES) else if Empty(entries, d) then None else Some(ENOTEMPTY);
      if error == None {
        entries := entries - {d};
      }
    }

    /** The visitor: removes the directory, or puts it off if there is something in it. */
    method RemoveDir(st: DirStat) returns (rc: int)
      requires List(deferred) && list == Head(deferred)
      modifies this, st, Nodes(deferred)
      ensures List(deferred) && list == Head(deferred) && rc == if st.path in stuck then 1 else 0
      ensures if st.path in stuck
              then entries == old(entries) && st.instruction == NONE && deferred == old(deferred)
              else if Empty(old(entries), st.path)
              then entries == old(entries) - {st.path} && st.instruction == DELETED && deferred == old(deferred)
              else entries == old(entries) && st.instruction == old(st.instruction)
                   && |deferred| == |old(deferred)| + 1 && deferred[1..] == old(deferred) && deferred[0].data == st
                   && fresh(deferred[0])
    {
      var error := Rmdir(st.path);
      rc := 0;
      if error == Some(ENOTEMPTY) {
        list := Prepend(list, st, deferred, 0);
        deferred := [list] + deferred;
      } else if error != None {
        rc := 1;
        st.instruction := NONE;
      } else {
        st.instruction := DELETED;
      }
    }

    /** The sweep: sorts the deferred directories by path, and tries them again from the last to the first. The field
        `list` keeps pointing at the node that was first before the sort. */
    method Cleanup(ghost e0: set<Path>, ghost doomed: set<Path>)
      requires List(deferred) && list == Head(deferred) && Distinct(deferred)
      requires Fair(e0, entries, doomed) && Paths(deferred) <= doomed * entries && doomed !! stuck
      requires AllIn(e0, entries, doomed, Paths(deferred))
      modifies this`entries, this`deferred, Nodes(deferred), Stats(deferred)
      ensures List(deferred) && (deferred == [] <==> list == null) && (list != null ==> list in deferred)
      ensures Nodes(deferred) == old(Nodes(deferred))
      ensures Fair(e0, entries, doomed) && AllIn(e0, entries, doomed, {}) && entries <= old(entries)
      ensures Told(deferred, 0)
    {
      if list == null {
        return;
      }
      var sorted := SortDeferred();
      var last := LastOf(sorted, deferred, 0);
      Sweep(last, e0, doomed);
    }

    method SortDeferred() returns (sorted: Node?<DirStat>)
      requires List(deferred) && list == Head(deferred) && list != null
      modifies this`deferred, Nodes(deferred)
      ensures List(deferred) && sorted == Head(deferred) && sorted != null && list in deferred && InOrder(deferred)
      ensures Elements(deferred) == old(Elements(deferred)) && Nodes(deferred) == old(Nodes(deferred))
      ensures Stats(deferred) == old(Stats(deferred))
      ensures Paths(deferred) == old(Paths(deferred)) && (old(Distinct(deferred)) ==> Distinct(deferred))
    {
      ghost var s := deferred;
      InPathOrder(s);
      sorted := Sort(list, CleanupCmp, s);
      deferred := Sorted(s, ByData(CleanupCmp));
      assert list in Nodes(s);
    }

    /** One attempt of the sweep. */
    method Retry(node: Node<DirStat>, ghost e0: set<Path>, ghost doomed: set<Path>, ghost i: nat)
      requires Sweeping(node, i + 1, e0, doomed) && InOrder(deferred) && Distinct(deferred)
      requires Paths(deferred) <= doomed && doomed !! stuck
      modifies this`entries, node.data
      ensures Sweeping(node.prev, i, e0, doomed) && entries <= old(entries)
    {
      Links(deferred, i);
      SweepStep(e0, entries, doomed, deferred, i);
      OthersDiffer(deferred, i);
      RetryOne(node.data);
    }

    method RetryOne(st: DirStat)
      requires st.path in entries && st.path !in stuck
      modifies this`entries, st
      ensures entries == if Empty(old(entries), st.path) then old(entries) - {st.path} else old(entries)
      ensures st.instruction == if st.path in entries then NONE else DELETED
    {
      var error := Rmdir(st.path);
      st.instruction := if error == None then DELETED else NONE;
    }

    /** The records from `i` on tell whether their directories are gone. */
    ghost predicate Told(s: seq<Node<DirStat>>, i: nat) reads this`entries, Stats(s) {
      forall j | i <= j < |s| ::
        && s[j].data in Stats(s)
        && s[j].data.instruction == if s[j].data.path in entries then NONE else DELETED
    }

    method Sweep(last: Node?<DirStat>, ghost e0: set<Path>, ghost doomed: set<Path>)
      requires List(deferred) && last == Last(deferred) && InOrder(deferred) && Distinct(deferred)
      requires Fair(e0, entries, doomed) && Paths(deferred) <= doomed * entries && doomed !! stuck
      requires AllIn(e0, entries, doomed, Paths(deferred))
      modifies this`entries, Stats(deferred)
      ensures List(deferred)
      ensures Fair(e0, entries, doomed) && AllIn(e0, entries, doomed, {}) && entries <= old(entries)
      ensures Told(deferred, 0)
    {
      var walk := last;
      ghost var i := |deferred|;
      if i > 0 { Links(deferred, i - 1); }
      assert deferred[..i] == deferred;
      while walk != null
        invariant Sweeping(walk, i, e0, doomed) && entries <= old(entries)
        decreases i
      {
        i := i - 1;
        Retry(walk, e0, doomed, i);
        walk := walk.prev;
      }
      assert Paths(deferred[..0]) == {};
    }

    /** The sweep has come down to the first `i` nodes. */
    ghost predicate Sweeping(walk: Node?<DirStat>, i: int, e0: set<Path>, doomed: set<Path>)
      reads this, Nodes(deferred), Stats(deferred)
    {
      && 0 <= i <= |deferred| && List(deferred) && walk == (if i == 0 then null else deferred[i - 1])
      && Fair(e0, entries, doomed) && AllIn(e0, entries, doomed, Paths(deferred[..i]))
      && Told(deferred, i) && Paths(deferred[..i]) <= entries
    }

    /** The directories to be removed that rmdir() does not refuse. */
    ghost function Doomed(stats: seq<DirStat>): set<Path> { PathsOf(stats) - stuck }

    /** The visits to the first `i` directories: each is gone, or waits in the list, or cannot go. */
    ghost predicate Visited(stats: seq<DirStat>, i: nat, e0: set<Path>)
      reads this, Nodes(deferred), set st | st in stats
      requires i <= |stats|
    {
      && List(deferred) && list == Head(deferred) && Distinct(deferred) && Fair(e0, entries, Doomed(stats))
      && (forall n | n in deferred :: n.data in stats[..i] && n.data.path in entries && n.data.path !in stuck)
      && (forall j | 0 <= j < i ::
            || (stats[j].path in entries && stats[j] in Stats(deferred))
            || (stats[j].path in entries && stats[j].path in stuck && stats[j].instruction == NONE)
            || (stats[j].path !in entries && stats[j].instruction == DELETED))
      && (forall j | i <= j < |stats| :: stats[j].path in entries)
    }

    method VisitNext(stats: seq<DirStat>, i: nat, ghost e0: set<Path>)
      requires i < |stats| && DistinctStats(stats) && Visited(stats, i, e0)
      modifies this, stats[i], Nodes(deferred)
      ensures Visited(stats, i + 1, e0) && forall n | n in deferred :: n in old(deferred) || fresh(n)
    {
      var d := stats[i].path;
      ghost var e, s := entries, deferred;
      if Empty(e, d) && d !in stuck { EmptyIsRemovable(e0, e, Doomed(stats), d); }
      assert stats[..i + 1] == stats[..i] + [stats[i]];
      assert forall n | n in s :: n.data.path != d;
      var _ := RemoveDir(stats[i]);
      if !Empty(e, d) && d !in stuck {
        assert deferred == [deferred[0]] + s;
      }
    }

    /** Removes directories, visited in any order: exactly those go that can be removed together with everything below
        them, and the records tell which. */
    method RemoveDirs(stats: seq<DirStat>)
      requires DistinctStats(stats) && PathsOf(stats) <= entries && list == null && deferred == []
      modifies this, set st | st in stats
      ensures entries == set p | p in old(entries) && !Removable(old(entries), Doomed(stats), p)
      ensures forall st | st in stats :: st.instruction ==
                if Removable(old(entries), Doomed(stats), st.path) then DELETED else NONE
      ensures List(deferred) && (list == null ==> deferred == []) && (list != null ==> list in deferred)
    {
      ghost var e0 := entries;
      var i := 0;
      while i < |stats|
        invariant 0 <= i <= |stats| && Visited(stats, i, e0) && forall n | n in deferred :: fresh(n)
      {
        VisitNext(stats, i, e0);
        i := i + 1;
      }
      assert stats[..i] == stats;
      CleanupVisited(stats, e0);
      AllGone(e0, entries, Doomed(stats));
    }

    /** Frees the list from the node that the replica still points at, wherever the sort has left it. */
    method FreeList() returns (freed: seq<Node<DirStat>>)
      requires List(deferred) && (list == null ==> deferred == []) && (list != null ==> list in deferred)
      modifies this`list, this`deferred
      ensures |freed| == |old(deferred)| && forall j | 0 <= j < |freed| :: freed[j] == old(deferred)[|freed| - 1 - j]
      ensures list == null && deferred == []
    {
      ghost var i := 0;
      if list != null {
        i :| 0 <= i < |deferred| && deferred[i] == list;
      }
      freed := Free(list, deferred, i);
      list, deferred := null, [];
    }

    method CleanupVisited(stats: seq<DirStat>, ghost e0: set<Path>)
      requires DistinctStats(stats) && Visited(stats, |stats|, e0)
      modifies this`entries, this`deferred, Nodes(deferred), Stats(deferred)
      ensures List(deferred) && (list == null ==> deferred == []) && (list != null ==> list in deferred)
      ensures Fair(e0, entries, Doomed(stats)) && AllIn(e0, entries, Doomed(stats), {})
      ensures forall st | st in stats :: st.instruction == if st.path in entries then NONE else DELETED
    {
      ghost var s, doomed, waiting := deferred, Doomed(stats), Stats(deferred);
      assert stats[..|stats|] == stats;
      forall p | p in entries && Removable(e0, doomed, p) ensures p in Paths(deferred) {
        var j :| 0 <= j < |stats| && stats[j].path == p;
      }
      Cleanup(e0, doomed);
      forall j | 0 <= j < |stats| ensures stats[j].instruction == if stats[j].path in entries then NONE else DELETED {
        if stats[j] in waiting {
          var n :| n in s && n.data == stats[j];
          assert n in Nodes(deferred);
          var k :| 0 <= k < |deferred| && deferred[k] == n;
        }
      }
    }
  }

  ghost function PathsOf(stats: seq<DirStat>): set<Path> { set st | st in stats :: st.path }

  ghost predicate DistinctStats(stats: seq<DirStat>) {
    forall i, j | 0 <= i < j < |stats| :: stats[i].path != stats[j].path
  }

  /** The deferred records belong to different directories. */
  ghost predicate Distinct(s: seq<Node<DirStat>>) {
    forall m, n | m in s && n in s && m != n :: m.data.path != n.data.path
  }

  lemma OthersDiffer(s: seq<Node<DirStat>>, i: nat)
    requires Chain(s) && Distinct(s) && i < |s|
    ensures forall j | 0 <= j < |s| && j != i :: s[j].data.path != s[i].data.path
    ensures Paths(s[..i]) <= Paths(s[..i + 1]) && s[i].data.path !in Paths(s[..i])
  {
    Links(s, i);
    assert s[..i + 1] == s[..i] + [s[i]];
  }

  /** Every directory comes before what lies below it. */
  ghost predicate InOrder(t: seq<Node<DirStat>>) {
    forall i, j | 0 <= i < |t| && 0 <= j < |t| && Below(t[j].data.path, t[i].data.path) :: i < j
  }

  /** Whatever could go and is still there is among these. */
  ghost predicate AllIn(e0: set<Path>, e: set<Path>, doomed: set<Path>, paths: set<Path>) {
    forall p | p in e && p in e0 && Removable(e0, doomed, p) :: p in paths
  }

  ghost function Stats(s: seq<Node<DirStat>>): set<DirStat> { set n | n in s :: n.data }

  /** One attempt of the sweep: by now everything below a removable directory is gone. */
  lemma SweepStep(e0: set<Path>, e: set<Path>, doomed: set<Path>, t: seq<Node<DirStat>>, i: nat)
    requires i < |t| && InOrder(t) && t[i].data.path in doomed && Fair(e0, e, doomed)
    requires AllIn(e0, e, doomed, Paths(t[..i + 1]))
    ensures var d := t[i].data.path; var e' := if Empty(e, d) then e - {d} else e;
            Fair(e0, e', doomed) && AllIn(e0, e', doomed, Paths(t[..i]))
  {
    var d := t[i].data.path;
    var e' := if Empty(e, d) then e - {d} else e;
    if Empty(e, d) { EmptyIsRemovable(e0, e, doomed, d); }
    if Removable(e0, doomed, d) {
      forall p | p in e && Below(p, d) ensures p in Paths(t[..i + 1]) { RemovableBelow(e0, doomed, p, d); }
    }
    forall p | p in Paths(t[..i + 1]) ensures !Below(p, d) {
      var j :| 0 <= j <= i && t[..i + 1][j].data.path == p;
      assert t[j].data.path == p;
    }
    forall p | p in e' && p in e0 && Removable(e0, doomed, p) ensures p in Paths(t[..i]) {
      assert p in Paths(t[..i + 1]) && p != d;
      assert t[..i + 1] == t[..i] + [t[i]];
    }
  }

  lemma AllGone(e0: set<Path>, e: set<Path>, doomed: set<Path>)
    requires Fair(e0, e, doomed) && AllIn(e0, e, doomed, {})
    ensures e == set p | p in e0 && !Removable(e0, doomed, p)
  {
  }

  /** A directory to be removed is gone exactly when no surviving entry lies below it. */
  lemma GoneExactly(e0: set<Path>, e: set<Path>, doomed: set<Path>, d: Path)
    requires e == (set p | p in e0 && !Removable(e0, doomed, p)) && d in e0 && d in doomed
    ensures d !in e <==> forall p | p in e :: !Below(p, d)
  {
    if Removable(e0, doomed, d) {
      forall p | p in e0 && Below(p, d) ensures p !in e { RemovableBelow(e0, doomed, p, d); }
    }
  }

  lemma InPathOrder(s: seq<Node<DirStat>>)
    ensures var t := Sorted(s, ByData(CleanupCmp));
            InOrder(t) && Elements(t) == Elements(s) && Stats(t) == Stats(s) && Paths(t) == Paths(s)
                && (Distinct(s) ==> Distinct(t))
  {
    var t, c := Sorted(s, ByData(CleanupCmp)), ByData(CleanupCmp);
    CleanupOrders(Elements(s));
    SortIsRight(s, c);
    SortKeeps(s, c);
    assert forall n :: n in t <==> n in Elements(t);
    assert forall n :: n in s <==> n in Elements(s);
    forall i, j | 0 <= i < |t| && 0 <= j < |t| && Below(t[j].data.path, t[i].data.path) ensures i < j {
      BelowIsGreater(t[j].data.path, t[i].data.path);
      assert c(t[j], t[i]) > 0;
    }
  }
}

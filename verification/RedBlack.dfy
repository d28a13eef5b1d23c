/** Red-black trees as values: every node of a tree with its links, and what the rules of the tree demand of them. */
module RedBlack {
  import opened Options
  import opened Powers

  const HASH_LIMIT: int := 0x1_0000_0000_0000_0000

  /** The 64-bit hash of a path, under which its record is kept. */
  type Hash = h: int | 0 <= h < HASH_LIMIT

  type Side = bool
  const L: Side := false
  const R: Side := true

  /** One node. `lo` and `hi` bound the keys that may occur at or below it, `bh` is its black height. */
  datatype Cell<N> = Cell(left: N, right: N, parent: Option<N>, red: bool, key: int, lo: int, hi: int, bh: nat) {
    ghost function Kid(s: Side): N { if s then right else left }
    ghost function SetKid(s: Side, k: N): Cell<N> { if s then this.(right := k) else this.(left := k) }
    ghost function Bound(s: Side): int { if s then hi else lo }
    ghost function Bare(): Cell<N> { this.(lo := 0, hi := 0, bh := 0) }
    ghost function SetBound(s: Side, b: int): Cell<N> { if s then this.(hi := b) else this.(lo := b) }
  }

  datatype Debt<N> = NoDebt | Owes(node: N, side: Side)

  ghost predicate Between(a: int, k: int, b: int) { a < k < b || b < k < a }

  datatype Graph<N(==)> = Graph(nil: N, root: N, cells: map<N, Cell<N>>) {

    ghost predicate KidOk(n: N, s: Side) requires n in cells {
      var k := cells[n].Kid(s);
      k == nil ||
      (k in cells && cells[k].parent == Some(n) && cells[k].Bound(s) == cells[n].Bound(s)
          && cells[k].Bound(!s) == cells[n].key)
    }

    ghost predicate ParentOk(n: N) requires n in cells {
      match cells[n].parent
      case None => n == root
      case Some(p) => p in cells && (cells[p].left == n || cells[p].right == n)
    }

    ghost predicate GapOk(n: N, s: Side, m: N) requires n in cells && m in cells {
      cells[n].Kid(s) == nil ==> !Between(cells[n].key, cells[m].key, cells[n].Bound(s))
    }

    ghost predicate RootOk() {
      if root == nil then cells == map[]
      else root in cells && cells[root].parent == None && cells[root].lo == -1 && cells[root].hi == HASH_LIMIT
    }

    ghost predicate Kids() { forall n, s {:trigger KidOk(n, s)} | n in cells :: KidOk(n, s) }
    ghost predicate Parents() { forall n {:trigger ParentOk(n)} | n in cells :: ParentOk(n) }
    ghost predicate Gaps() { forall n, m, s {:trigger GapOk(n, s, m)} | n in cells && m in cells :: GapOk(n, s, m) }
    ghost predicate KeyOk(n: N) requires n in cells { -1 <= cells[n].lo < cells[n].key < cells[n].hi <= HASH_LIMIT }
    ghost predicate Apart(n: N, m: N) requires n in cells && m in cells { cells[n].key == cells[m].key ==> n == m }

    ghost predicate Keys() { forall n {:trigger KeyOk(n)} | n in cells :: KeyOk(n) }
    ghost predicate Distinct() { forall n, m {:trigger Apart(n, m)} | n in cells && m in cells :: Apart(n, m) }

    ghost predicate Shape() {
      nil !in cells && RootOk() && Keys() && Distinct() && Kids() && Parents() && Gaps()
    }

    ghost predicate Black(n: N) { n in cells ==> !cells[n].red }
    ghost function Bh(n: N): nat { if n in cells then cells[n].bh else 0 }

    /** Edges between two red nodes are allowed only into `up` and out of `down`; with `nil` for both, nowhere. */
    ghost predicate RedOk(n: N, s: Side, up: N, down: N) requires n in cells {
      cells[n].red && !Black(cells[n].Kid(s)) ==> cells[n].Kid(s) == up || n == down
    }
    ghost predicate RedRule(up: N, down: N) {
      forall n, s {:trigger RedOk(n, s, up, down)} | n in cells :: RedOk(n, s, up, down)
    }

    /** Black heights agree on every side, except that the side that owes one black node is one short. */
    ghost predicate HeightOk(n: N, s: Side, debt: Debt<N>) requires n in cells {
      Bh(cells[n].Kid(s)) + (if debt == Owes(n, s) then 1 else 0) == cells[n].bh - (if cells[n].red then 0 else 1)
    }
    ghost predicate Balanced(debt: Debt<N>) {
      forall n, s {:trigger HeightOk(n, s, debt)} | n in cells :: HeightOk(n, s, debt)
    }

    /** All the rules of a red-black tree. */
    ghost predicate Valid() {
      Shape() && Black(root) && RedRule(nil, nil) && Balanced(NoDebt)
    }

    ghost function Paint(n: N, red: bool, bh: nat): Graph<N> requires n in cells {
      Graph(nil, root, cells[n := cells[n].(red := red, bh := bh)])
    }

    ghost predicate SameLinks(g: Graph<N>) {
      && nil == g.nil && root == g.root && cells.Keys == g.cells.Keys
      && forall n | n in cells :: cells[n].(red := false, bh := 0) == g.cells[n].(red := false, bh := 0)
    }

    ghost function RotCell(x: N, s: Side, n: N): Cell<N>
      requires n in cells && x in cells && cells[x].Kid(!s) in cells
    {
      var y := cells[x].Kid(!s);
      var c := cells[n];
      if n == y then c.SetKid(s, x).SetBound(s, cells[x].Bound(s)).(parent := cells[x].parent)
      else if n == x then c.SetKid(!s, cells[y].Kid(s)).SetBound(!s, cells[y].key).(parent := Some(y))
      else if n == cells[y].Kid(s) then c.(parent := Some(x))
      else if cells[x].parent == Some(n) then c.SetKid(c.right == x, y)
      else c
    }

    ghost function Rot(x: N, s: Side): Graph<N>
      requires x in cells && cells[x].Kid(!s) in cells
    {
      Graph(nil, if cells[x].parent.None? then cells[x].Kid(!s) else root, map n | n in cells :: RotCell(x, s, n))
    }

    /** A rotation at `x` touches four distinct nodes, linked as the rules say. */
    ghost predicate Pivot(x: N, s: Side) {
      && nil !in cells
      && x in cells
      && KidOk(x, s) && KidOk(x, !s) && ParentOk(x) && KeyOk(x)
      && var y := cells[x].Kid(!s);
      && y in cells && y != x && KidOk(y, s) && KidOk(y, !s) && KeyOk(y)
      && cells[y].Kid(s) != x && cells[y].Kid(s) != y
      && (cells[x].parent.Some? ==>
            var p := cells[x].parent.value;
            && p in cells && p != x && p != y && p != cells[y].Kid(s)
            && cells[p].left != cells[p].right
            && cells[p].Kid(cells[p].right == x) == x
            && KidOk(p, L) && KidOk(p, R))
    }
  }

  lemma PivotOf<N>(g: Graph<N>, x: N, s: Side)
    requires g.Shape() && x in g.cells && g.cells[x].Kid(!s) != g.nil
    ensures g.Pivot(x, s)
  {
    assert g.KidOk(x, !s) && g.KidOk(x, s) && g.KeyOk(x);
    var y := g.cells[x].Kid(!s);
    assert g.KidOk(y, s) && g.KidOk(y, !s) && g.KeyOk(y);
    assert g.ParentOk(x);
    if g.cells[x].parent.Some? {
      var p := g.cells[x].parent.value;
      assert g.KidOk(p, L) && g.KidOk(p, R) && g.KeyOk(p);
    }
  }

  /** What hangs on side `t` of `n` after a rotation. */
  lemma KidAfterRot<N>(g: Graph<N>, x: N, s: Side, n: N, t: Side)
    requires g.Pivot(x, s) && n in g.cells && g.KidOk(n, t)
    ensures var y, k := g.cells[x].Kid(!s), g.RotCell(x, s, n).Kid(t);
            && (n == y ==> k == if t == s then x else g.cells[y].Kid(t))
            && (n == x ==> k == if t == s then g.cells[x].Kid(t) else g.cells[y].Kid(s))
            && (n != x && n != y ==> k == if g.cells[n].Kid(t) == x then y else g.cells[n].Kid(t))
  {
  }

  /** The links that a rotation gives each node. */
  ghost predicate RotLinked<N>(g: Graph<N>, x: N, s: Side, r: Graph<N>) {
    && x in g.cells && r.nil == g.nil && r.cells.Keys == g.cells.Keys
    && var y := g.cells[x].Kid(!s);
    && y in g.cells && var b, p := g.cells[y].Kid(s), g.cells[x].parent;
    && (p.Some? ==> p.value in g.cells)
    && r.root == (if p == None then y else g.root)
    && r.cells[y].Bare() == g.cells[y].Bare().SetKid(s, x).(parent := p)
    && r.cells[x].Bare() == g.cells[x].Bare().SetKid(!s, b).(parent := Some(y))
    && (b in g.cells ==> r.cells[b].Bare() == g.cells[b].Bare().(parent := Some(x)))
    && (p.Some? ==> r.cells[p.value].Bare() == g.cells[p.value].Bare().SetKid(g.cells[p.value].right == x, y))
    && forall n | n in g.cells && n != x && n != y && n != b && p != Some(n) ::
         r.cells[n].Bare() == g.cells[n].Bare()
  }

  lemma RotLinks<N>(g: Graph<N>, x: N, s: Side)
    requires g.Pivot(x, s)
    ensures RotLinked(g, x, s, g.Rot(x, s))
  {
  }

  lemma RotKids<N>(g: Graph<N>, x: N, s: Side, n: N, t: Side)
    requires g.Pivot(x, s) && n in g.cells && g.KidOk(n, t)
    ensures g.Rot(x, s).KidOk(n, t)
  {
    KidAfterRot(g, x, s, n, t);
  }

  lemma RotParents<N>(g: Graph<N>, x: N, s: Side, n: N)
    requires g.Pivot(x, s) && n in g.cells && g.ParentOk(n)
    ensures g.Rot(x, s).ParentOk(n)
  {
  }

  lemma RotGaps<N>(g: Graph<N>, x: N, s: Side, n: N, t: Side, m: N)
    requires g.Pivot(x, s) && n in g.cells && m in g.cells && g.KidOk(n, t)
    requires g.GapOk(n, t, m) && g.GapOk(g.cells[x].Kid(!s), s, m)
    ensures g.Rot(x, s).GapOk(n, t, m)
  {
    KidAfterRot(g, x, s, n, t);
  }

  lemma RotAllKids<N>(g: Graph<N>, x: N, s: Side)
    requires g.Pivot(x, s) && g.Kids()
    ensures g.Rot(x, s).Kids()
  {
    forall n, t | n in g.cells ensures g.Rot(x, s).KidOk(n, t) { assert g.KidOk(n, t); RotKids(g, x, s, n, t); }
  }
  lemma RotAllParents<N>(g: Graph<N>, x: N, s: Side)
    requires g.Pivot(x, s) && g.Parents()
    ensures g.Rot(x, s).Parents()
  {
    forall n | n in g.cells ensures g.Rot(x, s).ParentOk(n) { assert g.ParentOk(n); RotParents(g, x, s, n); }
  }
  lemma RotAllGaps<N>(g: Graph<N>, x: N, s: Side)
    requires g.Pivot(x, s) && g.Kids() && g.Gaps()
    ensures g.Rot(x, s).Gaps()
  {
    forall n, m, t | n in g.cells && m in g.cells ensures g.Rot(x, s).GapOk(n, t, m) {
      assert g.KidOk(n, t) && g.GapOk(n, t, m) && g.GapOk(g.cells[x].Kid(!s), s, m);
      RotGaps(g, x, s, n, t, m);
    }
  }
  lemma RotKeys<N>(g: Graph<N>, x: N, s: Side)
    requires g.Pivot(x, s) && g.Keys() && g.Distinct() && g.RootOk()
    ensures g.Rot(x, s).Keys() && g.Rot(x, s).Distinct() && g.Rot(x, s).RootOk()
  {
    var g' := g.Rot(x, s);
    forall n | n in g'.cells ensures g'.KeyOk(n) { assert g.KeyOk(n); RotKeyAt(g, x, s, n); }
    forall n, m | n in g'.cells && m in g'.cells ensures g'.Apart(n, m) {
      assert g.Apart(n, m);
      RotKeyAt(g, x, s, n);
      RotKeyAt(g, x, s, m);
    }
  }

  lemma RotKeyAt<N>(g: Graph<N>, x: N, s: Side, n: N)
    requires g.Pivot(x, s) && n in g.cells
    ensures g.RotCell(x, s, n).key == g.cells[n].key
    ensures g.KeyOk(n) ==> g.Rot(x, s).KeyOk(n)
  {
  }

  lemma RotShape<N>(g: Graph<N>, x: N, s: Side)
    requires g.Shape() && x in g.cells && g.cells[x].Kid(!s) != g.nil
    ensures g.cells[x].Kid(!s) in g.cells
    ensures g.Rot(x, s).Shape()
  {
    PivotOf(g, x, s);
    RotAllKids(g, x, s);
    RotAllParents(g, x, s);
    RotAllGaps(g, x, s);
    RotKeys(g, x, s);
  }

  lemma PaintShape<N>(g: Graph<N>, g': Graph<N>)
    requires g.Shape() && g.SameLinks(g')
    ensures g'.Shape()
  {
    forall n | n in g'.cells ensures g'.KeyOk(n) { assert g.KeyOk(n); }
    forall n, m | n in g'.cells && m in g'.cells ensures g'.Apart(n, m) { assert g.Apart(n, m); }
    forall n, s | n in g'.cells ensures g'.KidOk(n, s) { assert g.KidOk(n, s); }
    forall n | n in g'.cells ensures g'.ParentOk(n) { assert g.ParentOk(n); }
    forall n, m, s | n in g'.cells && m in g'.cells ensures g'.GapOk(n, s, m) { assert g.GapOk(n, s, m); }
  }

  /** The loop invariant of the insert fix-up at node `x`. */
  ghost predicate Fixing<N>(g: Graph<N>, x: N) {
    && g.Shape() && g.Balanced(NoDebt) && g.RedRule(x, g.nil)
    && x in g.cells && g.cells[x].red
    && (g.root != x ==> g.Black(g.root))
  }

  /** Where a fix-up step finds the parent, grandparent and uncle of `x`. */
  lemma Family<N>(g: Graph<N>, x: N)
    requires Fixing(g, x) && x != g.root
    ensures g.cells[x].parent.Some? && g.cells[x].parent.value in g.cells
    ensures var p := g.cells[x].parent.value;
            && (g.cells[p].left == x || g.cells[p].right == x) && g.cells[p].left != g.cells[p].right
            && (g.cells[p].red ==>
                  && p != g.root && g.cells[p].parent.Some? && g.cells[p].parent.value in g.cells
                  && !g.cells[g.cells[p].parent.value].red
                  && var gp := g.cells[g.cells[p].parent.value];
                  && (gp.left == p || gp.right == p) && gp.left != gp.right
                  && (gp.left == g.nil || gp.left in g.cells) && (gp.right == g.nil || gp.right in g.cells)
                  && gp.left != g.cells[p].parent.value && gp.right != g.cells[p].parent.value)
  {
    assert g.ParentOk(x);
    var p := g.cells[x].parent.value;
    assert g.ParentOk(p) && g.KidOk(p, L) && g.KidOk(p, R) && g.KeyOk(p);
    if g.cells[p].red {
      var gp := g.cells[p].parent.value;
      assert g.KeyOk(gp);
      assert g.RedOk(gp, L, x, g.nil) && g.RedOk(gp, R, x, g.nil);
      assert g.KidOk(gp, L) && g.KidOk(gp, R);
    }
  }

  /** The red children of the black node `gp`. */
  ghost predicate Trio<N>(g: Graph<N>, gp: N, s: Side) {
    && gp in g.cells && g.KidOk(gp, s) && g.KidOk(gp, !s) && g.nil !in g.cells
    && var p, u := g.cells[gp].Kid(s), g.cells[gp].Kid(!s);
    && p in g.cells && u in g.cells && p != u && p != gp && u != gp
    && g.cells[p].red && g.cells[u].red && !g.cells[gp].red
  }

  ghost function Recolored<N>(g: Graph<N>, gp: N): Graph<N>
    requires gp in g.cells
  {
    Graph(g.nil, g.root, map n | n in g.cells ::
      if n == gp then g.cells[n].(red := true)
      else if n == g.cells[gp].left || n == g.cells[gp].right then g.cells[n].(red := false, bh := g.cells[n].bh + 1)
      else g.cells[n])
  }

  lemma RecolorAt<N>(g: Graph<N>, x: N, gp: N, s: Side, n: N, t: Side)
    requires Trio(g, gp, s) && n in g.cells
    requires g.KidOk(n, t) && g.HeightOk(n, t, NoDebt) && g.RedOk(n, t, x, g.nil)
    requires x in g.cells && g.cells[x].parent == Some(g.cells[gp].Kid(s))
    ensures Recolored(g, gp).HeightOk(n, t, NoDebt)
    ensures Recolored(g, gp).RedOk(n, t, gp, g.nil)
  {
  }

  ghost predicate ParentRed<N>(g: Graph<N>, x: N) {
    x in g.cells && g.cells[x].parent.Some? && !g.Black(g.cells[x].parent.value)
  }

  /** The part of the key space a node does not span: it shrinks as the insert fix-up climbs. */
  ghost function ToClimb<N>(g: Graph<N>, x: N): nat {
    if x in g.cells && g.KeyOk(x) then HASH_LIMIT + 1 - (g.cells[x].hi - g.cells[x].lo) else 0
  }

  /** From `x` in `g` the fix-up went on to `up` in `g'`: it climbed, or it is done. */
  ghost predicate Stepped<N>(g: Graph<N>, x: N, g': Graph<N>, up: N) {
    Fixing(g', up) && (ParentRed(g', up) ==> ToClimb(g', up) < ToClimb(g, x))
  }

  lemma InsertRecolor<N>(g: Graph<N>, x: N, gp: N, s: Side)
    requires Fixing(g, x) && x != g.root
    requires g.cells[x].parent.Some?
    requires var p := g.cells[x].parent.value; p in g.cells && g.cells[p].red && g.cells[p].parent == Some(gp)
    requires gp in g.cells && g.cells[gp].Kid(s) == g.cells[x].parent.value && !g.Black(g.cells[gp].Kid(!s))
    ensures Stepped(g, x, Recolored(g, gp), gp)
  {
    Family(g, x);
    assert g.KidOk(gp, s) && g.KeyOk(gp) && g.KeyOk(x) && g.KeyOk(g.cells[x].parent.value)
        && g.KidOk(g.cells[x].parent.value, L) && g.KidOk(g.cells[x].parent.value, R);
    var g' := Recolored(g, gp);
    assert Trio(g, gp, s) by { assert g.KidOk(gp, s) && g.KidOk(gp, !s); }
    PaintShape(g, g');
    forall n, t | n in g.cells ensures g'.HeightOk(n, t, NoDebt) && g'.RedOk(n, t, gp, g.nil) {
      assert g.HeightOk(n, t, NoDebt) && g.KidOk(n, t) && g.RedOk(n, t, x, g.nil);
      RecolorAt(g, x, gp, s, n, t);
    }
  }

  /** A rotation between two red nodes keeps colors and black heights in order. */
  lemma RotRedsAt<N>(g: Graph<N>, x: N, s: Side, n: N, t: Side)
    requires g.Pivot(x, s) && n in g.cells && g.KidOk(n, t)
    requires var y := g.cells[x].Kid(!s);
             && g.cells[x].red && g.cells[y].red && g.HeightOk(x, !s, NoDebt) && g.HeightOk(y, s, NoDebt)
             && g.RedOk(n, t, y, g.nil) && g.RedOk(x, s, y, g.nil) && g.RedOk(y, s, y, g.nil)
    requires g.HeightOk(n, t, NoDebt)
    requires g.cells[x].parent.Some? ==> g.Black(g.cells[x].parent.value)
    ensures g.Rot(x, s).HeightOk(n, t, NoDebt)
    ensures g.Rot(x, s).RedOk(n, t, x, g.nil)
  {
    KidAfterRot(g, x, s, n, t);
  }

  lemma InsertInner<N>(g: Graph<N>, x: N, p: N, s: Side)
    requires Fixing(g, x) && x != g.root && g.cells[x].parent == Some(p) && p in g.cells && g.cells[p].red
    requires g.cells[p].Kid(!s) == x
    ensures Fixing(g.Rot(p, s), p) && p != g.Rot(p, s).root
  {
    Family(g, x);
    PivotOf(g, p, s);
    RotShape(g, p, s);
    var g' := g.Rot(p, s);
    assert g.HeightOk(p, !s, NoDebt) && g.HeightOk(x, s, NoDebt) && g.RedOk(p, s, x, g.nil) && g.RedOk(x, s, x, g.nil);
    forall n, t | n in g.cells ensures g'.HeightOk(n, t, NoDebt) && g'.RedOk(n, t, p, g.nil) {
      assert g.HeightOk(n, t, NoDebt) && g.KidOk(n, t) && g.RedOk(n, t, x, g.nil);
      RotRedsAt(g, p, s, n, t);
    }
  }

  ghost function LiftedCell<N>(g: Graph<N>, gp: N, s: Side, n: N): Cell<N>
    requires n in g.cells && gp in g.cells && g.cells[gp].Kid(s) in g.cells
  {
    var c := g.RotCell(gp, !s, n);
    if n == g.cells[gp].Kid(s) then c.(red := false, bh := g.cells[gp].bh)
    else if n == gp then c.(red := true, bh := g.cells[g.cells[gp].Kid(s)].bh)
    else c
  }

  /** The grandparent turned red and rotated under its child on side `s`, which turned black. */
  ghost function Lifted<N>(g: Graph<N>, gp: N, s: Side): Graph<N>
    requires gp in g.cells && g.cells[gp].Kid(s) in g.cells
  {
    Graph(g.nil, g.Rot(gp, !s).root, map n | n in g.cells :: LiftedCell(g, gp, s, n))
  }

  /** The red child `p` of the black node `gp` on side `s` can be lifted over it: the nodes that come under `gp` are
      black. */
  ghost predicate Liftable<N>(g: Graph<N>, gp: N, s: Side, debt: Debt<N>) {
    && g.Pivot(gp, !s)
    && var p := g.cells[gp].Kid(s);
    && g.cells[p].red && !g.cells[gp].red && g.Black(g.cells[gp].Kid(!s)) && g.Black(g.cells[p].Kid(!s))
    && g.HeightOk(gp, s, debt) && g.HeightOk(p, !s, debt)
    && (debt.Owes? ==> debt.node != p && debt != Owes(gp, s))
  }

  lemma LiftHeightAt<N>(g: Graph<N>, gp: N, s: Side, debt: Debt<N>, n: N, t: Side)
    requires Liftable(g, gp, s, debt) && n in g.cells && g.KidOk(n, t) && g.HeightOk(n, t, debt)
    ensures Lifted(g, gp, s).HeightOk(n, t, debt)
  {
    KidAfterRot(g, gp, !s, n, t);
    LiftedBh(g, gp, s, g.RotCell(gp, !s, n).Kid(t));
  }

  /** Lifting exchanges two black heights. */
  lemma LiftedBh<N>(g: Graph<N>, gp: N, s: Side, k: N)
    requires gp in g.cells && g.cells[gp].Kid(s) in g.cells && gp != g.cells[gp].Kid(s)
    ensures var p := g.cells[gp].Kid(s);
            Lifted(g, gp, s).Bh(k) == if k == p then g.cells[gp].bh else if k == gp then g.cells[p].bh else g.Bh(k)
  {
  }

  lemma LiftRedAt<N>(g: Graph<N>, gp: N, s: Side, debt: Debt<N>, n: N, t: Side, up: N)
    requires Liftable(g, gp, s, debt) && n in g.cells && g.KidOk(n, t) && g.RedOk(n, t, up, g.nil)
    ensures Lifted(g, gp, s).RedOk(n, t, up, g.nil)
  {
    KidAfterRot(g, gp, !s, n, t);
  }

  lemma Lift<N>(g: Graph<N>, gp: N, s: Side, debt: Debt<N>, up: N)
    requires Liftable(g, gp, s, debt) && g.Shape() && g.Balanced(debt) && g.RedRule(up, g.nil)
    ensures var g' := Lifted(g, gp, s);
            && g'.Shape() && g'.Balanced(debt) && g'.RedRule(up, g.nil) && (g.Black(g.root) ==> g'.Black(g'.root))
  {
    var g' := Lifted(g, gp, s);
    RotShape(g, gp, !s);
    PaintShape(g.Rot(gp, !s), g');
    forall n, t | n in g.cells ensures g'.HeightOk(n, t, debt) && g'.RedOk(n, t, up, g.nil) {
      assert g.HeightOk(n, t, debt) && g.KidOk(n, t) && g.RedOk(n, t, up, g.nil);
      LiftHeightAt(g, gp, s, debt, n, t);
      LiftRedAt(g, gp, s, debt, n, t, up);
    }
  }

  lemma LiftableOuter<N>(g: Graph<N>, x: N, p: N, gp: N, s: Side)
    requires Fixing(g, x) && x != g.root && g.cells[x].parent == Some(p) && p in g.cells && g.cells[p].red
    requires g.cells[p].parent == Some(gp) && gp in g.cells && g.cells[gp].Kid(s) == p && g.cells[p].Kid(s) == x
    requires g.Black(g.cells[gp].Kid(!s))
    ensures Liftable(g, gp, s, NoDebt)
  {
    Family(g, x);
    PivotOf(g, gp, !s);
    assert g.HeightOk(gp, s, NoDebt) && g.HeightOk(p, !s, NoDebt) && g.RedOk(p, !s, x, g.nil);
    assert g.KidOk(p, L) && g.KidOk(p, R);
  }

  lemma InsertOuter<N>(g: Graph<N>, x: N, p: N, gp: N, s: Side)
    requires Fixing(g, x) && x != g.root && g.cells[x].parent == Some(p) && p in g.cells && g.cells[p].red
    requires g.cells[p].parent == Some(gp) && gp in g.cells && g.cells[gp].Kid(s) == p && g.cells[p].Kid(s) == x
    requires g.Black(g.cells[gp].Kid(!s))
    ensures Stepped(g, x, Lifted(g, gp, s), x)
  {
    LiftableOuter(g, x, p, gp, s);
    Lift(g, gp, s, NoDebt, x);
  }

  // ---------- deletion of a node with at most one child ----------

  ghost function OnlyKid<N>(g: Graph<N>, y: N): N requires y in g.cells {
    if g.cells[y].left != g.nil then g.cells[y].left else g.cells[y].right
  }

  ghost function SplicedCell<N>(g: Graph<N>, y: N, n: N): Cell<N>
    requires n in g.cells && y in g.cells
  {
    var c, d := g.cells[n], g.cells[y];
    if n == OnlyKid(g, y) then c.(parent := d.parent, lo := d.lo, hi := d.hi)
    else if d.parent == Some(n) then c.SetKid(c.right == y, OnlyKid(g, y))
    else c
  }

  /** The tree with `y` taken out and its only child in its place. */
  ghost function Spliced<N>(g: Graph<N>, y: N): Graph<N>
    requires y in g.cells
  {
    Graph(g.nil, if g.cells[y].parent.None? then OnlyKid(g, y) else g.root,
          map n | n in g.cells && n != y :: SplicedCell(g, y, n))
  }

  /** The links that splicing `y` out gives each node. */
  lemma SplicedLinks<N>(g: Graph<N>, y: N)
    requires Twig(g, y)
    ensures var x, p, c := OnlyKid(g, y), g.cells[y].parent, Spliced(g, y).cells;
            && c.Keys == g.cells.Keys - {y}
            && (x != g.nil ==> x in c && c[x].Bare() == g.cells[x].Bare().(parent := p))
            && (p.Some? ==>
                  && p.value in c
                  && c[p.value].Bare() == g.cells[p.value].Bare().SetKid(g.cells[p.value].right == y, x))
            && forall n | n in c && n != x && p != Some(n) :: c[n] == g.cells[n]
  {
  }

  ghost function DebtOf<N>(g: Graph<N>, y: N): Debt<N>
    requires y in g.cells && (g.cells[y].parent.Some? ==> g.cells[y].parent.value in g.cells)
  {
    match g.cells[y].parent
    case None => NoDebt
    case Some(p) => Owes(p, g.cells[p].right == y)
  }

  /** A node with at most one child; the rules make that child a red node without children. */
  ghost predicate Twig<N>(g: Graph<N>, y: N) {
    && g.nil !in g.cells && y in g.cells && g.KidOk(y, L) && g.KidOk(y, R) && g.ParentOk(y)
    && (g.cells[y].left == g.nil || g.cells[y].right == g.nil)
    && g.KeyOk(y)
    && g.cells[y].bh == (if g.cells[y].red then 0 else 1)
    && var x := OnlyKid(g, y);
    && x != y
    && (x != g.nil ==>
          && x in g.cells && g.cells[x].left == g.nil && g.cells[x].right == g.nil && g.cells[x].red
          && !g.cells[y].red && g.cells[x].bh == 0)
    && (g.cells[y].parent.Some? ==>
          var p := g.cells[y].parent.value;
          && p in g.cells && p != x && p != y && g.cells[p].left != g.cells[p].right
          && g.KidOk(p, L) && g.KidOk(p, R) && g.cells[p].Kid(g.cells[p].right == y) == y)
  }

  lemma TwigOf<N>(g: Graph<N>, y: N)
    requires g.Valid() && y in g.cells && (g.cells[y].left == g.nil || g.cells[y].right == g.nil)
    ensures Twig(g, y)
  {
    var x := OnlyKid(g, y);
    assert g.KidOk(y, L) && g.KidOk(y, R) && g.HeightOk(y, L, NoDebt) && g.HeightOk(y, R, NoDebt);
    if x != g.nil {
      assert g.RedOk(y, L, g.nil, g.nil) && g.RedOk(y, R, g.nil, g.nil);
      assert g.KidOk(x, L) && g.KidOk(x, R) && g.HeightOk(x, L, NoDebt) && g.HeightOk(x, R, NoDebt);
      BlackIsTall(g, x);
      RedLeaf(g, x);
    }
    assert g.ParentOk(y);
    if g.cells[y].parent.Some? {
      var p := g.cells[y].parent.value;
      assert g.KidOk(p, L) && g.KidOk(p, R) && g.KeyOk(p);
    }
  }

  lemma BlackIsTall<N>(g: Graph<N>, n: N)
    requires n in g.cells && g.HeightOk(n, L, NoDebt)
    ensures !g.cells[n].red ==> g.cells[n].bh >= 1
  {
  }

  lemma RedLeaf<N>(g: Graph<N>, x: N)
    requires g.Valid() && x in g.cells && g.cells[x].red && g.cells[x].bh == 0
    ensures g.cells[x].left == g.nil && g.cells[x].right == g.nil
  {
    forall t ensures g.cells[x].Kid(t) == g.nil {
      var k := g.cells[x].Kid(t);
      assert g.KidOk(x, t) && g.HeightOk(x, t, NoDebt) && g.RedOk(x, t, g.nil, g.nil);
      assert k != g.nil ==> g.HeightOk(k, L, NoDebt);
    }
    assert g.cells[x].Kid(L) == g.nil && g.cells[x].Kid(R) == g.nil;
  }

  lemma SpliceLinks<N>(g: Graph<N>, y: N, n: N, t: Side)
    requires Twig(g, y) && n in g.cells && n != y && g.KidOk(n, t) && g.ParentOk(n)
    ensures Spliced(g, y).KidOk(n, t) && Spliced(g, y).ParentOk(n)
  {
    SpliceParent(g, y, n);
  }

  lemma SpliceParent<N>(g: Graph<N>, y: N, n: N)
    requires Twig(g, y) && n in g.cells && n != y && g.ParentOk(n)
    ensures Spliced(g, y).ParentOk(n)
  {
  }

  lemma SpliceGaps<N>(g: Graph<N>, y: N, n: N, t: Side, m: N)
    requires Twig(g, y) && n in g.cells && n != y && m in g.cells && m != y && g.cells[m].key != g.cells[y].key
    requires g.GapOk(n, t, m) && g.GapOk(y, L, m) && g.GapOk(y, R, m) && g.KidOk(n, t)
    ensures Spliced(g, y).GapOk(n, t, m)
  {
  }

  lemma SpliceRules<N>(g: Graph<N>, y: N, n: N, t: Side)
    requires Twig(g, y) && n in g.cells && n != y && g.KidOk(n, t) && g.HeightOk(n, t, NoDebt)
    requires g.RedOk(n, t, g.nil, g.nil)
    ensures Spliced(g, y).HeightOk(n, t, if g.cells[y].red then NoDebt else DebtOf(g, y))
    ensures Spliced(g, y).RedOk(n, t, OnlyKid(g, y), OnlyKid(g, y))
  {
  }

  lemma SpliceRoot<N>(g: Graph<N>, y: N)
    requires Twig(g, y) && g.Shape()
    ensures Spliced(g, y).RootOk() && Spliced(g, y).Keys() && Spliced(g, y).Distinct()
  {
    var g' := Spliced(g, y);
    forall n | n in g'.cells ensures g'.KeyOk(n) { assert g.KeyOk(n) && g.KidOk(y, L) && g.KidOk(y, R); }
    forall n, m | n in g'.cells && m in g'.cells ensures g'.Apart(n, m) { assert g.Apart(n, m); }
    if g'.root == g.nil {
      forall m | m in g.cells ensures m == y {
        assert g.KeyOk(m) && g.Apart(m, y) && g.GapOk(y, L, m) && g.GapOk(y, R, m);
      }
    }
  }

  lemma SpliceShape<N>(g: Graph<N>, y: N)
    requires Twig(g, y) && g.Shape()
    ensures Spliced(g, y).Shape()
  {
    var g' := Spliced(g, y);
    SpliceRoot(g, y);
    forall n, t | n in g'.cells ensures g'.KidOk(n, t) {
      assert g.KidOk(n, t) && g.ParentOk(n);
      SpliceLinks(g, y, n, t);
    }
    forall n | n in g'.cells ensures g'.ParentOk(n) {
      assert g.KidOk(n, L) && g.ParentOk(n);
      SpliceLinks(g, y, n, L);
    }
    forall n, m, t | n in g'.cells && m in g'.cells ensures g'.GapOk(n, t, m) {
      assert g.GapOk(n, t, m) && g.GapOk(y, L, m) && g.GapOk(y, R, m) && g.KidOk(n, t) && g.Apart(m, y);
      SpliceGaps(g, y, n, t, m);
    }
  }

  /** The loop invariant of the delete fix-up: the subtree at `x`, which may be the sentinel, is one black node short.
      */
  ghost predicate Repairing<N>(g: Graph<N>, x: N, debt: Debt<N>) {
    && g.Shape() && g.Balanced(debt) && g.RedRule(x, x)
    && (g.root != x ==> g.Black(g.root))
    && match debt
       case NoDebt => x == g.root
       case Owes(p, s) => p in g.cells && g.cells[p].Kid(s) == x
  }

  lemma DeleteStart<N>(g: Graph<N>, y: N)
    requires g.Valid() && y in g.cells && (g.cells[y].left == g.nil || g.cells[y].right == g.nil)
    ensures g.ParentOk(y)
    ensures !g.cells[y].red ==> Repairing(Spliced(g, y), OnlyKid(g, y), DebtOf(g, y))
    ensures g.cells[y].red ==> Spliced(g, y).Valid()
  {
    assert g.ParentOk(y);
    TwigOf(g, y);
    SpliceShape(g, y);
    SpliceColors(g, y);
  }

  lemma SpliceColors<N>(g: Graph<N>, y: N)
    requires Twig(g, y) && g.Kids() && g.Balanced(NoDebt) && g.RedRule(g.nil, g.nil)
    ensures Spliced(g, y).Balanced(if g.cells[y].red then NoDebt else DebtOf(g, y))
    ensures Spliced(g, y).RedRule(OnlyKid(g, y), OnlyKid(g, y))
  {
    var g' := Spliced(g, y);
    var debt := if g.cells[y].red then NoDebt else DebtOf(g, y);
    forall n, t | n in g'.cells ensures g'.HeightOk(n, t, debt) && g'.RedOk(n, t, OnlyKid(g, y), OnlyKid(g, y)) {
      assert g.KidOk(n, t) && g.HeightOk(n, t, NoDebt) && g.RedOk(n, t, g.nil, g.nil);
      SpliceRules(g, y, n, t);
    }
  }

  /** The sibling of a short subtree is a real node, and `p`, `w` and the far child of `w` can be rotated. */
  lemma Sibling<N>(g: Graph<N>, x: N, p: N, s: Side)
    requires Repairing(g, x, Owes(p, s)) && g.Black(x)
    ensures var w := g.cells[p].Kid(!s);
            && w in g.cells && w != x && g.cells[w].parent == Some(p)
            && g.Pivot(p, s) && g.HeightOk(p, s, Owes(p, s)) && g.HeightOk(p, !s, Owes(p, s))
            && g.HeightOk(w, s, Owes(p, s)) && g.HeightOk(w, !s, Owes(p, s)) && g.RedRule(g.nil, g.nil)
            && g.RedOk(p, !s, g.nil, g.nil) && g.RedOk(w, s, g.nil, g.nil) && g.RedOk(w, !s, g.nil, g.nil)
            && (g.cells[w].Kid(s) in g.cells ==>
                g.HeightOk(g.cells[w].Kid(s), !s, Owes(p, s)) && g.KidOk(g.cells[w].Kid(s), !s))
    ensures x != g.root
  {
    assert g.HeightOk(p, s, Owes(p, s)) && g.HeightOk(p, !s, Owes(p, s));
    PivotOf(g, p, s);
    assert g.KidOk(p, s);
    var w := g.cells[p].Kid(!s);
    assert g.HeightOk(w, s, Owes(p, s)) && g.HeightOk(w, !s, Owes(p, s));
    forall n, t | n in g.cells ensures g.RedOk(n, t, g.nil, g.nil) { assert g.RedOk(n, t, x, x) && g.KidOk(n, t); }
    assert g.KidOk(w, s);
    if g.cells[w].Kid(s) in g.cells {
      var i := g.cells[w].Kid(s);
      assert g.HeightOk(i, !s, Owes(p, s)) && g.KidOk(i, !s);
    }
  }

  lemma NoRedEdges<N>(g: Graph<N>, up: N, down: N)
    requires g.nil !in g.cells && g.RedRule(g.nil, g.nil)
    ensures g.RedRule(up, down)
  {
    forall n, t | n in g.cells ensures g.RedOk(n, t, up, down) { assert g.RedOk(n, t, g.nil, g.nil); }
  }

  /** Red sibling: the sibling comes up, and `x` gets a black one. */
  lemma RepairRedSibling<N>(g: Graph<N>, x: N, p: N, s: Side)
    requires Repairing(g, x, Owes(p, s)) && g.Black(x) && !g.Black(g.cells[p].Kid(!s))
    ensures g.cells[p].Kid(!s) in g.cells && Repairing(Lifted(g, p, !s), x, Owes(p, s))
    ensures Lifted(g, p, !s).cells[p].red
  {
    Sibling(g, x, p, s);
    assert Liftable(g, p, !s, Owes(p, s));
    Lift(g, p, !s, Owes(p, s), g.nil);
    NoRedEdges(Lifted(g, p, !s), x, x);
    assert Lifted(g, p, !s).cells[p].Kid(s) == x by { KidAfterRot(g, p, s, p, s); }
  }

  /** Black sibling with a black far child and a red near one: the near one comes up. */
  lemma RepairNearRed<N>(g: Graph<N>, x: N, p: N, s: Side)
    requires Repairing(g, x, Owes(p, s)) && g.Black(x)
    requires var w := g.cells[p].Kid(!s);
             && w in g.cells && g.Black(w) && !g.Black(g.cells[w].Kid(s))
             && g.Black(g.cells[w].Kid(!s))
    ensures var w := g.cells[p].Kid(!s); var g' := Lifted(g, w, s);
            && Repairing(g', x, Owes(p, s)) && g'.cells[p].Kid(!s) == g.cells[w].Kid(s)
            && !g'.cells[g.cells[w].Kid(s)].red && g'.cells[g.cells[w].Kid(s)].Kid(!s) == w && g'.cells[w].red
  {
    Sibling(g, x, p, s);
    var w := g.cells[p].Kid(!s);
    PivotOf(g, w, !s);
    assert g.RedOk(g.cells[w].Kid(s), !s, g.nil, g.nil);
    assert Liftable(g, w, s, Owes(p, s));
    Lift(g, w, s, Owes(p, s), g.nil);
    assert g.KidOk(p, s) && g.KidOk(p, !s);
    NoRedEdges(Lifted(g, w, s), x, x);
    KidAfterRot(g, w, !s, p, s);
    KidAfterRot(g, w, !s, p, !s);
  }

  ghost function Shrunk<N>(g: Graph<N>, p: N, w: N): Graph<N>
    requires p in g.cells && w in g.cells
  {
    Graph(g.nil, g.root, map n | n in g.cells ::
      if n == p then g.cells[n].(bh := if g.cells[n].bh == 0 then 0 else g.cells[n].bh - 1)
      else if n == w then g.cells[n].(red := true, bh := if g.cells[n].bh == 0 then 0 else g.cells[n].bh - 1)
      else g.cells[n])
  }

  lemma ShrunkAt<N>(g: Graph<N>, p: N, s: Side, n: N, t: Side)
    requires g.Pivot(p, s) && g.HeightOk(p, s, Owes(p, s)) && g.HeightOk(p, !s, Owes(p, s))
    requires g.HeightOk(g.cells[p].Kid(!s), s, Owes(p, s))
    requires var w := g.cells[p].Kid(!s); g.Black(w) && g.Black(g.cells[w].Kid(s)) && g.Black(g.cells[w].Kid(!s))
    requires n in g.cells && g.KidOk(n, t) && g.HeightOk(n, t, Owes(p, s)) && g.RedOk(n, t, g.nil, g.nil)
    ensures Shrunk(g, p, g.cells[p].Kid(!s)).HeightOk(n, t, DebtOf(g, p))
    ensures Shrunk(g, p, g.cells[p].Kid(!s)).RedOk(n, t, p, p)
  {
  }

  /** Black sibling with black children: it turns red and the debt moves up. */
  lemma RepairShrink<N>(g: Graph<N>, x: N, p: N, s: Side)
    requires Repairing(g, x, Owes(p, s)) && g.Black(x)
    requires var w := g.cells[p].Kid(!s);
             && g.Black(w)
             && (w in g.cells ==> g.Black(g.cells[w].Kid(s)) && g.Black(g.cells[w].Kid(!s)))
    ensures g.cells[p].Kid(!s) in g.cells && g.ParentOk(p)
    ensures Repairing(Shrunk(g, p, g.cells[p].Kid(!s)), p, DebtOf(g, p))
  {
    Sibling(g, x, p, s);
    var w := g.cells[p].Kid(!s);
    var g' := Shrunk(g, p, w);
    PaintShape(g, g');
    assert g.ParentOk(p);
    forall n, t | n in g.cells ensures g'.HeightOk(n, t, DebtOf(g, p)) && g'.RedOk(n, t, p, p) {
      assert g.KidOk(n, t) && g.HeightOk(n, t, Owes(p, s)) && g.RedOk(n, t, g.nil, g.nil);
      ShrunkAt(g, p, s, n, t);
    }
  }

  ghost function SettledCell<N>(g: Graph<N>, p: N, s: Side, n: N): Cell<N>
    requires n in g.cells && p in g.cells && g.cells[p].Kid(!s) in g.cells
  {
    var w := g.cells[p].Kid(!s);
    var c := g.RotCell(p, s, n);
    if n == w then c.(red := g.cells[p].red, bh := g.cells[p].bh)
    else if n == p then c.(red := false, bh := g.cells[w].bh)
    else if n == g.cells[w].Kid(!s) then c.(red := false, bh := g.cells[n].bh + 1)
    else c
  }

  ghost function Settled<N>(g: Graph<N>, p: N, s: Side): Graph<N>
    requires p in g.cells && g.cells[p].Kid(!s) in g.cells
  {
    Graph(g.nil, g.Rot(p, s).root, map n | n in g.cells :: SettledCell(g, p, s, n))
  }

  ghost predicate Settleable<N>(g: Graph<N>, p: N, s: Side) {
    && g.Pivot(p, s) && var w := g.cells[p].Kid(!s);
    && g.Black(w) && !g.Black(g.cells[w].Kid(!s)) && g.HeightOk(p, s, Owes(p, s)) && g.HeightOk(p, !s, Owes(p, s))
    && g.HeightOk(w, s, Owes(p, s)) && g.HeightOk(w, !s, Owes(p, s)) && g.KidOk(p, s) && g.KidOk(w, !s) && g.KidOk(w, s)
  }

  /** The black heights once the debt is paid. */
  lemma SettledBh<N>(g: Graph<N>, p: N, s: Side, k: N)
    requires Settleable(g, p, s) && (k == g.nil || k in g.cells)
    ensures var w := g.cells[p].Kid(!s); var o := g.cells[w].Kid(!s);
            && o in g.cells && o != p && o != w && p != w
            && Settled(g, p, s).Bh(k) ==
               if k == w then g.cells[p].bh
               else if k == p then g.cells[w].bh
               else if k == o then g.cells[o].bh + 1
               else g.Bh(k)
  {
  }

  lemma SettledHeightAt<N>(g: Graph<N>, p: N, s: Side, n: N, t: Side)
    requires Settleable(g, p, s)
    requires n in g.cells && g.KidOk(n, t) && g.HeightOk(n, t, Owes(p, s))
    ensures Settled(g, p, s).HeightOk(n, t, NoDebt)
  {
    var w, g' := g.cells[p].Kid(!s), Settled(g, p, s);
    SettledBh(g, p, s, n);
    if n == p || n == w {
      SettledHeightAbove(g, p, s, n, t);
    } else {
      KidAfterRot(g, p, s, n, t);
      SettledBh(g, p, s, g'.cells[n].Kid(t));
      assert g.cells[n].Kid(t) != w;
    }
  }

  lemma SettledHeightAbove<N>(g: Graph<N>, p: N, s: Side, n: N, t: Side)
    requires Settleable(g, p, s) && (n == p || n == g.cells[p].Kid(!s))
    requires g.KidOk(n, t) && g.HeightOk(n, t, Owes(p, s))
    ensures Settled(g, p, s).HeightOk(n, t, NoDebt)
  {
    KidAfterRot(g, p, s, n, t);
    SettledBh(g, p, s, n);
    var k := Settled(g, p, s).cells[n].Kid(t);
    SettledBh(g, p, s, k);
  }

  lemma SettledRedAt<N>(g: Graph<N>, p: N, s: Side, n: N, t: Side)
    requires Settleable(g, p, s)
    requires n in g.cells && g.KidOk(n, t) && g.RedOk(n, t, g.nil, g.nil)
    ensures Settled(g, p, s).RedOk(n, t, g.nil, g.nil)
  {
    KidAfterRot(g, p, s, n, t);
  }

  /** Black sibling with a red far child: the sibling comes up and the debt is paid. */
  lemma RepairSettle<N>(g: Graph<N>, x: N, p: N, s: Side)
    requires Repairing(g, x, Owes(p, s)) && g.Black(x)
    requires var w := g.cells[p].Kid(!s); w in g.cells && g.Black(w) && !g.Black(g.cells[w].Kid(!s))
    ensures var g' := Settled(g, p, s); Repairing(g', g'.root, NoDebt) && g'.Black(g'.root)
  {
    Sibling(g, x, p, s);
    var w := g.cells[p].Kid(!s);
    var g' := Settled(g, p, s);
    assert Settleable(g, p, s) by { assert g.KidOk(w, s) && g.KidOk(w, !s); }
    SettledShape(g, p, s);
    SettledColors(g, p, s);
    NoRedEdges(g', g'.root, g'.root);
  }

  lemma SettledShape<N>(g: Graph<N>, p: N, s: Side)
    requires g.Shape() && Settleable(g, p, s)
    ensures var g' := Settled(g, p, s); g'.Shape() && (g.Black(g.root) ==> g'.Black(g'.root))
  {
    RotShape(g, p, s);
    PaintShape(g.Rot(p, s), Settled(g, p, s));
    SettledRoot(g, p, s);
  }

  lemma SettledRoot<N>(g: Graph<N>, p: N, s: Side)
    requires Settleable(g, p, s) && g.RootOk() && g.ParentOk(p)
    ensures g.Black(g.root) ==> Settled(g, p, s).Black(Settled(g, p, s).root)
  {
  }

  lemma SettledColors<N>(g: Graph<N>, p: N, s: Side)
    requires Settleable(g, p, s) && g.Kids() && g.Balanced(Owes(p, s)) && g.RedRule(g.nil, g.nil)
    ensures var g' := Settled(g, p, s); g'.Balanced(NoDebt) && g'.RedRule(g.nil, g.nil)
  {
    var g' := Settled(g, p, s);
    forall n, t | n in g.cells ensures g'.HeightOk(n, t, NoDebt) && g'.RedOk(n, t, g.nil, g.nil) {
      assert g.KidOk(n, t) && g.HeightOk(n, t, Owes(p, s)) && g.RedOk(n, t, g.nil, g.nil);
      SettledHeightAt(g, p, s, n, t);
      SettledRedAt(g, p, s, n, t);
    }
  }

  ghost function Blackened<N>(g: Graph<N>, x: N): Graph<N> {
    Graph(g.nil, g.root, map n | n in g.cells ::
      if n == x && g.cells[n].red then g.cells[n].(red := false, bh := g.cells[n].bh + 1) else g.cells[n])
  }

  /** Painting the last `x` black ends both fix-ups. */
  lemma RepairDone<N>(g: Graph<N>, x: N, debt: Debt<N>)
    requires Repairing(g, x, debt) && (x == g.root || !g.Black(x))
    ensures Blackened(g, x).Valid()
  {
    var g' := Blackened(g, x);
    PaintShape(g, g');
    forall n, t | n in g.cells ensures g'.HeightOk(n, t, NoDebt) && g'.RedOk(n, t, g.nil, g.nil) {
      RepairDoneAt(g, x, debt, n, t);
    }
  }

  lemma RepairDoneAt<N>(g: Graph<N>, x: N, debt: Debt<N>, n: N, t: Side)
    requires Repairing(g, x, debt) && (x == g.root || !g.Black(x)) && n in g.cells
    ensures Blackened(g, x).HeightOk(n, t, NoDebt) && Blackened(g, x).RedOk(n, t, g.nil, g.nil)
  {
    if debt.Owes? { assert g.KidOk(debt.node, L) && g.KidOk(debt.node, R) && g.KeyOk(debt.node); }
    assert g.KidOk(n, t) && g.HeightOk(n, t, debt) && g.RedOk(n, t, x, x);
  }

  // ---------- where the nodes below a node are ----------

  /** The keys a subtree may hold; in a tree these are exactly the nodes of the subtree. */
  ghost predicate Within<N>(g: Graph<N>, c: N, k: int) requires c in g.cells { g.cells[c].lo < k < g.cells[c].hi }

  ghost function SideOf<N>(g: Graph<N>, c: N, k: int): Side requires c in g.cells { k > g.cells[c].key }

  lemma Descend<N>(g: Graph<N>, c: N, n: N)
    requires g.Shape() && c in g.cells && n in g.cells && n != c && Within(g, c, g.cells[n].key)
    ensures var k := g.cells[c].Kid(SideOf(g, c, g.cells[n].key));
            && k in g.cells && Within(g, k, g.cells[n].key) && g.KidOk(c, SideOf(g, c, g.cells[n].key))
            && g.cells[k].hi - g.cells[k].lo < g.cells[c].hi - g.cells[c].lo
  {
    var t := SideOf(g, c, g.cells[n].key);
    assert g.KeyOk(c) && g.KidOk(c, t) && g.GapOk(c, t, n) && g.Apart(c, n);
  }

  lemma AllWithinRoot<N>(g: Graph<N>, n: N)
    requires g.Shape() && n in g.cells
    ensures g.root in g.cells && Within(g, g.root, g.cells[n].key)
  {
    assert g.KeyOk(n);
  }

  lemma {:induction false} Nested<N>(g: Graph<N>, c: N, n: N)
    requires g.Shape() && c in g.cells && n in g.cells && Within(g, c, g.cells[n].key)
    ensures g.cells[c].lo <= g.cells[n].lo && g.cells[n].hi <= g.cells[c].hi
    decreases g.cells[c].hi - g.cells[c].lo
  {
    if n != c {
      Descend(g, c, n);
      Nested(g, g.cells[c].Kid(SideOf(g, c, g.cells[n].key)), n);
      assert g.KeyOk(c);
    }
  }

  /** There is only one place for a new key: two nodes that would both take it as a child are the same. */
  lemma {:induction false} OnePlace<N>(g: Graph<N>, c: N, n: N, m: N, k: int)
    requires g.Shape() && c in g.cells && n in g.cells && m in g.cells
    requires Within(g, c, g.cells[n].key) && Within(g, c, g.cells[m].key) && Within(g, n, k) && Within(g, m, k)
    requires k != g.cells[n].key && k != g.cells[m].key
    requires g.cells[n].Kid(SideOf(g, n, k)) == g.nil && g.cells[m].Kid(SideOf(g, m, k)) == g.nil
    ensures n == m
    decreases g.cells[c].hi - g.cells[c].lo
  {
    if n != c { Descend(g, c, n); Nested(g, g.cells[c].Kid(SideOf(g, c, g.cells[n].key)), n); }
    if m != c { Descend(g, c, m); Nested(g, g.cells[c].Kid(SideOf(g, c, g.cells[m].key)), m); }
    if n != c && m != c {
      OnePlace(g, g.cells[c].Kid(SideOf(g, c, g.cells[n].key)), n, m, k);
    }
  }

  // ---------- a new leaf ----------

  ghost predicate Vacant<N>(g: Graph<N>, k: int, p: Option<N>, s: Side) {
    match p
    case None => g.root == g.nil && 0 <= k < HASH_LIMIT
    case Some(q) => q in g.cells && g.cells[q].Kid(s) == g.nil && Between(g.cells[q].key, k, g.cells[q].Bound(s))
  }

  ghost function Leaf<N>(g: Graph<N>, k: int, p: Option<N>, s: Side): Cell<N>
    requires Vacant(g, k, p, s)
  {
    match p
    case None => Cell(g.nil, g.nil, None, true, k, -1, HASH_LIMIT, 0)
    case Some(q) =>
      Cell(g.nil, g.nil, p, true, k,
           if s then g.cells[q].key else g.cells[q].lo, if s then g.cells[q].hi else g.cells[q].key, 0)
  }

  ghost function Attached<N>(g: Graph<N>, x: N, k: int, p: Option<N>, s: Side): Graph<N>
    requires Vacant(g, k, p, s)
  {
    Graph(g.nil, if p.None? then x else g.root,
          map n | n in g.cells.Keys + {x} ::
            if n == x then Leaf(g, k, p, s) else if p == Some(n) then g.cells[n].SetKid(s, x) else g.cells[n])
  }

  /** The links of an attached node and its neighbours. */
  lemma AttachedBare<N>(g: Graph<N>, x: N, k: int, p: Option<N>, s: Side)
    requires Vacant(g, k, p, s) && x !in g.cells
    ensures var g' := Attached(g, x, k, p, s);
            && g'.nil == g.nil && g'.root == (if p.None? then x else g.root) && g'.cells.Keys == g.cells.Keys + {x}
            && g'.cells[x].Bare() == Cell(g.nil, g.nil, p, true, k, 0, 0, 0)
    ensures var g' := Attached(g, x, k, p, s);
            forall n | n in g.cells ::
              g'.cells[n].Bare() == if p == Some(n) then g.cells[n].Bare().SetKid(s, x) else g.cells[n].Bare()
  {
  }

  lemma AttachAt<N>(g: Graph<N>, x: N, k: int, p: Option<N>, s: Side, n: N, t: Side, m: N)
    requires g.nil !in g.cells && g.RootOk() && Vacant(g, k, p, s) && x !in g.cells && x != g.nil && n in g.cells
    requires m in g.cells
    requires g.KidOk(n, t) && g.ParentOk(n) && g.KeyOk(n) && g.Apart(n, m) && g.GapOk(n, t, m)
    requires g.HeightOk(n, t, NoDebt) && g.RedOk(n, t, g.nil, g.nil)
    ensures var g' := Attached(g, x, k, p, s);
            && g'.KidOk(n, t) && g'.ParentOk(n) && g'.KeyOk(n) && g'.Apart(n, m) && g'.GapOk(n, t, m)
            && g'.HeightOk(n, t, NoDebt) && g'.RedOk(n, t, x, g.nil)
  {
  }

  lemma AttachNewAt<N>(g: Graph<N>, x: N, k: int, p: Option<N>, s: Side, m: N, t: Side)
    requires g.nil !in g.cells && g.RootOk() && Vacant(g, k, p, s) && x !in g.cells && x != g.nil && m in g.cells
    requires p.Some? ==> g.GapOk(p.value, s, m) && g.KeyOk(p.value)
    ensures var g' := Attached(g, x, k, p, s); g'.GapOk(x, t, m) && g'.Apart(x, m) && g'.Apart(m, x)
  {
  }

  lemma AttachFixing<N>(g: Graph<N>, x: N, k: int, p: Option<N>, s: Side)
    requires g.Valid() && Vacant(g, k, p, s) && x !in g.cells && x != g.nil
    ensures Fixing(Attached(g, x, k, p, s), x)
  {
    var g' := Attached(g, x, k, p, s);
    AttachShape(g, x, k, p, s);
    forall n, t | n in g'.cells ensures g'.HeightOk(n, t, NoDebt) && g'.RedOk(n, t, x, g.nil) {
      if n != x {
        AttachOld(g, n, t, n);
        AttachAt(g, x, k, p, s, n, t, n);
      }
    }
  }

  lemma AttachOld<N>(g: Graph<N>, n: N, t: Side, m: N)
    requires g.Valid() && n in g.cells && m in g.cells
    ensures g.KidOk(n, t) && g.ParentOk(n) && g.KeyOk(n) && g.Apart(n, m) && g.GapOk(n, t, m)
    ensures g.HeightOk(n, t, NoDebt) && g.RedOk(n, t, g.nil, g.nil)
  {
  }

  lemma AttachShape<N>(g: Graph<N>, x: N, k: int, p: Option<N>, s: Side)
    requires g.Valid() && Vacant(g, k, p, s) && x !in g.cells && x != g.nil
    ensures Attached(g, x, k, p, s).Shape()
  {
    AttachLinks(g, x, k, p, s);
    AttachGaps(g, x, k, p, s);
    AttachDistinct(g, x, k, p, s);
  }

  lemma AttachLinks<N>(g: Graph<N>, x: N, k: int, p: Option<N>, s: Side)
    requires g.Valid() && Vacant(g, k, p, s) && x !in g.cells && x != g.nil
    ensures var g' := Attached(g, x, k, p, s); g'.Kids() && g'.Parents() && g'.Keys() && g'.RootOk()
  {
    var g' := Attached(g, x, k, p, s);
    AttachRoot(g, x, k, p, s);
    forall n, t | n in g'.cells ensures g'.KidOk(n, t) && g'.ParentOk(n) && g'.KeyOk(n) {
      AttachLinksAt(g, x, k, p, s, n, t);
    }
    forall n | n in g'.cells ensures g'.ParentOk(n) && g'.KeyOk(n) { assert g'.KidOk(n, L); }
  }

  lemma AttachRoot<N>(g: Graph<N>, x: N, k: int, p: Option<N>, s: Side)
    requires g.RootOk() && Vacant(g, k, p, s) && x !in g.cells && x != g.nil
    ensures Attached(g, x, k, p, s).RootOk()
  {
  }

  lemma AttachLinksAt<N>(g: Graph<N>, x: N, k: int, p: Option<N>, s: Side, n: N, t: Side)
    requires g.Valid() && Vacant(g, k, p, s) && x !in g.cells && x != g.nil && (n in g.cells || n == x)
    ensures var g' := Attached(g, x, k, p, s); g'.KidOk(n, t) && g'.ParentOk(n) && g'.KeyOk(n)
  {
    if n != x {
      AttachOld(g, n, t, n);
      AttachAt(g, x, k, p, s, n, t, n);
    } else {
      assert p.Some? ==> g.KeyOk(p.value);
    }
  }

  lemma AttachDistinct<N>(g: Graph<N>, x: N, k: int, p: Option<N>, s: Side)
    requires g.Valid() && Vacant(g, k, p, s) && x !in g.cells && x != g.nil
    ensures Attached(g, x, k, p, s).Distinct()
  {
    var g' := Attached(g, x, k, p, s);
    forall n, m | n in g'.cells && m in g'.cells ensures g'.Apart(n, m) {
      if n != x && m != x {
        AttachOld(g, n, L, m);
      } else {
        var o := if n == x then m else n;
        if p.Some? { AttachOld(g, p.value, s, if o == x then p.value else o); }
        if o != x { AttachNewAt(g, x, k, p, s, o, L); }
      }
    }
  }

  lemma AttachGaps<N>(g: Graph<N>, x: N, k: int, p: Option<N>, s: Side)
    requires g.Valid() && Vacant(g, k, p, s) && x !in g.cells && x != g.nil
    ensures Attached(g, x, k, p, s).Gaps()
  {
    var g' := Attached(g, x, k, p, s);
    forall n, m, t | n in g'.cells && m in g'.cells ensures g'.GapOk(n, t, m) {
      if n != x && m != x {
        AttachOld(g, n, t, m);
        AttachAt(g, x, k, p, s, n, t, m);
      } else if n != x {
        AttachGap(g, x, k, p, s, n, t);
      } else if m != x {
        if p.Some? { AttachOld(g, p.value, s, m); }
        AttachNewAt(g, x, k, p, s, m, t);
      }
    }
  }

  lemma AttachGap<N>(g: Graph<N>, x: N, k: int, p: Option<N>, s: Side, n: N, t: Side)
    requires g.Shape() && Vacant(g, k, p, s) && x !in g.cells && x != g.nil && n in g.cells
    ensures Attached(g, x, k, p, s).GapOk(n, t, x)
  {
    if g.cells[n].Kid(t) == g.nil && Between(g.cells[n].key, k, g.cells[n].Bound(t)) {
      AllWithinRoot(g, n);
      AllWithinRoot(g, p.value);
      assert g.KeyOk(n) && g.KeyOk(p.value);
      OnePlace(g, g.root, n, p.value, k);
    }
  }

  // ---------- balance ----------

  ghost function Below<N>(g: Graph<N>, c: N): set<N> requires c in g.cells {
    set n | n in g.cells && Within(g, c, g.cells[n].key)
  }

  /** A subtree of black height h holds at least 2^h - 1 nodes. */
  lemma {:induction false} ManyBelow<N>(g: Graph<N>, c: N)
    requires g.Shape() && g.Balanced(NoDebt) && c in g.cells
    ensures |Below(g, c)| + 1 >= Power2(g.cells[c].bh)
    decreases g.cells[c].hi - g.cells[c].lo
  {
    assert g.KidOk(c, L) && g.KidOk(c, R) && g.HeightOk(c, L, NoDebt) && g.HeightOk(c, R, NoDebt) && g.KeyOk(c);
    var l, r := g.cells[c].left, g.cells[c].right;
    var lb := if l in g.cells then Below(g, l) else {};
    var rb := if r in g.cells then Below(g, r) else {};
    if l in g.cells { ManyBelow(g, l); }
    if r in g.cells { ManyBelow(g, r); }
    forall n | n in lb ensures n in Below(g, c) && g.cells[n].key < g.cells[c].key { }
    forall n | n in rb ensures n in Below(g, c) && g.cells[n].key > g.cells[c].key { }
    assert c in Below(g, c);
    Parts(lb, rb, c, Below(g, c));
  }

  lemma Parts<T>(a: set<T>, b: set<T>, c: T, all: set<T>)
    requires a <= all && b <= all && c in all && a !! b && c !in a && c !in b
    ensures |a| + |b| + 1 <= |all|
  {
    assert |a + b| == |a| + |b|;
    assert |a + b + {c}| == |a + b| + 1;
    assert all == (a + b + {c}) + (all - (a + b + {c}));
  }

  /** When the insert fix-up stops, painting the root black restores every rule. */
  lemma FixDone<N>(g: Graph<N>, x: N)
    requires Fixing(g, x) && (x == g.root || (g.cells[x].parent.Some? && g.Black(g.cells[x].parent.value)))
    ensures Blackened(g, g.root).Valid()
  {
    forall n, t | n in g.cells ensures g.RedOk(n, t, g.root, g.root) {
      assert g.RedOk(n, t, x, g.nil) && g.KidOk(n, t);
    }
    RepairDone(g, g.root, NoDebt);
  }

  // ---------- the steps of the fix-ups, one painted node at a time ----------

  lemma RecoloredIs<N>(g: Graph<N>, p: N, y: N, gp: N, s: Side)
    requires gp in g.cells && p in g.cells && y in g.cells && p != y && p != gp && y != gp
    requires g.cells[gp].Kid(s) == p && g.cells[gp].Kid(!s) == y
    ensures g.Paint(p, false, g.cells[p].bh + 1).Paint(y, false, g.cells[y].bh + 1)
             .Paint(gp, true, g.cells[gp].bh) == Recolored(g, gp)
  {
    assert g.Paint(p, false, g.cells[p].bh + 1).Paint(y, false, g.cells[y].bh + 1)
            .Paint(gp, true, g.cells[gp].bh).cells == Recolored(g, gp).cells;
  }

  lemma BlackenedIs<N>(g: Graph<N>, x: N)
    requires x in g.cells
    ensures g.Paint(x, false, if g.cells[x].red then g.cells[x].bh + 1 else g.cells[x].bh) == Blackened(g, x)
  {
    assert g.Paint(x, false, if g.cells[x].red then g.cells[x].bh + 1 else g.cells[x].bh).cells ==
        Blackened(g, x).cells;
  }

  lemma ShrunkIs<N>(g: Graph<N>, p: N, w: N)
    requires p in g.cells && w in g.cells && p != w && g.cells[p].bh > 0 && g.cells[w].bh > 0
    ensures g.Paint(w, true, g.cells[w].bh - 1).Paint(p, g.cells[p].red, g.cells[p].bh - 1) == Shrunk(g, p, w)
  {
    assert g.Paint(w, true, g.cells[w].bh - 1).Paint(p, g.cells[p].red, g.cells[p].bh - 1).cells ==
        Shrunk(g, p, w).cells;
  }

  lemma SamePivot<N>(g: Graph<N>, g': Graph<N>, x: N, s: Side)
    requires g.Pivot(x, s) && g.SameLinks(g')
    ensures g'.Pivot(x, s)
  {
  }

  /** Painting does not change what a rotation does to the links of a node. */
  lemma SameRotAt<N>(g: Graph<N>, g': Graph<N>, x: N, s: Side, n: N)
    requires x in g.cells && n in g.cells && g.cells.Keys == g'.cells.Keys
    requires g.cells[x].(red := false, bh := 0) == g'.cells[x].(red := false, bh := 0)
    requires g.cells[n].(red := false, bh := 0) == g'.cells[n].(red := false, bh := 0)
    requires var y := g.cells[x].Kid(!s);
             && y in g.cells
             && g.cells[y].(red := false, bh := 0) == g'.cells[y].(red := false, bh := 0)
    ensures g'.RotCell(x, s, n) == g.RotCell(x, s, n).(red := g'.cells[n].red, bh := g'.cells[n].bh)
  {
  }

  lemma LiftedIs<N>(g: Graph<N>, g': Graph<N>, p: N, gp: N, s: Side)
    requires g.Pivot(gp, !s) && p == g.cells[gp].Kid(s)
    requires g' == g.Paint(p, false, g.cells[gp].bh).Paint(gp, true, g.cells[p].bh)
    ensures g'.Pivot(gp, !s) && g'.Rot(gp, !s) == Lifted(g, gp, s)
  {
    SamePivot(g, g', gp, !s);
    forall n | n in g.cells ensures g'.RotCell(gp, !s, n) == LiftedCell(g, gp, s, n) { LiftedIsAt(g, g', p, gp, s, n); }
    RotIs(g', gp, !s, Lifted(g, gp, s));
  }

  lemma RotIs<N>(g: Graph<N>, x: N, s: Side, h: Graph<N>)
    requires x in g.cells && g.cells[x].Kid(!s) in g.cells && h.nil == g.nil && h.cells.Keys == g.cells.Keys
    requires h.root == if g.cells[x].parent.None? then g.cells[x].Kid(!s) else g.root
    requires forall n | n in g.cells :: g.RotCell(x, s, n) == h.cells[n]
    ensures g.Rot(x, s) == h
  {
    assert g.Rot(x, s).cells == h.cells;
  }

  lemma LiftedIsAt<N>(g: Graph<N>, g': Graph<N>, p: N, gp: N, s: Side, n: N)
    requires gp in g.cells && p in g.cells && p == g.cells[gp].Kid(s) && p != gp && n in g.cells
    requires g' == g.Paint(p, false, g.cells[gp].bh).Paint(gp, true, g.cells[p].bh)
    ensures g'.RotCell(gp, !s, n) == LiftedCell(g, gp, s, n)
  {
    SameRotAt(g, g', gp, !s, n);
  }

  lemma SettledIs<N>(g: Graph<N>, g': Graph<N>, p: N, w: N, o: N, s: Side)
    requires g.Pivot(p, s) && w == g.cells[p].Kid(!s) && o == g.cells[w].Kid(!s) && o in g.cells && o != p && o != w
    requires g' == g.Paint(w, g.cells[p].red, g.cells[p].bh).Paint(p, false, g.cells[w].bh)
                    .Paint(o, false, g.cells[o].bh + 1)
    ensures g'.Pivot(p, s) && g'.Rot(p, s) == Settled(g, p, s)
  {
    SamePivot(g, g', p, s);
    SettledRot(g, g', p, w, o, s);
  }

  lemma SettledRot<N>(g: Graph<N>, g': Graph<N>, p: N, w: N, o: N, s: Side)
    requires p in g.cells && w in g.cells && w == g.cells[p].Kid(!s) && o == g.cells[w].Kid(!s) && o in g.cells
    requires o != p && o != w && p != w
    requires g' == g.Paint(w, g.cells[p].red, g.cells[p].bh).Paint(p, false, g.cells[w].bh)
                    .Paint(o, false, g.cells[o].bh + 1)
    ensures g'.Rot(p, s) == Settled(g, p, s)
  {
    forall n | n in g.cells ensures g'.RotCell(p, s, n) == SettledCell(g, p, s, n) {
      SettledIsAt(g, g', p, w, o, s, n);
    }
    RotIs(g', p, s, Settled(g, p, s));
  }

  lemma SettledIsAt<N>(g: Graph<N>, g': Graph<N>, p: N, w: N, o: N, s: Side, n: N)
    requires p in g.cells && w in g.cells && w == g.cells[p].Kid(!s) && o == g.cells[w].Kid(!s) && o in g.cells
    requires o != p && o != w && p != w
    requires g' == g.Paint(w, g.cells[p].red, g.cells[p].bh).Paint(p, false, g.cells[w].bh)
                    .Paint(o, false, g.cells[o].bh + 1)
    requires n in g.cells
    ensures g'.RotCell(p, s, n) == SettledCell(g, p, s, n)
  {
    SameRotAt(g, g', p, s, n);
  }

  /** What one turn of the insert fix-up loop makes of the tree `g` and the cursor `x`. */
  ghost predicate CanStep<N>(g: Graph<N>, x: N) {
    && g.nil !in g.cells && x in g.cells && g.cells[x].parent.Some?
    && var p := g.cells[x].parent.value;
    && p in g.cells && p != x && (g.cells[p].left == x || g.cells[p].right == x) && g.cells[p].left != g.cells[p].right
    && g.cells[p].parent.Some?
    && var gp := g.cells[p].parent.value;
    && gp in g.cells && gp != p && gp != x && g.cells[gp].left != gp && g.cells[gp].right != gp
    && (g.cells[gp].left == p || g.cells[gp].right == p) && g.cells[gp].left != g.cells[gp].right
    && (g.cells[gp].left == g.nil || g.cells[gp].left in g.cells)
    && (g.cells[gp].right == g.nil || g.cells[gp].right in g.cells)
    && var s := g.cells[gp].right == p;
    && (g.Black(g.cells[gp].Kid(!s)) ==>
          if g.cells[p].Kid(!s) == x
          then g.Pivot(p, s) && g.Rot(p, s).Pivot(gp, !s)
          else g.Pivot(gp, !s))
  }

  ghost function InsertStep<N>(g: Graph<N>, x: N): (r: (Graph<N>, N))
    requires CanStep(g, x)
  {
    var p := g.cells[x].parent.value;
    var gp := g.cells[p].parent.value;
    var s := g.cells[gp].right == p;
    if !g.Black(g.cells[gp].Kid(!s)) then (Recolored(g, gp), gp)
    else if g.cells[p].Kid(!s) == x then (Lifted(g.Rot(p, s), gp, s), p)
    else (Lifted(g, gp, s), x)
  }

  lemma InsertStepOk<N>(g: Graph<N>, x: N)
    requires Fixing(g, x) && ParentRed(g, x)
    ensures CanStep(g, x)
    ensures Stepped(g, x, InsertStep(g, x).0, InsertStep(g, x).1)
  {
    Family(g, x);
    var p := g.cells[x].parent.value;
    var gp := g.cells[p].parent.value;
    var s := g.cells[gp].right == p;
    if !g.Black(g.cells[gp].Kid(!s)) {
      InsertRecolor(g, x, gp, s);
    } else if g.cells[p].Kid(!s) == x {
      InsertTwice(g, x, p, gp, s);
    } else {
      InsertOuter(g, x, p, gp, s);
      PivotOf(g, gp, !s);
    }
  }

  lemma InsertTwice<N>(g: Graph<N>, x: N, p: N, gp: N, s: Side)
    requires Fixing(g, x) && x != g.root && g.cells[x].parent == Some(p) && p in g.cells && g.cells[p].red
    requires g.cells[p].Kid(!s) == x
    requires g.cells[p].parent == Some(gp) && gp in g.cells && g.cells[gp].Kid(s) == p
    requires g.Black(g.cells[gp].Kid(!s)) && gp != x && gp != p
    requires g.cells[gp].left != g.cells[gp].right && g.cells[p].left != g.cells[p].right && !g.cells[gp].red
    ensures g.Pivot(p, s) && g.Rot(p, s).Pivot(gp, !s)
    ensures Stepped(g, x, Lifted(g.Rot(p, s), gp, s), p)
  {
    PivotOf(g, p, s);
    InsertInner(g, x, p, s);
    var g1 := g.Rot(p, s);
    assert g.KidOk(gp, s) && g.KidOk(gp, !s);
    KidAfterRot(g, p, s, gp, s);
    KidAfterRot(g, p, s, gp, !s);
    assert g.KidOk(x, s);
    KidAfterRot(g, p, s, x, s);
    assert g.RotCell(p, s, gp).red == g.cells[gp].red;
    PivotOf(g1, gp, !s);
    InsertOuter(g1, p, x, gp, s);
  }

  /** How far the delete fix-up still has to go: the short side of the debtor grows at every turn. */
  ghost function ToRepair<N>(g: Graph<N>, debt: Debt<N>): nat {
    match debt
    case NoDebt => 0
    case Owes(p, s) =>
      if p in g.cells && g.KeyOk(p) then (
        HASH_LIMIT + 2 - (if s then g.cells[p].hi - g.cells[p].key else g.cells[p].key - g.cells[p].lo)
      ) else 0
  }

  ghost function AfterRedSibling<N>(g: Graph<N>, p: N, s: Side): Graph<N>
    requires p in g.cells && g.cells[p].Kid(!s) in g.cells
  {
    if g.Black(g.cells[p].Kid(!s)) then g else Lifted(g, p, !s)
  }

  ghost function AfterNearRed<N>(g: Graph<N>, p: N, s: Side): Graph<N>
    requires p in g.cells && g.cells[p].Kid(!s) in g.cells
    requires (g.cells[g.cells[p].Kid(!s)].Kid(s) in g.cells || !g.Black(g.cells[g.cells[p].Kid(!s)].Kid(!s)))
  {
    var w := g.cells[p].Kid(!s);
    if g.Black(g.cells[w].Kid(!s)) then Lifted(g, w, s) else g
  }

  ghost predicate CanRepair<N>(g: Graph<N>, p: N, s: Side) {
    && g.nil !in g.cells && p in g.cells && g.cells[p].Kid(!s) in g.cells && g.ParentOk(p)
    && (!g.Black(g.cells[p].Kid(!s)) ==> g.Pivot(p, s))
    && var g1 := AfterRedSibling(g, p, s);
    && p in g1.cells && g1.nil == g.nil && CanSettle(g1, p, s)
  }

  ghost predicate CanSettle<N>(g1: Graph<N>, p: N, s: Side) {
    && g1.nil !in g1.cells && p in g1.cells && g1.ParentOk(p)
    && var w := g1.cells[p].Kid(!s);
    && w in g1.cells && w != p
    && (g1.cells[w].Kid(s) == g1.nil || g1.cells[w].Kid(s) in g1.cells)
    && (g1.cells[w].Kid(!s) == g1.nil || g1.cells[w].Kid(!s) in g1.cells)
    && (g1.Black(g1.cells[w].left) && g1.Black(g1.cells[w].right) ==> g1.cells[w].bh > 0 && g1.cells[p].bh > 0)
    && (!(g1.Black(g1.cells[w].left) && g1.Black(g1.cells[w].right)) ==>
          && (g1.Black(g1.cells[w].Kid(!s)) ==> g1.Pivot(w, !s))
          && var g2 := AfterNearRed(g1, p, s);
          && g2.Pivot(p, s) && g2.nil == g1.nil && g2.cells[g2.cells[p].Kid(!s)].Kid(!s) in g2.cells
          && g2.cells[g2.cells[p].Kid(!s)].Kid(!s) != p && g2.cells[g2.cells[p].Kid(!s)].Kid(!s) != g2.cells[p].Kid(!s))
  }

  /** What one turn of the delete fix-up loop makes of the tree, the cursor and the debt. */
  ghost function SettleStep<N>(g1: Graph<N>, p: N, s: Side): (r: (Graph<N>, N, Debt<N>))
    requires CanSettle(g1, p, s)
  {
    var w := g1.cells[p].Kid(!s);
    if g1.Black(g1.cells[w].left) && g1.Black(g1.cells[w].right) then
      (Shrunk(g1, p, w), p, DebtOf(g1, p))
    else
      var g2 := AfterNearRed(g1, p, s);
      (Settled(g2, p, s), Settled(g2, p, s).root, NoDebt)
  }

  ghost function RepairStep<N>(g: Graph<N>, p: N, s: Side): (r: (Graph<N>, N, Debt<N>))
    requires CanRepair(g, p, s)
  {
    SettleStep(AfterRedSibling(g, p, s), p, s)
  }

  lemma SettleStepOk<N>(g: Graph<N>, x: N, p: N, s: Side)
    requires Repairing(g, x, Owes(p, s)) && g.Black(x) && g.Black(g.cells[p].Kid(!s))
    ensures CanSettle(g, p, s)
    ensures var (g', x', debt') := SettleStep(g, p, s);
            Repairing(g', x', debt') && ToRepair(g', debt') < ToRepair(g, Owes(p, s))
  {
    Sibling(g, x, p, s);
    var w := g.cells[p].Kid(!s);
    if g.Black(g.cells[w].left) && g.Black(g.cells[w].right) {
      SettleShrinkOk(g, x, p, s);
    } else if g.Black(g.cells[w].Kid(!s)) {
      SettleNearOk(g, x, p, s);
    } else {
      SettleFarOk(g, x, p, s);
    }
  }

  ghost predicate Settles<N>(g: Graph<N>, p: N, s: Side) {
    && CanSettle(g, p, s)
    && var (g', x', debt') := SettleStep(g, p, s);
    Repairing(g', x', debt') && ToRepair(g', debt') < ToRepair(g, Owes(p, s))
  }

  lemma SettleShrinkOk<N>(g: Graph<N>, x: N, p: N, s: Side)
    requires Repairing(g, x, Owes(p, s)) && g.Black(x) && g.cells[p].Kid(!s) in g.cells && g.Black(g.cells[p].Kid(!s))
    requires var w := g.cells[p].Kid(!s); g.Black(g.cells[w].left) && g.Black(g.cells[w].right)
    ensures Settles(g, p, s)
  {
    Sibling(g, x, p, s);
    assert g.ParentOk(p) && g.KeyOk(p);
    RepairShrink(g, x, p, s);
    ShrinkClimbs(g, p, g.cells[p].Kid(!s), s);
  }

  lemma SettleNearOk<N>(g: Graph<N>, x: N, p: N, s: Side)
    requires Repairing(g, x, Owes(p, s)) && g.Black(x) && g.cells[p].Kid(!s) in g.cells && g.Black(g.cells[p].Kid(!s))
    requires var w := g.cells[p].Kid(!s);
             && !(g.Black(g.cells[w].left) && g.Black(g.cells[w].right))
             && g.Black(g.cells[w].Kid(!s))
    ensures Settles(g, p, s)
  {
    Sibling(g, x, p, s);
    assert g.ParentOk(p) && g.KeyOk(p);
    var w := g.cells[p].Kid(!s);
    PivotOf(g, w, !s);
    RepairNearRed(g, x, p, s);
    RepairSettle(Lifted(g, w, s), x, p, s);
    Sibling(Lifted(g, w, s), x, p, s);
  }

  lemma SettleFarOk<N>(g: Graph<N>, x: N, p: N, s: Side)
    requires Repairing(g, x, Owes(p, s)) && g.Black(x) && g.cells[p].Kid(!s) in g.cells && g.Black(g.cells[p].Kid(!s))
    requires var w := g.cells[p].Kid(!s); !g.Black(g.cells[w].Kid(!s))
    ensures Settles(g, p, s)
  {
    Sibling(g, x, p, s);
    assert g.ParentOk(p) && g.KeyOk(p);
    RepairSettle(g, x, p, s);
  }

  lemma ShrinkClimbs<N>(g: Graph<N>, p: N, w: N, s: Side)
    requires g.Shape() && p in g.cells && w in g.cells && g.ParentOk(p) && g.KeyOk(p)
    ensures ToRepair(Shrunk(g, p, w), DebtOf(g, p)) < ToRepair(g, Owes(p, s))
  {
    if g.cells[p].parent.Some? {
      var q := g.cells[p].parent.value;
      assert g.KidOk(q, L) && g.KidOk(q, R) && g.KeyOk(q);
    }
  }

  lemma RepairStepOk<N>(g: Graph<N>, x: N, p: N, s: Side)
    requires Repairing(g, x, Owes(p, s)) && g.Black(x)
    ensures x != g.root && CanRepair(g, p, s) && g.cells[p].Kid(!s) != x
    ensures var (g', x', debt') := RepairStep(g, p, s);
            Repairing(g', x', debt') && ToRepair(g', debt') < ToRepair(g, Owes(p, s))
  {
    Sibling(g, x, p, s);
    assert g.ParentOk(p) && g.KeyOk(p);
    if !g.Black(g.cells[p].Kid(!s)) {
      RepairRedSibling(g, x, p, s);
      RedSiblingThen(g, x, p, s);
    }
    SettleStepOk(AfterRedSibling(g, p, s), x, p, s);
  }

  lemma RedSiblingThen<N>(g: Graph<N>, x: N, p: N, s: Side)
    requires Repairing(g, x, Owes(p, s)) && g.Black(x) && g.cells[p].Kid(!s) in g.cells && !g.Black(g.cells[p].Kid(!s))
    ensures var g1 := Lifted(g, p, !s);
      g1.Black(x) && g1.Black(g1.cells[p].Kid(!s)) && ToRepair(g1, Owes(p, s)) == ToRepair(g, Owes(p, s))
  {
    Sibling(g, x, p, s);
    KidAfterRot(g, p, s, p, !s);
    assert g.KeyOk(p);
    RotKeyAt(g, p, s, p);
  }

  // ---------- the nodes in key order ----------

  ghost function InOrder<N>(g: Graph<N>, n: N): seq<N>
    requires g.Shape()
    decreases if n in g.cells then g.cells[n].hi - g.cells[n].lo else 0
  {
    if n !in g.cells then [] else
      assert g.KeyOk(n) && g.KidOk(n, L) && g.KidOk(n, R);
      InOrder(g, g.cells[n].left) + [n] + InOrder(g, g.cells[n].right)
  }

  ghost predicate Ascending<N>(g: Graph<N>, s: seq<N>) {
    && (forall i | 0 <= i < |s| :: s[i] in g.cells)
    && (forall i, j | 0 <= i < j < |s| :: g.cells[s[i]].key < g.cells[s[j]].key)
  }

  /** Walking a subtree meets its nodes, all of them, in ascending order. */
  lemma {:induction false} InOrderSorted<N>(g: Graph<N>, n: N)
    requires g.Shape() && n in g.cells
    ensures Ascending(g, InOrder(g, n))
    ensures forall m :: m in InOrder(g, n) <==> m in Below(g, n)
    decreases g.cells[n].hi - g.cells[n].lo
  {
    assert g.KeyOk(n) && g.KidOk(n, L) && g.KidOk(n, R);
    var l, r := g.cells[n].left, g.cells[n].right;
    if l in g.cells { InOrderSorted(g, l); }
    if r in g.cells { InOrderSorted(g, r); }
    forall m | m in Below(g, n) ensures m in InOrder(g, n) {
      if m != n { Descend(g, n, m); }
    }
    var a, b := InOrder(g, l), InOrder(g, r);
    forall m | m in a ensures g.cells[m].key < g.cells[n].key && m in Below(g, n) { }
    forall m | m in b ensures g.cells[m].key > g.cells[n].key && m in Below(g, n) { }
    Joined(g, a, n, b);
  }

  lemma Joined<N>(g: Graph<N>, a: seq<N>, n: N, b: seq<N>)
    requires Ascending(g, a) && Ascending(g, b) && n in g.cells
    requires forall m | m in a :: g.cells[m].key < g.cells[n].key
    requires forall m | m in b :: g.cells[n].key < g.cells[m].key
    ensures Ascending(g, a + [n] + b)
  {
    var s := a + [n] + b;
    forall i | 0 <= i < |s| ensures s[i] in g.cells {
      if i > |a| { assert s[i] == b[i - |a| - 1]; }
    }
    forall i, j | 0 <= i < j < |s| ensures g.cells[s[i]].key < g.cells[s[j]].key {
      if j > |a| { assert s[j] == b[j - |a| - 1] && s[j] in b; }
      if i < |a| { assert s[i] in a; }
      if i > |a| { assert s[i] == b[i - |a| - 1]; }
    }
  }

  // ---------- copies ----------

  ghost function To<N>(m: map<N, N>, n: N): N { if n in m then m[n] else n }

  ghost function CopyCell<N>(c: Cell<N>, m: map<N, N>): Cell<N> {
    c.(left := To(m, c.left), right := To(m, c.right),
       parent := match c.parent case None => None case Some(p) => Some(To(m, p)))
  }

  ghost predicate Once<N>(m: map<N, N>, n: N, k: N) requires n in m && k in m { m[n] == m[k] ==> n == k }

  ghost predicate OneToOne<N>(m: map<N, N>) { forall n, k {:trigger Once(m, n, k)} | n in m && k in m :: Once(m, n, k) }

  /** `h` is the tree `g` on other nodes: `m` tells which. */
  ghost predicate Copies<N>(g: Graph<N>, h: Graph<N>, m: map<N, N>) {
    && m.Keys == g.cells.Keys && h.cells.Keys == m.Values && h.nil == g.nil && g.nil !in m.Keys + m.Values
    && h.root == To(m, g.root)
    && OneToOne(m)
    && forall n | n in m :: h.cells[m[n]] == CopyCell(g.cells[n], m)
  }

  lemma CopyAt<N>(g: Graph<N>, h: Graph<N>, m: map<N, N>, n: N, s: Side, k: N)
    requires Copies(g, h, m) && n in g.cells && k in g.cells
    requires g.KidOk(n, s) && g.ParentOk(n) && g.KeyOk(n) && g.Apart(n, k) && g.GapOk(n, s, k)
    requires g.HeightOk(n, s, NoDebt) && g.RedOk(n, s, g.nil, g.nil)
    ensures h.KidOk(m[n], s) && h.ParentOk(m[n]) && h.KeyOk(m[n]) && h.Apart(m[n], m[k]) && h.GapOk(m[n], s, m[k])
    ensures h.HeightOk(m[n], s, NoDebt) && h.RedOk(m[n], s, h.nil, h.nil)
  {
  }

  /** A copy of a valid tree is valid. */
  lemma CopyIsValid<N>(g: Graph<N>, h: Graph<N>, m: map<N, N>)
    requires g.Valid() && Copies(g, h, m)
    ensures h.Valid()
  {
    forall x | x in h.cells ensures h.ParentOk(x) && h.KeyOk(x) { CopyOf(g, h, m, x, L, x); }
    forall x, s | x in h.cells ensures h.KidOk(x, s) { CopyOf(g, h, m, x, s, x); }
    forall x, s | x in h.cells ensures h.HeightOk(x, s, NoDebt) && h.RedOk(x, s, h.nil, h.nil) {
      CopyOf(g, h, m, x, s, x);
    }
    forall x, y | x in h.cells && y in h.cells ensures h.Apart(x, y) { CopyOf(g, h, m, x, L, y); }
    forall x, s, y | x in h.cells && y in h.cells ensures h.GapOk(x, s, y) { CopyOf(g, h, m, x, s, y); }
    assert g.root in g.cells ==> m[g.root] in h.cells;
  }

  lemma CopyOf<N>(g: Graph<N>, h: Graph<N>, m: map<N, N>, x: N, s: Side, y: N)
    requires g.Valid() && Copies(g, h, m) && x in h.cells && y in h.cells
    ensures h.KidOk(x, s) && h.ParentOk(x) && h.KeyOk(x) && h.Apart(x, y) && h.GapOk(x, s, y)
    ensures h.HeightOk(x, s, NoDebt) && h.RedOk(x, s, h.nil, h.nil)
  {
    var n :| n in m && m[n] == x;
    var k :| k in m && m[k] == y;
    AttachOld(g, n, s, k);
    CopyAt(g, h, m, n, s, k);
  }

  /** A walk of the copy meets the copies of the nodes in the same order. */
  lemma {:induction false} CopyInOrder<N>(g: Graph<N>, h: Graph<N>, m: map<N, N>, n: N)
    requires g.Valid() && h.Valid() && Copies(g, h, m) && (n in g.cells || n == g.nil)
    ensures |InOrder(h, To(m, n))| == |InOrder(g, n)|
    ensures forall i | 0 <= i < |InOrder(g, n)| ::
              InOrder(g, n)[i] in m && InOrder(h, To(m, n))[i] == m[InOrder(g, n)[i]]
    decreases if n in g.cells then g.cells[n].hi - g.cells[n].lo else 0
  {
    if n in g.cells {
      assert g.KeyOk(n) && g.KidOk(n, L) && g.KidOk(n, R);
      CopyInOrder(g, h, m, g.cells[n].left);
      CopyInOrder(g, h, m, g.cells[n].right);
      var a, b := InOrder(g, g.cells[n].left), InOrder(g, g.cells[n].right);
      assert InOrder(g, n) == a + [n] + b;
      assert InOrder(h, m[n]) == InOrder(h, To(m, g.cells[n].left)) + [m[n]] + InOrder(h, To(m, g.cells[n].right));
    }
  }

  /** The subtree at `n0`, on other nodes: `cells` are their links, and `up` is the parent of the first. */
  ghost predicate Part<N>(g: Graph<N>, n0: N, m: map<N, N>, cells: map<N, Cell<N>>, up: Option<N>) {
    && m.Keys == (if n0 in g.cells then Below(g, n0) else {}) && cells.Keys == m.Values && g.nil !in m.Keys + m.Values
    && OneToOne(m)
    && forall n | n in m :: cells[m[n]] ==
         CopyCell(g.cells[n].Bare(), m).(parent := if n == n0 then up else CopyCell(g.cells[n], m).parent)
  }

  /** A node and the copies of the subtrees below it make a copy of the subtree. */
  lemma PartJoin<N>(g: Graph<N>, n0: N, x: N, ml: map<N, N>, mr: map<N, N>, cl: map<N, Cell<N>>, cr: map<N, Cell<N>>,
                    cx: Cell<N>, up: Option<N>) returns (m: map<N, N>, c: map<N, Cell<N>>)
    requires g.Shape() && n0 in g.cells && x != g.nil && x !in ml.Values + mr.Values && ml.Values !! mr.Values
    requires Part(g, g.cells[n0].left, ml, cl, Some(x)) && Part(g, g.cells[n0].right, mr, cr, Some(x))
    requires cx == g.cells[n0].Bare().(left := To(ml, g.cells[n0].left), right := To(mr, g.cells[n0].right),
               parent := up)
    ensures Part(g, n0, m, c, up) && m.Keys == ml.Keys + mr.Keys + {n0} && m.Values == ml.Values + mr.Values + {x}
    ensures m[n0] == x && c[x] == cx
    ensures (forall n | n in ml :: m[n] == ml[n]) && (forall n | n in mr :: m[n] == mr[n])
    ensures c.Keys == cl.Keys + cr.Keys + {x} && (forall v | v in cl :: c[v] == cl[v])
    ensures (forall v | v in cr :: c[v] == cr[v])
  {
    PartKeys(g, n0);
    m := ml + mr + map[n0 := x];
    JoinedMaps(ml, mr, n0, x, m);
    c := cl + cr + map[x := cx];
    JoinedCells(cl, cr, x, cx, c);
    PartIs(g, n0, x, ml, mr, cl, cr, up, m, c);
  }

  lemma PartIs<N>(g: Graph<N>, n0: N, x: N, ml: map<N, N>, mr: map<N, N>, cl: map<N, Cell<N>>, cr: map<N, Cell<N>>,
                  up: Option<N>, m: map<N, N>, c: map<N, Cell<N>>)
    requires g.Shape() && n0 in g.cells && x != g.nil
    requires Part(g, g.cells[n0].left, ml, cl, Some(x)) && Part(g, g.cells[n0].right, mr, cr, Some(x))
    requires m.Keys == ml.Keys + mr.Keys + {n0} && m.Values == ml.Values + mr.Values + {x} && m[n0] == x
    requires m.Keys == Below(g, n0)
    requires OneToOne(m)
    requires (forall n | n in ml :: m[n] == ml[n]) && (forall n | n in mr :: m[n] == mr[n])
    requires c.Keys == cl.Keys + cr.Keys + {x}
    requires c[x] == g.cells[n0].Bare().(left := To(ml, g.cells[n0].left), right := To(mr, g.cells[n0].right),
               parent := up)
    requires (forall v | v in cl :: c[v] == cl[v]) && (forall v | v in cr :: c[v] == cr[v])
    ensures Part(g, n0, m, c, up)
  {
    forall n | n in ml ensures c[m[n]] == CopyCell(g.cells[n].Bare(), m) {
      PartSide(g, n0, L, x, ml, cl, m, n);
    }
    forall n | n in mr ensures c[m[n]] == CopyCell(g.cells[n].Bare(), m) {
      PartSide(g, n0, R, x, mr, cr, m, n);
    }
    PartTop(g, n0, ml, mr, m);
    PartAll(g, n0, m, c, up);
  }

  lemma PartTop<N>(g: Graph<N>, n0: N, ml: map<N, N>, mr: map<N, N>, m: map<N, N>)
    requires g.Shape() && n0 in g.cells
    requires var l, r := g.cells[n0].left, g.cells[n0].right;
             && ml.Keys == (if l in g.cells then Below(g, l) else {})
             && mr.Keys == (if r in g.cells then Below(g, r) else {})
    requires (forall n | n in ml :: n in m && m[n] == ml[n]) && (forall n | n in mr :: n in m && m[n] == mr[n])
    requires g.nil !in m
    ensures To(ml, g.cells[n0].left) == To(m, g.cells[n0].left) && To(mr, g.cells[n0].right) == To(m, g.cells[n0].right)
  {
    var l, r := g.cells[n0].left, g.cells[n0].right;
    assert g.KidOk(n0, L) && g.KidOk(n0, R);
    assert l in g.cells ==> g.KeyOk(l);
    assert r in g.cells ==> g.KeyOk(r);
  }

  lemma PartAll<N>(g: Graph<N>, n0: N, m: map<N, N>, c: map<N, Cell<N>>, up: Option<N>)
    requires n0 in g.cells && m.Keys == Below(g, n0) && n0 in m && c.Keys == m.Values && g.nil !in m.Keys + m.Values
    requires OneToOne(m)
    requires forall n | n in m && n != n0 :: c[m[n]] == CopyCell(g.cells[n].Bare(), m)
    requires c[m[n0]] == g.cells[n0].Bare().(left := To(m, g.cells[n0].left), right := To(m, g.cells[n0].right),
               parent := up)
    ensures Part(g, n0, m, c, up)
  {
  }

  lemma JoinedCells<N, C>(cl: map<N, C>, cr: map<N, C>, x: N, cx: C, c: map<N, C>)
    requires cl.Keys !! cr.Keys && x !in cl && x !in cr && c == cl + cr + map[x := cx]
    ensures c.Keys == cl.Keys + cr.Keys + {x} && c[x] == cx
    ensures (forall v | v in cl :: c[v] == cl[v]) && (forall v | v in cr :: c[v] == cr[v])
  {
  }

  lemma JoinedMaps<N>(ml: map<N, N>, mr: map<N, N>, n0: N, x: N, m: map<N, N>)
    requires ml.Keys !! mr.Keys && n0 !in ml.Keys + mr.Keys && x !in ml.Values + mr.Values && ml.Values !! mr.Values
    requires m == ml + mr + map[n0 := x]
    requires OneToOne(ml) && OneToOne(mr)
    ensures m.Keys == ml.Keys + mr.Keys + {n0} && m.Values == ml.Values + mr.Values + {x} && m[n0] == x
    ensures OneToOne(m)
    ensures forall n | n in ml :: m[n] == ml[n]
    ensures forall n | n in mr :: m[n] == mr[n]
  {
    forall v | v in ml.Values ensures v in m.Values { var n :| n in ml && ml[n] == v; assert m[n] == v; }
    forall v | v in mr.Values ensures v in m.Values { var n :| n in mr && mr[n] == v; assert m[n] == v; }
    assert m[n0] == x;
    forall n, k | n in m && k in m ensures Once(m, n, k) {
      assert n in ml && k in ml ==> Once(ml, n, k);
      assert n in mr && k in mr ==> Once(mr, n, k);
      assert n in ml ==> m[n] in ml.Values;
      assert n in mr ==> m[n] in mr.Values;
      assert k in ml ==> m[k] in ml.Values;
      assert k in mr ==> m[k] in mr.Values;
    }
  }

  /** The copies below one child keep their links in the whole. */
  lemma PartSide<N>(g: Graph<N>, n0: N, s: Side, x: N, ms: map<N, N>, cs: map<N, Cell<N>>, m: map<N, N>, n: N)
    requires g.Shape() && n0 in g.cells && n in ms && Part(g, g.cells[n0].Kid(s), ms, cs, Some(x))
    requires n0 in m && m[n0] == x && g.nil !in m && forall k | k in ms :: k in m && m[k] == ms[k]
    ensures cs[ms[n]] == CopyCell(g.cells[n].Bare(), m)
  {
    var k := g.cells[n0].Kid(s);
    assert g.KidOk(n0, s);
    PartLinks(g, k, n);
  }

  /** The nodes below a node are it and those below its children, each once. */
  lemma PartKeys<N>(g: Graph<N>, n0: N)
    requires g.Shape() && n0 in g.cells
    ensures var l, r := g.cells[n0].left, g.cells[n0].right;
            var a, b := if l in g.cells then Below(g, l) else {}, if r in g.cells then Below(g, r) else {};
            Below(g, n0) == a + b + {n0} && a !! b && n0 !in a + b
  {
    assert g.KeyOk(n0) && g.KidOk(n0, L) && g.KidOk(n0, R);
    var l, r := g.cells[n0].left, g.cells[n0].right;
    var a, b := if l in g.cells then Below(g, l) else {}, if r in g.cells then Below(g, r) else {};
    forall n | n in Below(g, n0) && n != n0 ensures n in a + b { Descend(g, n0, n); }
  }

  /** The links of a node below another stay below it, but for the parent of the first. */
  lemma {:induction false} PartLinks<N>(g: Graph<N>, n0: N, n: N)
    requires g.Shape() && n0 in g.cells && n in Below(g, n0)
    ensures var c := g.cells[n];
            && (c.left == g.nil || c.left in Below(g, n0)) && (c.right == g.nil || c.right in Below(g, n0))
            && (n != n0 ==> c.parent.Some? && c.parent.value in Below(g, n0))
    decreases g.cells[n0].hi - g.cells[n0].lo
  {
    assert g.KeyOk(n0) && g.KidOk(n0, L) && g.KidOk(n0, R);
    if n != n0 {
      Descend(g, n0, n);
      var k := g.cells[n0].Kid(SideOf(g, n0, g.cells[n].key));
      PartLinks(g, k, n);
      assert Below(g, k) <= Below(g, n0);
    } else {
      var l, r := g.cells[n].left, g.cells[n].right;
      assert l in g.cells ==> g.KeyOk(l);
      assert r in g.cells ==> g.KeyOk(r);
    }
  }

  /** A copy of the links below the root makes a valid tree. */
  lemma WholeCopy<N>(g: Graph<N>, m: map<N, N>, c: map<N, Cell<N>>) returns (h: Graph<N>)
    requires g.Valid() && g.root in g.cells && Part(g, g.root, m, c, None)
    ensures Copies(g, h, m) && h.Valid() && h.cells.Keys == c.Keys && forall v | v in c :: h.cells[v].Bare() == c[v]
  {
    forall n | n in g.cells ensures n in m { AllWithinRoot(g, n); }
    h := Graph(g.nil, m[g.root], map v | v in c :: CopyCell(g.cells[Original(m, v)], m));
    forall n | n in m ensures m[n] in c && Original(m, m[n]) == n && (n == g.root ==> g.cells[n].parent == None) {
      assert Once(m, Original(m, m[n]), n);
    }
    forall v | v in c ensures h.cells[v].Bare() == c[v] {
      assert m[Original(m, v)] == v;
    }
    CopyIsValid(g, h, m);
  }

  lemma {:induction false} SameSize<N>(m: map<N, N>)
    requires OneToOne(m)
    ensures |m.Values| == |m|
    decreases |m|
  {
    if m != map[] {
      var n :| n in m;
      var rest := m - {n};
      forall i, j | i in rest && j in rest ensures Once(rest, i, j) { assert Once(m, i, j); }
      SameSize(rest);
      forall k | k in m ensures Once(m, n, k) { }
      forall v | v in m.Values && v != m[n] ensures v in rest.Values {
        var k :| k in m && m[k] == v;
        assert k in rest && rest[k] == v;
      }
      assert m.Values == rest.Values + {m[n]};
    }
  }

  ghost function Original<N>(m: map<N, N>, v: N): (n: N)
    requires v in m.Values
    ensures n in m && m[n] == v
  {
    var n :| n in m && m[n] == v;
    n
  }

  // ---------- the length of a search ----------

  ghost function Depth<N>(g: Graph<N>, n: N): nat { 2 * g.Bh(n) + (if g.Black(n) then 0 else 1) }

  lemma DepthShrinks<N>(g: Graph<N>, n: N, s: Side)
    requires g.Balanced(NoDebt) && g.RedRule(g.nil, g.nil) && g.nil !in g.cells && n in g.cells
    ensures Depth(g, g.cells[n].Kid(s)) < Depth(g, n)
  {
    assert g.HeightOk(n, s, NoDebt) && g.RedOk(n, s, g.nil, g.nil);
  }

  /** The number of nodes on the way from the root to a node. */
  ghost function Level<N>(g: Graph<N>, n: N): nat
    requires g.Shape() && n in g.cells
    decreases HASH_LIMIT + 2 - (g.cells[n].hi - g.cells[n].lo)
  {
    match g.cells[n].parent
    case None => 1
    case Some(p) =>
      assert g.ParentOk(n) && g.KeyOk(n);
      assert g.KidOk(p, L) && g.KidOk(p, R) && g.KeyOk(p);
      1 + Level(g, p)
  }

  lemma {:induction false} LevelBound<N>(g: Graph<N>, n: N)
    requires g.Valid() && n in g.cells
    ensures Level(g, n) + Depth(g, n) <= Depth(g, g.root) + 1
    decreases HASH_LIMIT + 2 - (g.cells[n].hi - g.cells[n].lo)
  {
    assert g.ParentOk(n) && g.KeyOk(n);
    if g.cells[n].parent.Some? {
      var p := g.cells[n].parent.value;
      assert g.KidOk(p, L) && g.KidOk(p, R) && g.KeyOk(p);
      DepthShrinks(g, p, g.cells[p].right == n);
      LevelBound(g, p);
    }
  }

  /** No way down a valid tree is longer than twice the binary logarithm of the size plus one. */
  lemma NoLongPath<N>(g: Graph<N>, n: N)
    requires g.Valid() && n in g.cells
    ensures Power2(Level(g, n)) <= (|g.cells| + 1) * (|g.cells| + 1)
  {
    LevelBound(g, n);
    assert g.HeightOk(n, L, NoDebt);
    SearchBound(g, Level(g, n));
  }

  /** No search is longer than twice the binary logarithm of the size plus one. */
  lemma SearchBound<N>(g: Graph<N>, steps: nat)
    requires g.Valid() && steps <= Depth(g, g.root)
    ensures Power2(steps) <= (|g.cells| + 1) * (|g.cells| + 1)
  {
    var h := g.Bh(g.root);
    Power2Grows(steps, 2 * h);
    Power2Adds(h, h);
    if g.root in g.cells {
      ManyBelow(g, g.root);
      assert Below(g, g.root) == g.cells.Keys by {
        forall n | n in g.cells ensures n in Below(g, g.root) { AllWithinRoot(g, n); }
      }
    }
    assert Power2(h) <= |g.cells| + 1;
    SquareGrows(Power2(h), |g.cells| + 1);
  }

  lemma SquareGrows(a: nat, b: nat)
    requires a <= b
    ensures a * a <= b * b
  {
    assert a * a <= a * b <= b * b;
  }

  // ---------- the sanity check ----------

  /** What the recursive check of the black heights returns. */
  ghost function Checked<N>(g: Graph<N>, n: N): (h: int)
    requires g.Shape()
    ensures h >= -1
    decreases if n in g.cells then g.cells[n].hi - g.cells[n].lo else 0
  {
    if n !in g.cells then 0 else
    assert g.KeyOk(n) && g.KidOk(n, L) && g.KidOk(n, R);
    if Checked(g, g.cells[n].left) != Checked(g, g.cells[n].right) then -1
    else Checked(g, g.cells[n].left) + if g.cells[n].red then 0 else 1
  }

  /** Every way down from `n` meets `h` black nodes. */
  ghost predicate AllWays<N>(g: Graph<N>, n: N, h: int)
    requires g.Shape()
    decreases if n in g.cells then g.cells[n].hi - g.cells[n].lo else 0
  {
    if n !in g.cells then h == 0 else
    assert g.KeyOk(n) && g.KidOk(n, L) && g.KidOk(n, R);
    var c := if g.cells[n].red then 0 else 1;
    AllWays(g, g.cells[n].left, h - c) && AllWays(g, g.cells[n].right, h - c)
  }

  ghost predicate Even<N>(g: Graph<N>, n: N) requires g.Shape() { exists h :: AllWays(g, n, h) }

  /** Nowhere below `n` are both subtrees of a node at fault. */
  ghost predicate OneFault<N>(g: Graph<N>, n: N)
    requires g.Shape()
    decreases if n in g.cells then g.cells[n].hi - g.cells[n].lo else 0
  {
    n in g.cells ==>
      assert g.KeyOk(n) && g.KidOk(n, L) && g.KidOk(n, R);
      var l, r := g.cells[n].left, g.cells[n].right;
      !(Checked(g, l) == -1 && Checked(g, r) == -1) && OneFault(g, l) && OneFault(g, r)
  }

  lemma {:induction false} CheckedIs<N>(g: Graph<N>, n: N, h: int)
    requires g.Shape()
    ensures AllWays(g, n, h) <==> h >= 0 && Checked(g, n) == h && OneFault(g, n)
    decreases if n in g.cells then g.cells[n].hi - g.cells[n].lo else 0
  {
    if n in g.cells {
      assert g.KeyOk(n) && g.KidOk(n, L) && g.KidOk(n, R);
      var c := if g.cells[n].red then 0 else 1;
      CheckedIs(g, g.cells[n].left, h - c);
      CheckedIs(g, g.cells[n].right, h - c);
    }
  }

  /** The black heights agree if and only if the check passes and nowhere both subtrees of a node are at fault: then the
      two error values would agree, and count as a height. */
  lemma EvenExactly<N>(g: Graph<N>, n: N)
    requires g.Shape()
    ensures Even(g, n) <==> Checked(g, n) >= 0 && OneFault(g, n)
  {
    if Even(g, n) {
      var h :| AllWays(g, n, h);
      CheckedIs(g, n, h);
    } else if Checked(g, n) >= 0 {
      CheckedIs(g, n, Checked(g, n));
    }
  }

  lemma {:induction false} CheckedIsBh<N>(g: Graph<N>, n: N)
    requires g.Shape() && g.Balanced(NoDebt)
    ensures Checked(g, n) == g.Bh(n) && OneFault(g, n)
    decreases if n in g.cells then g.cells[n].hi - g.cells[n].lo else 0
  {
    if n in g.cells {
      assert g.KeyOk(n) && g.KidOk(n, L) && g.KidOk(n, R) && g.HeightOk(n, L, NoDebt) && g.HeightOk(n, R, NoDebt);
      CheckedIsBh(g, g.cells[n].left);
      CheckedIsBh(g, g.cells[n].right);
    }
  }

  const FIVE: Graph<nat> := Graph(100, 20, map[
    20 := Cell(10, 30, None, false, 20, -1, HASH_LIMIT, 0),
    10 := Cell(5, 100, Some(20), false, 10, -1, 20, 0),
    5 := Cell(100, 100, Some(10), false, 5, -1, 10, 0),
    30 := Cell(25, 100, Some(20), false, 30, 20, HASH_LIMIT, 0),
    25 := Cell(100, 100, Some(30), false, 25, 20, 30, 0)])

  lemma FiveIsShaped()
    ensures FIVE.Shape() && FIVE.RedRule(100, 100)
  {
  }

  /** Five black nodes that the check passes, with two black nodes on some ways and three on others. */
  lemma FaultsMissed()
    ensures FIVE.Shape() && FIVE.RedRule(FIVE.nil, FIVE.nil) && Checked(FIVE, FIVE.root) == 0 && !Even(FIVE, FIVE.root)
  {
    FiveIsShaped();
    assert Checked(FIVE, 5) == 1 && Checked(FIVE, 25) == 1;
    assert Checked(FIVE, 10) == -1 && Checked(FIVE, 30) == -1;
    assert Checked(FIVE, 20) == 0;
    EvenExactly(FIVE, 20);
  }
}

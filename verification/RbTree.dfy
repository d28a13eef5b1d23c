/** The red-black tree of c_rbtree.c: nodes with parent links, one shared sentinel, and fix-up loops. */
module RbTrees {
  import opened FileStats
  import opened Options
  import opened RedBlack
  import opened Powers

  datatype Color = BLACK | RED

  class RbNode {
    const tree: RbTree?
    const data: FileStat?
    var left: RbNode
    var right: RbNode
    var parent: RbNode?
    var color: Color

    function Key(): int { if data == null then -1 else data.phash }

    ghost function ToCell(): Cell<RbNode> reads this {
      Cell(left, right, ToOption(parent), color == RED, Key(), 0, 0, 0)
    }

    constructor Sentinel()
      ensures tree == null && data == null && left == this && right == this && parent == null && color == BLACK
    {
      tree, data, left, right, parent, color := null, null, this, this, null, BLACK;
    }

    constructor (tree: RbTree, data: FileStat?, parent: RbNode?, nil: RbNode)
      ensures this.tree == tree && this.data == data && this.parent == parent && left == nil && right == nil
      ensures color == RED
    {
      this.tree, this.data, this.parent := tree, data, parent;
      left, right, color := nil, nil, RED;
    }
  }

  function ToOption(n: RbNode?): Option<RbNode> { if n == null then None else Some(n) }

  /** Every node of `h` is linked as `h` says. */
  ghost predicate ShownBy(h: Graph<RbNode>) reads h.cells.Keys {
    forall n | n in h.cells :: n.ToCell() == h.cells[n].Bare()
  }

  /** `index` finds exactly the nodes of the tree, by the hash of their data. */
  ghost predicate Indexes(tree: RbTree, nodes: set<RbNode>, index: map<Hash, RbNode>) {
    && (forall n {:trigger n.data} | n in nodes ::
        n.tree == tree && n.data != null && n.data.phash in index && index[n.data.phash] == n)
    && (forall k {:trigger index[k]} | k in index ::
        index[k] in nodes && index[k].data != null && index[k].data.phash == k)
  }

  lemma IndexAdd(tree: RbTree, nodes: set<RbNode>, index: map<Hash, RbNode>, x: RbNode)
    requires Indexes(tree, nodes, index) && x !in nodes && x.tree == tree && x.data != null && x.data.phash !in index
    ensures Indexes(tree, nodes + {x}, index[x.data.phash := x]) && |nodes + {x}| == |nodes| + 1
  {
    var k0, index' := x.data.phash, index[x.data.phash := x];
    forall n | n in nodes ensures n.data != null && n.data.phash in index' && index'[n.data.phash] == n {
      assert n.data.phash in index;
    }
    forall k | k in index' ensures index'[k] in nodes + {x} && index'[k].data != null && index'[k].data.phash == k {
      if k != k0 { assert k in index && index'[k] == index[k]; }
    }
  }

  lemma IndexDrop(tree: RbTree, nodes: set<RbNode>, index: map<Hash, RbNode>, x: RbNode)
    requires Indexes(tree, nodes, index) && x in nodes
    ensures x.data != null && Indexes(tree, nodes - {x}, index - {x.data.phash}) && |nodes - {x}| == |nodes| - 1
  {
    var k0, index' := x.data.phash, index - {x.data.phash};
    forall n | n in nodes - {x} ensures n.data != null && n.data.phash in index' && index'[n.data.phash] == n {
      assert n.data.phash in index && index[k0] == x;
    }
    forall k | k in index' ensures index'[k] in nodes - {x} && index'[k].data != null && index'[k].data.phash == k {
      assert k in index && index'[k] == index[k];
    }
  }

  class RbTree {
    const nil: RbNode
    var root: RbNode
    var size: nat
    ghost var Nodes: set<RbNode>
    ghost var Tree: Graph<RbNode>  // the nodes as a value
    ghost var Index: map<Hash, RbNode>  // what the tree stands for: the node of every hash

    /** The sentinel keeps its links and color; its parent is scratch space for deletion. */
    ghost predicate Owned() reads this, nil`left, nil`right, nil`color {
      && nil.left == nil && nil.right == nil && nil.color == BLACK && nil.data == null
      && size == |Nodes|
      && Indexes(this, Nodes, Index)
    }

    /** The tree as far as links and hashes go, whatever the colors are. */
    ghost predicate Shaped() reads this, nil`left, nil`right, nil`color, Nodes {
      && nil.left == nil && nil.right == nil && nil.color == BLACK && nil.data == null
      && Indexes(this, Nodes, Index) && Shows(Tree) && Tree.Shape()
    }

    ghost predicate Valid() reads this, nil`left, nil`right, nil`color, Nodes {
      Owned() && Shows(Tree) && Tree.Valid()
    }

    constructor (nil: RbNode)
      requires nil.left == nil && nil.right == nil && nil.color == BLACK && nil.data == null
      ensures Valid() && Nodes == {} && Index == map[] && this.nil == nil
    {
      this.nil, root, size, Nodes, Tree, Index := nil, nil, 0, {}, Graph(nil, nil, map[]), map[];
    }

    /** The heap holds exactly the tree `g`. */
    ghost predicate Shows(g: Graph<RbNode>) reads this`root, this`Nodes, Nodes {
      && g.nil == nil && g.root == root && g.cells.Keys == Nodes && nil !in Nodes
      && forall n | n in Nodes :: n.ToCell() == g.cells[n].Bare()
    }

    /** `x` has a child on side `!s` to change places with, and the nodes around it are distinct. */
    ghost predicate CanRotate(x: RbNode, s: Side) reads this`Nodes, Nodes {
      && nil !in Nodes && x in Nodes && var y := if s then x.left else x.right;
      && y in Nodes && y != x
      && var b := if s then y.right else y.left;
      && b != x && b != y && (b == nil || b in Nodes)
      && (x.parent != null ==>
            && x.parent in Nodes && x.parent != x && x.parent != y && x.parent != b && x.parent.left != x.parent.right
            && (x == x.parent.left || x == x.parent.right))
    }

    /** What a rotation at `x` does to the nodes around it; every other node keeps its links. */
    twostate predicate Rotated(x: RbNode, s: Side)
      reads this, Nodes
    {
      && old(CanRotate(x, s))
      && var y := old(if s then x.left else x.right);
      var b, p := old(if s then y.right else y.left), old(x.parent);
      && root == (if p == null then y else old(root)) && Nodes == old(Nodes)
      && y.ToCell() == old(y.ToCell()).SetKid(s, x).(parent := old(x.ToCell()).parent)
      && x.ToCell() == old(x.ToCell()).SetKid(!s, b).(parent := Some(y))
      && (b != nil ==> b.ToCell() == old(b.ToCell()).(parent := Some(x)))
      && (p != null ==> p.ToCell() == old(p.ToCell()).SetKid(old(p.right) == x, y))
      && forall n | n in Nodes && n != x && n != y && n != b && n != p :: n.ToCell() == old(n.ToCell())
    }

    method LeftRotate(x: RbNode)
      requires CanRotate(x, L)
      modifies this`root, Nodes
      ensures Rotated(x, L)
    {
      var y := x.right;
      x.right := y.left;
      if y.left != nil {
        y.left.parent := x;
      }
      if y != nil {
        y.parent := x.parent;
      }
      if x.parent != null {
        if x == x.parent.left {
          x.parent.left := y;
        } else {
          x.parent.right := y;
        }
      } else {
        root := y;
      }
      y.left := x;
      if x != nil {
        x.parent := y;
      }
    }

    method RightRotate(x: RbNode)
      requires CanRotate(x, R)
      modifies this`root, Nodes
      ensures Rotated(x, R)
    {
      var y := x.left;
      x.left := y.right;
      if y.right != nil {
        y.right.parent := x;
      }
      if y != nil {
        y.parent := x.parent;
      }
      if x.parent != null {
        if x == x.parent.right {
          x.parent.right := y;
        } else {
          x.parent.left := y;
        }
      } else {
        root := y;
      }
      y.right := x;
      if x != nil {
        x.parent := y;
      }
    }

    method Rotate(x: RbNode, s: Side, ghost g: Graph<RbNode>)
      requires Shows(g) && g.Pivot(x, s)
      modifies this`root, Nodes
      ensures Shows(g.Rot(x, s))
    {
      RotateReady(g, x, s);
      RotLinks(g, x, s);
      RotateAs(x, s, g, g.Rot(x, s));
    }

    method RotateAs(x: RbNode, s: Side, ghost g: Graph<RbNode>, ghost h: Graph<RbNode>)
      requires Shows(g) && CanRotate(x, s) && RotLinked(g, x, s, h)
      modifies this`root, Nodes
      ensures Shows(h)
    {
      RotateTo(x, s);
    }

    method RotateTo(x: RbNode, s: Side)
      requires CanRotate(x, s)
      modifies this`root, Nodes
      ensures Rotated(x, s)
    {
      if s {
        RightRotate(x);
      } else {
        LeftRotate(x);
      }
    }

    lemma RotateReady(g: Graph<RbNode>, x: RbNode, s: Side)
      requires Shows(g) && g.Pivot(x, s)
      ensures CanRotate(x, s) && x.ToCell() == g.cells[x].Bare()
      ensures g.cells[x].Kid(!s).ToCell() == g.cells[g.cells[x].Kid(!s)].Bare()
    {
    }

    /** Paints one node; its black height is kept beside the color. */
    method SetColor(n: RbNode, c: Color, ghost bh: nat, ghost g: Graph<RbNode>)
      requires Shows(g) && n in Nodes
      modifies n`color
      ensures Shows(g.Paint(n, c == RED, bh))
    {
      n.color := c;
    }

    function Child(n: RbNode, s: Side): RbNode reads n { if s then n.right else n.left }

    /** One turn of the insert fix-up loop; the mirrored halves differ in the side `s` of the red parent only. */
    method StepUp(x0: RbNode, ghost g: Graph<RbNode>) returns (x: RbNode)
      requires Shows(g) && CanStep(g, x0) && nil.color == BLACK
      modifies this`root, Nodes
      ensures Shows(InsertStep(g, x0).0) && x == InsertStep(g, x0).1
    {
      x := x0;
      assert x.ToCell() == g.cells[x].Bare();
      assert x.parent.ToCell() == g.cells[x.parent].Bare();
      var p, gp := x.parent, x.parent.parent;
      assert gp.ToCell() == g.cells[gp].Bare();
      var s: Side := p != gp.left;
      var y := Child(gp, !s);
      if y.color == RED {
        Recolor(p, y, gp, s, g);
        x := gp;
      } else if x == Child(p, !s) {
        x := p;
        Rotate(x, s, g);
        LiftUp(x.parent, gp, s, g.Rot(p, s));
      } else {
        LiftUp(p, gp, s, g);
      }
    }

    method Recolor(p: RbNode, y: RbNode, gp: RbNode, s: Side, ghost g: Graph<RbNode>)
      requires Shows(g) && gp in Nodes && p in Nodes && y in Nodes && p != y && p != gp && y != gp
      requires g.cells[gp].Kid(s) == p && g.cells[gp].Kid(!s) == y
      modifies Nodes
      ensures Shows(Recolored(g, gp))
    {
      RecoloredIs(g, p, y, gp, s);
      SetColor(p, BLACK, g.cells[p].bh + 1, g);
      SetColor(y, BLACK, g.cells[y].bh + 1, g.Paint(p, false, g.cells[p].bh + 1));
      SetColor(gp, RED, g.cells[gp].bh, g.Paint(p, false, g.cells[p].bh + 1).Paint(y, false, g.cells[y].bh + 1));
    }

    method LiftUp(p: RbNode, gp: RbNode, s: Side, ghost g: Graph<RbNode>)
      requires Shows(g) && g.Pivot(gp, !s) && p == g.cells[gp].Kid(s)
      modifies this`root, Nodes
      ensures Shows(Lifted(g, gp, s))
    {
      ghost var g1 := g.Paint(p, false, g.cells[gp].bh);
      ghost var g2 := g1.Paint(gp, true, g.cells[p].bh);
      LiftedIs(g, g2, p, gp, s);
      SetColor(p, BLACK, g.cells[gp].bh, g);
      SetColor(gp, RED, g.cells[p].bh, g1);
      Rotate(gp, !s, g2);
    }

    /** The fix-up loop that ends every insertion. */
    method FixUp(x0: RbNode, ghost g0: Graph<RbNode>) returns (ghost g': Graph<RbNode>)
      requires Shows(g0) && Fixing(g0, x0) && nil.color == BLACK
      modifies this`root, Nodes
      ensures Shows(g') && g'.Valid()
    {
      ParentIn(g0, x0);
      var x;
      ghost var g;
      x, g := FixLoop(x0, g0);
      g' := PaintRoot(x, g);
    }

    method FixLoop(x0: RbNode, ghost g0: Graph<RbNode>) returns (x: RbNode, ghost g: Graph<RbNode>)
      requires Climbing(x0, g0)
      modifies this`root, Nodes
      ensures Climbing(x, g) && (x == root || x.parent.color == BLACK)
    {
      x, g := x0, g0;
      while x != root && x.parent.color == RED
        invariant Climbing(x, g)
        decreases if ParentRed(g, x) then 1 else 0, ToClimb(g, x)
      {
        x, g := FixTurn(x, g);
      }
    }

    ghost predicate Climbing(x: RbNode, g: Graph<RbNode>) reads this`root, this`Nodes, Nodes, nil`color, x`parent {
      Shows(g) && Fixing(g, x) && nil.color == BLACK && (x != root ==> x.parent != null)
    }

    method FixTurn(x0: RbNode, ghost g: Graph<RbNode>) returns (x: RbNode, ghost g': Graph<RbNode>)
      requires Climbing(x0, g) && x0 != root && x0.parent.color == RED
      modifies this`root, Nodes
      ensures Climbing(x, g')
      ensures ParentRed(g, x0) && (ParentRed(g', x) ==> ToClimb(g', x) < ToClimb(g, x0))
    {
      assert x0.ToCell() == g.cells[x0].Bare();
      ParentIn(g, x0);
      assert x0.parent.ToCell() == g.cells[x0.parent].Bare();
      InsertStepOk(g, x0);
      x := StepUp(x0, g);
      g' := InsertStep(g, x0).0;
      ParentIn(g', x);
    }

    method PaintRoot(x: RbNode, ghost g: Graph<RbNode>) returns (ghost g': Graph<RbNode>)
      requires Shows(g) && Fixing(g, x) && (x == root || (x.parent != null && x.parent.color == BLACK))
      modifies Nodes
      ensures Shows(g') && g'.Valid()
    {
      ParentIn(g, x);
      assert x != root ==> x.parent.ToCell() == g.cells[x.parent].Bare();
      FixDone(g, x);
      g' := Blackened(g, root);
      BlackenedIs(g, root);
      SetColor(root, BLACK, if g.cells[root].red then g.cells[root].bh + 1 else g.cells[root].bh, g);
    }

    lemma ParentIn(g: Graph<RbNode>, x: RbNode)
      requires Shows(g) && Fixing(g, x)
      ensures x in Nodes && root in Nodes && (x.parent == null <==> x == root)
      ensures x.parent != null ==> x.parent in Nodes && g.cells[x].parent == Some(x.parent)
    {
      assert g.ParentOk(x);
      assert x.ToCell() == g.cells[x].Bare();
      assert g.root in g.cells;
    }

    /** The classic descent: either the hash is there, or it belongs under `parent` on the side `cmp` tells. */
    method FindPlace(data: FileStat, ghost g: Graph<RbNode>) returns (parent: RbNode?, cmp: int, found: bool)
      requires Valid() && g == Tree
      ensures found ==> parent != null && parent in Nodes && parent.Key() == data.phash
      ensures !found ==>
                && Vacant(g, data.phash, ToOption(parent), cmp > 0)
                && (parent != null ==> parent in Nodes && cmp != 0)
    {
      var current: RbNode := root;
      parent, cmp := null, 0;
      while current != nil
        invariant current != nil ==> current in Nodes && Within(g, current, data.phash)
        invariant parent == null ==> current == root && cmp == 0
        invariant parent != null ==> parent in Nodes && cmp != 0
        invariant current == nil ==> Vacant(g, data.phash, ToOption(parent), cmp > 0)
        decreases if current in g.cells then g.cells[current].hi - g.cells[current].lo + 1 else 0
      {
        assert g.KeyOk(current) && g.KidOk(current, L) && g.KidOk(current, R);
        assert current.ToCell() == g.cells[current].Bare();
        cmp := DataCmp(data, current.data);
        parent := current;
        if cmp == 0 {
          return parent, cmp, true;
        } else if cmp < 0 {
          current := current.left;
        } else {
          current := current.right;
        }
      }
      found := false;
    }

    /** Inserts `data` under its hash; a hash that is already there leaves everything as it was. */
    method Insert(data: FileStat) returns (rc: int)
      requires Valid()
      modifies this, Nodes
      ensures Valid()
      ensures rc == (if data.phash in old(Index) then 1 else 0)
      ensures rc == 1 ==> unchanged(this) && unchanged(Nodes)
      ensures rc == 0 ==> data.phash in Index && Index[data.phash].data == data && fresh(Index[data.phash])
      ensures rc == 0 ==>
                && Index == old(Index)[data.phash := Index[data.phash]]
                && Nodes == old(Nodes) + {Index[data.phash]}
    {
      ghost var g := Tree;
      var parent, cmp, found := FindPlace(data, g);
      if found {
        return 1;
      }
      NotThere(g, data.phash, ToOption(parent), cmp > 0);
      var x := new RbNode(this, data, parent, nil);
      AddNode(x, parent, cmp, g);
      rc := 0;
    }

    method AddNode(x: RbNode, parent: RbNode?, cmp: int, ghost g: Graph<RbNode>)
      requires Valid() && g == Tree && x !in Nodes && x != nil && x.left == nil && x.right == nil
      requires x.parent == parent && x.color == RED
      requires x.tree == this && x.data != null && x.data.phash !in Index
      requires Vacant(g, x.Key(), ToOption(parent), cmp > 0) && (parent != null ==> cmp != 0)
      modifies this, x, Nodes
      ensures Nodes == old(Nodes) + {x} && Index == old(Index)[x.data.phash := x] && Valid()
    {
      IndexAdd(this, Nodes, Index, x);
      ghost var index := Index[x.data.phash := x];
      ghost var g' := Hang(x, parent, cmp, g);
      Commit(size + 1, g', index);
    }

    /** Records the new size, and the ghost view that goes with it. */
    method Commit(n: nat, ghost g: Graph<RbNode>, ghost index: map<Hash, RbNode>)
      requires Shows(g) && g.Valid() && nil.left == nil && nil.right == nil && nil.color == BLACK && nil.data == null
      requires n == |Nodes| && Indexes(this, Nodes, index)
      modifies this`size, this`Tree, this`Index
      ensures size == n && Tree == g && Index == index && Valid()
    {
      size := n;
      Tree, Index := g, index;
    }

    method Hang(x: RbNode, parent: RbNode?, cmp: int, ghost g: Graph<RbNode>) returns (ghost g': Graph<RbNode>)
      requires Shows(g) && g.Valid() && nil.color == BLACK
      requires x !in Nodes && x != nil && x.left == nil && x.right == nil && x.parent == parent && x.color == RED
      requires Vacant(g, x.Key(), ToOption(parent), cmp > 0) && (parent != null ==> cmp != 0)
      modifies this`root, this`Nodes, x, Nodes
      ensures Shows(g') && g'.Valid() && Nodes == old(Nodes) + {x}
    {
      AttachFixing(g, x, x.Key(), ToOption(parent), cmp > 0);
      Attach(x, parent, cmp, g);
      assert nil !in Nodes;
      g' := FixUp(x, Attached(g, x, x.Key(), ToOption(parent), cmp > 0));
    }

    method Attach(x: RbNode, parent: RbNode?, cmp: int, ghost g: Graph<RbNode>)
      requires Shows(g) && x !in Nodes && x != nil && x.left == nil && x.right == nil && x.parent == parent
      requires x.color == RED
      requires Vacant(g, x.Key(), ToOption(parent), cmp > 0) && (parent != null ==> cmp != 0)
      modifies this`root, this`Nodes, Nodes
      ensures Nodes == old(Nodes) + {x} && Shows(Attached(g, x, x.Key(), ToOption(parent), cmp > 0))
    {
      assert parent != null ==> parent.ToCell() == g.cells[parent].Bare();
      AttachedBare(g, x, x.Key(), ToOption(parent), cmp > 0);
      LinkTo(x, parent, cmp);
      Nodes := Nodes + {x};
    }

    method LinkTo(x: RbNode, parent: RbNode?, cmp: int)
      requires x != parent && (parent != null ==> cmp != 0)
      modifies this`root, parent
      ensures root == if parent == null then x else old(root)
      ensures parent != null ==> parent.ToCell() == old(parent.ToCell()).SetKid(cmp > 0, x)
    {
      if parent != null {
        if cmp < 0 {
          parent.left := x;
        } else {
          parent.right := x;
        }
      } else {
        root := x;
      }
    }

    // ---------- deletion ----------

    /** `y` has at most one child, which is neither itself nor its parent. */
    ghost predicate CanUnlink(y: RbNode) reads this`Nodes, Nodes {
      && nil !in Nodes && y in Nodes && var x, p := if y.left != nil then y.left else y.right, y.parent;
      && x != y && (x == nil || x in Nodes)
      && (p != null ==> p in Nodes && p != x && p != y && p.left != p.right && (y == p.left || y == p.right))
    }

    /** Takes `y` out of the parent chain and puts its only child, or the sentinel, in its place. */
    method Unlink(y: RbNode) returns (x: RbNode)
      requires CanUnlink(y)
      modifies this`root, this`Nodes, nil`parent, Nodes
      ensures Nodes == old(Nodes) - {y} && x == old(if y.left != nil then y.left else y.right)
      ensures x.parent == old(y.parent)
      ensures root == (if old(y.parent) == null then x else old(root)) && y.ToCell() == old(y.ToCell())
      ensures x != nil ==> x.ToCell() == old(x.ToCell()).(parent := old(y.ToCell()).parent)
      ensures var p := old(y.parent); p != null ==> p.ToCell() == old(p.ToCell()).SetKid(old(p.right) == y, x)
      ensures forall n | n in Nodes && n != x && n != old(y.parent) :: n.ToCell() == old(n.ToCell())
    {
      if y.left != nil {
        x := y.left;
      } else {
        x := y.right;
      }
      x.parent := y.parent;
      if y.parent != null {
        if y == y.parent.left {
          y.parent.left := x;
        } else {
          y.parent.right := x;
        }
      } else {
        root := x;
      }
      Nodes := Nodes - {y};
    }

    method Splice(y: RbNode, ghost g: Graph<RbNode>) returns (x: RbNode)
      requires Shows(g) && Twig(g, y)
      modifies this`root, this`Nodes, nil`parent, Nodes
      ensures Nodes == old(Nodes) - {y} && Shows(Spliced(g, y)) && x == OnlyKid(g, y)
      ensures ToOption(x.parent) == g.cells[y].parent
      ensures y.color == old(y.color)
    {
      UnlinkReady(g, y);
      SplicedLinks(g, y);
      x := Unlink(y);
    }

    lemma UnlinkReady(g: Graph<RbNode>, y: RbNode)
      requires Shows(g) && Twig(g, y)
      ensures CanUnlink(y) && y.ToCell() == g.cells[y].Bare()
      ensures (y.parent != null ==> y.parent.ToCell() == g.cells[y.parent].Bare())
    {
      assert y.ToCell() == g.cells[y].Bare();
      if y.parent != null {
        assert y.parent.ToCell() == g.cells[y.parent].Bare();
      }
    }

    /** One turn of the delete fix-up loop at the child `x` of `p` on side `s`. */
    method StepRepair(x0: RbNode, p: RbNode, s: Side, ghost g: Graph<RbNode>) returns (x: RbNode)
      requires Shows(g) && CanRepair(g, p, s) && nil.color == BLACK && x0.parent == p && x0 == g.cells[p].Kid(s)
      modifies this`root, Nodes
      ensures Shows(RepairStep(g, p, s).0) && x == RepairStep(g, p, s).1
    {
      x := x0;
      var w := Child(x.parent, !s);
      assert p.ToCell() == g.cells[p].Bare() && w.ToCell() == g.cells[w].Bare();
      if w.color == RED {
        LiftUp(w, p, !s, g);
        w := Child(p, !s);
      }
      x := StepSettle(p, w, s, AfterRedSibling(g, p, s));
    }

    method StepSettle(p: RbNode, w: RbNode, s: Side, ghost g: Graph<RbNode>) returns (x: RbNode)
      requires Shows(g) && CanSettle(g, p, s) && w == g.cells[p].Kid(!s) && nil.color == BLACK
      modifies this`root, Nodes
      ensures Shows(SettleStep(g, p, s).0) && x == SettleStep(g, p, s).1
    {
      KidColors(w, g);
      if w.left.color == BLACK && w.right.color == BLACK {
        x := StepShrink(p, w, g);
      } else {
        x := StepPay(p, w, s, g);
      }
    }

    lemma KidColors(w: RbNode, g: Graph<RbNode>)
      requires Shows(g) && w in Nodes && nil.color == BLACK
      requires (w.left == nil || w.left in Nodes) && (w.right == nil || w.right in Nodes)
      ensures w.ToCell() == g.cells[w].Bare() && (w.left.color == BLACK <==> g.Black(w.left))
      ensures (w.right.color == BLACK <==> g.Black(w.right))
    {
      assert w.ToCell() == g.cells[w].Bare();
      assert w.left in Nodes ==> w.left.ToCell() == g.cells[w.left].Bare();
      assert w.right in Nodes ==> w.right.ToCell() == g.cells[w.right].Bare();
    }

    /** Black sibling with black children: it turns red, and the debt moves up. */
    method StepShrink(p: RbNode, w: RbNode, ghost g: Graph<RbNode>) returns (x: RbNode)
      requires Shows(g) && p in Nodes && w in Nodes && p != w && g.cells[p].bh > 0 && g.cells[w].bh > 0
      modifies Nodes
      ensures Shows(Shrunk(g, p, w)) && x == p
    {
      SetColor(w, RED, g.cells[w].bh - 1, g);
      Shrink(p, w, g);
      x := p;
    }

    /** Black sibling with a red child: rotations pay the debt. */
    method StepPay(p: RbNode, w0: RbNode, s: Side, ghost g: Graph<RbNode>) returns (x: RbNode)
      requires Shows(g) && CanSettle(g, p, s) && w0 == g.cells[p].Kid(!s) && nil.color == BLACK
      requires !(g.Black(g.cells[w0].left) && g.Black(g.cells[w0].right))
      modifies this`root, Nodes
      ensures Shows(Settled(AfterNearRed(g, p, s), p, s)) && x == root
    {
      var w := w0;
      assert p.ToCell() == g.cells[p].Bare();
      KidColors(w, g);
      if Child(w, !s).color == BLACK {
        LiftUp(Child(w, s), w, s, g);
        w := Child(p, !s);
      }
      Settle(p, w, s, AfterNearRed(g, p, s));
      x := root;
    }

    /** Nothing is painted at `p`: only the ghost view learns that the subtree is one black node shorter. */
    lemma Shrink(p: RbNode, w: RbNode, g: Graph<RbNode>)
      requires p in g.cells && w in g.cells && p != w && g.cells[p].bh > 0 && g.cells[w].bh > 0
      requires Shows(g.Paint(w, true, g.cells[w].bh - 1))
      ensures Shows(Shrunk(g, p, w))
    {
      ShrunkIs(g, p, w);
    }

    method Settle(p: RbNode, w: RbNode, s: Side, ghost g: Graph<RbNode>)
      requires Shows(g) && g.Pivot(p, s) && w == g.cells[p].Kid(!s)
      requires var o := g.cells[w].Kid(!s); o in g.cells && o != p && o != w
      modifies this`root, Nodes
      ensures Shows(Settled(g, p, s))
    {
      assert p.ToCell() == g.cells[p].Bare() && w.ToCell() == g.cells[w].Bare();
      var o := Child(w, !s);
      ghost var g1 := g.Paint(w, g.cells[p].red, g.cells[p].bh);
      ghost var g2 := g1.Paint(p, false, g.cells[w].bh);
      ghost var g3 := g2.Paint(o, false, g.cells[o].bh + 1);
      SettledIs(g, g3, p, w, o, s);
      SetColor(w, p.color, g.cells[p].bh, g);
      SetTwoBlack(p, o, g.cells[w].bh, g.cells[o].bh + 1, g1);
      Rotate(p, s, g3);
    }

    method SetTwoBlack(n: RbNode, k: RbNode, ghost bh: nat, ghost bhk: nat, ghost g: Graph<RbNode>)
      requires Shows(g) && n in Nodes && k in Nodes
      modifies n`color, k`color
      ensures Shows(g.Paint(n, false, bh).Paint(k, false, bhk))
    {
      SetColor(n, BLACK, bh, g);
      SetColor(k, BLACK, bhk, g.Paint(n, false, bh));
    }

    /** The fix-up of a deletion: `x` may be the sentinel, whose parent field then leads up. */
    method Repair(x0: RbNode, ghost debt0: Debt<RbNode>, ghost g0: Graph<RbNode>) returns (ghost g': Graph<RbNode>)
      requires Shows(g0) && Repairing(g0, x0, debt0) && nil.color == BLACK && ParentIs(x0, debt0)
      modifies this`root, nil`color, Nodes
      ensures Shows(g') && g'.Valid() && nil.color == BLACK
    {
      var x;
      ghost var g, debt;
      x, g, debt := RepairLoop(x0, g0, debt0);
      g' := PaintBlack(x, g, debt);
    }

    ghost predicate Mending(x: RbNode, g: Graph<RbNode>, debt: Debt<RbNode>)
      reads this`root, this`Nodes, Nodes, nil`color, x`parent
    {
      Repairing(g, x, debt) && Shows(g) && nil.color == BLACK && ParentIs(x, debt)
    }

    method RepairLoop(x0: RbNode, ghost g0: Graph<RbNode>, ghost debt0: Debt<RbNode>)
      returns (x: RbNode, ghost g: Graph<RbNode>, ghost debt: Debt<RbNode>)
      requires Mending(x0, g0, debt0)
      modifies this`root, Nodes
      ensures Mending(x, g, debt) && (x == root || x.color == RED)
    {
      x, g, debt := x0, g0, debt0;
      while x != root && x.color == BLACK
        invariant Mending(x, g, debt)
        decreases ToRepair(g, debt)
      {
        x, g, debt := RepairTurn(x, g, debt);
      }
    }

    method PaintBlack(x: RbNode, ghost g: Graph<RbNode>, ghost debt: Debt<RbNode>) returns (ghost g': Graph<RbNode>)
      requires Shows(g) && Repairing(g, x, debt) && nil.color == BLACK && (x == root || x.color == RED)
      modifies nil`color, Nodes
      ensures Shows(g') && g'.Valid() && nil.color == BLACK
    {
      if x != nil { InTree(g, x, debt); }
      assert x != nil ==> x.ToCell() == g.cells[x].Bare();
      RepairDone(g, x, debt);
      g' := Blackened(g, x);
      if x == nil {
        x.color := BLACK;
        assert g'.cells == g.cells;
      } else {
        BlackenedIs(g, x);
        SetColor(x, BLACK, if g.cells[x].red then g.cells[x].bh + 1 else g.cells[x].bh, g);
      }
    }

    method RepairTurn(x0: RbNode, ghost g: Graph<RbNode>, ghost debt: Debt<RbNode>)
      returns (x: RbNode, ghost g': Graph<RbNode>, ghost debt': Debt<RbNode>)
      requires Mending(x0, g, debt) && x0 != root && x0.color == BLACK
      modifies this`root, Nodes
      ensures Mending(x, g', debt') && ToRepair(g', debt') < ToRepair(g, debt)
    {
      var p := x0.parent;
      BlackAndShort(g, x0, debt);
      RepairStepOk(g, x0, p, debt.side);
      var s: Side := x0 != p.left;
      assert s == debt.side;
      ghost var r := RepairStep(g, p, s);
      x := StepRepair(x0, p, s, g);
      g', debt' := r.0, r.2;
      DebtorIsParent(g', x, debt');
    }

    lemma BlackAndShort(g: Graph<RbNode>, x: RbNode, debt: Debt<RbNode>)
      requires Shows(g) && Repairing(g, x, debt) && x != root && x.color == BLACK
      ensures debt.Owes? && g.Black(x) && debt.node in Nodes && debt.node.ToCell() == g.cells[debt.node].Bare()
    {
      if x in Nodes { assert x.ToCell() == g.cells[x].Bare(); }
    }

    ghost predicate ParentIs(x: RbNode, debt: Debt<RbNode>) reads x`parent, this`root {
      match debt
      case NoDebt => x == root
      case Owes(p, s) => x.parent == p
    }

    lemma InTree(g: Graph<RbNode>, x: RbNode, debt: Debt<RbNode>)
      requires Shows(g) && Repairing(g, x, debt) && x != nil
      ensures x in Nodes
    {
      if debt.Owes? { assert g.KidOk(debt.node, debt.side); }
    }

    lemma DebtorIsParent(g: Graph<RbNode>, x: RbNode, debt: Debt<RbNode>)
      requires Shows(g) && Repairing(g, x, debt) && (x == nil ==> debt == NoDebt)
      ensures ParentIs(x, debt)
    {
      if debt.Owes? {
        assert g.KidOk(debt.node, debt.side);
        assert x.ToCell() == g.cells[x].Bare();
      }
    }

    /** The node that a deletion takes out of the parent chain and frees: the node itself if it has at most one child,
        and else, against the comment in the source, not its successor but the least node below it. */
    method Victim(node: RbNode) returns (y: RbNode)
      requires Valid() && node in Nodes
      ensures y in Nodes && (y == node <==> node.left == nil || node.right == nil) && (y == node || y.left == nil)
      ensures y != node ==> y.Key() < node.Key() && Within(Tree, node, y.Key())
      ensures y != node ==> forall m | m in Nodes && Within(Tree, node, m.Key()) :: y.Key() <= m.Key()
    {
      assert node.ToCell() == Tree.cells[node].Bare() && Tree.KeyOk(node);
      if node.left == nil || node.right == nil {
        return node;
      }
      y := SubtreeEnd(node, L);
      LeftIsLess(node, y);
    }

    lemma LeftIsLess(node: RbNode, y: RbNode)
      requires Valid() && node in Nodes && y in Nodes && node.left != nil
      requires forall m | m in Nodes && Within(Tree, node, m.Key()) :: m == y || Past(L, y.Key(), m.Key())
      ensures y.Key() < node.Key()
    {
      assert node.ToCell() == Tree.cells[node].Bare() && Tree.KidOk(node, L) && Tree.KeyOk(node);
      assert Tree.KeyOk(node.left) && node.left.ToCell() == Tree.cells[node.left].Bare();
      assert Within(Tree, node, node.left.Key()) && node.left.Key() < node.Key();
    }

    /** The tree still leads to the node. */
    ghost predicate Linked(n: RbNode) reads this`root, this`Nodes, Nodes {
      root == n || exists m | m in Nodes :: m.left == n || m.right == n
    }

    /** Deletes a node. It is the one that is freed exactly if it has at most one child, and then the tree stays valid
        without it and does not lead to it; else a lesser node below it is freed, which has been spliced in where `node`
        was. What the fix-up loop then makes of the tree, whose heights need not agree, is not part of this model. */
    method Delete(node: RbNode) returns (rc: int, freed: RbNode)
      requires Valid() && node in Nodes
      modifies this, nil`parent, nil`color, Nodes
      ensures rc == 0 && freed in old(Nodes) && (freed == node <==> old(node.left == nil || node.right == nil))
      ensures freed == node ==> Valid() && Nodes == old(Nodes) - {node} && Index == old(Index) - {node.data.phash}
      ensures freed == node ==> !Linked(freed)
      ensures freed != node ==> freed.Key() < node.Key()
    {
      freed := Victim(node);
      if freed == node {
        IndexDrop(this, Nodes, Index, node);
        DeleteTwig(node, size - 1, Index - {node.data.phash});
        NotLinked(node);
      } else {
        VictimFits(node, freed);
        Substitute(node, freed);
      }
      rc := 0;
    }

    lemma NotLinked(n: RbNode)
      requires Valid() && n !in Nodes && n != nil
      ensures !Linked(n)
    {
      forall m | m in Nodes ensures m.left != n && m.right != n {
        assert m.ToCell() == Tree.cells[m].Bare() && Tree.KidOk(m, L) && Tree.KidOk(m, R);
      }
      assert Tree.root == root;
    }

    /** A node after `y` below `p` was unlinked, with `x` in its place. */
    ghost function Unlinked(n: RbNode, c: Cell<RbNode>, y: RbNode, x: RbNode, p: Option<RbNode>): Cell<RbNode> {
      if n == x then c.(parent := p) else if p == Some(n) then c.SetKid(c.right == y, x) else c
    }

    /** A node after `y` has taken the links of `node`, whose cell was `d`. */
    ghost function Relinked(n: RbNode, c: Cell<RbNode>, y: RbNode, node: RbNode, d: Cell<RbNode>): Cell<RbNode> {
      var c' := Linking(n, c, y, d);
      if n != y && d.parent == Some(n) then c'.SetKid(c'.left != node, y) else c'
    }

    ghost function Linking(n: RbNode, c: Cell<RbNode>, y: RbNode, d: Cell<RbNode>): Cell<RbNode> {
      if n == y then c.(left := d.left, right := d.right, parent := d.parent)
      else if n == d.left || n == d.right then c.(parent := Some(y)) else c
    }

    /** Every node is as the splice leaves it: `y` has the links that `node` has, the children and the parent of `node`
        are linked to `y`, and where `y` was its only child is. */
    twostate predicate Substituted(y: RbNode, node: RbNode) reads this`root, this`Nodes, Nodes, y, node {
      var x, p := old(y.right), old(y.ToCell()).parent;
      var d := Unlinked(node, old(node.ToCell()), y, x, p);
      && Nodes == old(Nodes)
      && (forall n | n in Nodes ::
            var c := if n == y then old(y.ToCell()) else Unlinked(n, old(n.ToCell()), y, x, p);
            n.ToCell() == Relinked(n, c, y, node, d))
      && root == if d.parent == None then y else old(if y.parent == null then y.right else root)
    }

    /** `y` is below `node` on its left, without a left child. */
    ghost predicate CanSubstitute(node: RbNode, y: RbNode) reads this`Nodes, Nodes {
      && CanUnlink(y) && node in Nodes && node != y && node.parent != y && y.left == nil && y.right != node
      && node.left in Nodes && node.right in Nodes && node.right != y && (node.left == y <==> y.parent == node)
      && (node.parent != null ==> node.parent in Nodes)
    }

    lemma VictimFits(node: RbNode, y: RbNode)
      requires Valid() && node in Nodes && y in Nodes && y != node && y.left == nil
      requires y.Key() < node.Key() && Within(Tree, node, y.Key()) && node.left != nil && node.right != nil
      ensures CanSubstitute(node, y)
    {
      assert y.ToCell() == Tree.cells[y].Bare() && node.ToCell() == Tree.cells[node].Bare();
      DeleteStart(Tree, y);
      TwigOf(Tree, y);
      UnlinkReady(Tree, y);
      assert Tree.KeyOk(y) && Tree.KeyOk(node) && Tree.ParentOk(node) && Tree.ParentOk(y);
      assert Tree.KidOk(y, R) && Tree.KidOk(node, L) && Tree.KidOk(node, R);
      if node.parent != null { assert Tree.KidOk(node.parent, L) && Tree.KidOk(node.parent, R); }
    }

    /** Takes `y`, the least node below `node`, out of the parent chain, and splices it in where `node` is. */
    method Substitute(node: RbNode, y: RbNode)
      requires CanSubstitute(node, y)
      modifies this`root, this`Nodes, nil`parent, Nodes
      ensures Substituted(y, node)
    {
      TakeOut(node, y);
      SpliceIn(node, y);
    }

    method TakeOut(node: RbNode, y: RbNode)
      requires CanSubstitute(node, y)
      modifies this`root, this`Nodes, nil`parent, Nodes
      ensures Nodes == old(Nodes) && y.ToCell() == old(y.ToCell())
      ensures forall n | n in Nodes && n != y ::
                n.ToCell() == Unlinked(n, old(n.ToCell()), y, old(y.right), old(y.ToCell()).parent)
      ensures root == old(if y.parent == null then y.right else root)
    {
      ghost var nodes := Nodes;
      var x := Unlink(y);
      Nodes := nodes;
    }

    /** Gives `y` the links of `node`, and leads its parent to `y`. */
    method SpliceIn(node: RbNode, y: RbNode)
      requires node in Nodes && y in Nodes && node != y && node.left != y && node.right != y && node.parent != y
      requires nil !in Nodes && (node.left == nil || node.left in Nodes) && (node.right == nil || node.right in Nodes)
      requires node.parent != null ==> node.parent in Nodes
      modifies this`root, Nodes
      ensures forall n | n in Nodes :: n.ToCell() == Relinked(n, old(n.ToCell()), y, node, old(node.ToCell()))
      ensures root == if old(node.parent) == null then y else old(root)
    {
      TakeLinks(node, y);
      if y.parent != null {
        if node == y.parent.left {
          y.parent.left := y;
        } else {
          y.parent.right := y;
        }
      } else {
        root := y;
      }
    }

    method TakeLinks(node: RbNode, y: RbNode)
      requires node in Nodes && y in Nodes && node != y && node.left != y && node.right != y
      requires nil !in Nodes && (node.left == nil || node.left in Nodes) && (node.right == nil || node.right in Nodes)
      modifies Nodes
      ensures forall n | n in Nodes :: n.ToCell() == Linking(n, old(n.ToCell()), y, old(node.ToCell()))
    {
      y.parent := node.parent;
      y.left := node.left;
      y.right := node.right;
      if y.left != nil {
        y.left.parent := y;
      }
      if y.right != nil {
        y.right.parent := y;
      }
    }

    /** Deletes a node with at most one child; `index` and `n` tell what is left. */
    method DeleteTwig(node: RbNode, n: nat, ghost index: map<Hash, RbNode>)
      requires Valid() && node in Nodes && (node.left == nil || node.right == nil)
      requires Indexes(this, Nodes - {node}, index) && n == |Nodes - {node}|
      modifies this, nil`parent, nil`color, Nodes
      ensures Nodes == old(Nodes) - {node} && Index == index && Valid()
    {
      ghost var g' := Pluck(node, Tree);
      Commit(n, g', index);
    }

    method Pluck(y: RbNode, ghost g: Graph<RbNode>) returns (ghost g': Graph<RbNode>)
      requires Shows(g) && g.Valid() && nil.color == BLACK && y in Nodes && (y.left == nil || y.right == nil)
      modifies this`root, this`Nodes, nil`parent, nil`color, Nodes
      ensures Shows(g') && g'.Valid() && Nodes == old(Nodes) - {y} && nil.color == BLACK
    {
      assert y.ToCell() == g.cells[y].Bare();
      DeleteStart(g, y);
      TwigOf(g, y);
      var x := Splice(y, g);
      g' := Spliced(g, y);
      if y.color == BLACK {
        g' := Repair(x, DebtOf(g, y), g');
      }
    }

    // ---------- copying ----------

    /** Copies a tree. If it is not empty, the copy is valid, with the same records in the same order and colors on new
        nodes; of an empty tree it is not valid, for the sentinel is copied too, as a root without data. */
    method Dup() returns (copy: RbTree, ghost m: map<RbNode, RbNode>)
      requires Valid()
      ensures fresh(copy) && copy.size == size && (copy.Valid() <==> root != nil)
      ensures root != nil ==> AllNew(copy.Nodes) && CopiedTo(copy, m)
      ensures root == nil ==> copy.root != nil && copy.root.data == null
    {
      if root == nil {
        copy := DupEmpty();
        m := map[];
      } else {
        copy, m := DupFull();
      }
    }

    method DupEmpty() returns (copy: RbTree)
      requires Valid() && root == nil
      ensures fresh(copy) && copy.size == 0 && !copy.Valid() && copy.root != nil && copy.root.data == null
    {
      copy := new RbTree(nil);
      copy.root := CopyNode(nil, copy, null);
    }

    method DupFull() returns (copy: RbTree, ghost m: map<RbNode, RbNode>)
      requires Valid() && root != nil
      ensures fresh(copy) && copy.Valid() && copy.size == size && AllNew(copy.Nodes) && CopiedTo(copy, m)
    {
      var newRoot: RbNode;
      ghost var h, index;
      copy, newRoot, m, h, index := DupNodes();
      ghost var g, index0 := Tree, Index;
      copy.Adopt(newRoot, size, h, index, m);
      CopyHolds(copy, m, g, index0, h, index);
    }

    lemma CopyHolds(copy: RbTree, m: map<RbNode, RbNode>, g: Graph<RbNode>, index0: map<Hash, RbNode>, h: Graph<RbNode>,
                    index: map<Hash, RbNode>)
      requires Tree == g && Index == index0 && copy.Tree == h && copy.Index == index
      ensures Copies(g, h, m) && index == IndexOver(index0, m) && SameRecords(m) ==> CopiedTo(copy, m)
    {
    }

    method DupNodes()
      returns (copy: RbTree, newRoot: RbNode, ghost m: map<RbNode, RbNode>, ghost h: Graph<RbNode>,
          ghost index: map<Hash, RbNode>)
      requires Valid() && root != nil
      ensures fresh(copy) && copy.nil == nil && Copies(Tree, h, m) && h.Valid() && h.root == newRoot && ShownBy(h)
      ensures AllNew(h.cells.Keys) && |h.cells.Keys| == size
      ensures SameRecords(m) && index == IndexOver(Index, m) && Indexes(copy, h.cells.Keys, index)
    {
      Rooted();
      copy := new RbTree(nil);
      ghost var copies;
      newRoot, m, copies := SubtreeDup(root, copy, null);
      assert AllNew(copies);
      h := DupTree(m, copies);
      index := DupIndex(m, h, copy);
      CopyColors(m, h, copy);
    }

    /** The same tree on the nodes that `m` leads to, with the same records. */
    ghost predicate CopiedTo(copy: RbTree, m: map<RbNode, RbNode>)
      reads this`Tree, this`Index, copy`Tree, copy`Index, m.Keys + m.Values
    {
      Copies(Tree, copy.Tree, m) && SameRecords(m) && copy.Index == IndexOver(Index, m)
    }

    /** Copies carry the records and colors of their nodes. */
    ghost predicate SameRecords(m: map<RbNode, RbNode>) reads m.Keys + m.Values {
      forall n | n in m :: m[n].data == n.data && m[n].color == n.color
    }

    ghost function IndexOver(index: map<Hash, RbNode>, m: map<RbNode, RbNode>): map<Hash, RbNode> {
      map k | k in index :: To(m, index[k])
    }

    lemma DupTree(m: map<RbNode, RbNode>, copies: set<RbNode>) returns (h: Graph<RbNode>)
      requires Valid() && root != nil && Part(Tree, root, m, CellsOf(copies), None)
      ensures Copies(Tree, h, m) && h.Valid() && h.cells.Keys == copies && ShownBy(h)
    {
      Rooted();
      assert CellsOf(copies).Keys == copies;
      h := WholeCopy(Tree, m, CellsOf(copies));
    }

    lemma DupIndex(m: map<RbNode, RbNode>, h: Graph<RbNode>, copy: RbTree) returns (index: map<Hash, RbNode>)
      requires Valid() && Copies(Tree, h, m) && ShownBy(h) && SameData(m, copy)
      ensures |h.cells.Keys| == size && index == IndexOver(Index, m) && Indexes(copy, h.cells.Keys, index)
    {
      SameSize(m);
      index := IndexOver(Index, m);
      CopyIndexes(this, Nodes, Index, m, copy);
      assert |m| == |m.Keys|;
    }

    lemma CopyColors(m: map<RbNode, RbNode>, h: Graph<RbNode>, copy: RbTree)
      requires Shows(Tree) && Copies(Tree, h, m) && ShownBy(h) && SameData(m, copy)
      ensures SameRecords(m)
    {
      forall n | n in m ensures m[n].color == n.color {
        assert n.ToCell() == Tree.cells[n].Bare() && m[n].ToCell() == h.cells[m[n]].Bare();
      }
    }

    /** Takes over the nodes of a copied tree. */
    method Adopt(newRoot: RbNode, n: nat, ghost h: Graph<RbNode>, ghost index: map<Hash, RbNode>,
                 ghost m: map<RbNode, RbNode>)
      requires nil.left == nil && nil.right == nil && nil.color == BLACK && nil.data == null
      requires h.nil == nil && h.root == newRoot && h.Valid() && ShownBy(h)
      requires n == |h.cells.Keys| && Indexes(this, h.cells.Keys, index) && SameRecords(m)
      modifies this
      ensures size == n && Nodes == h.cells.Keys && Index == index && Tree == h && SameRecords(m) && Valid()
    {
      root, Nodes := newRoot, h.cells.Keys;
      Commit(n, h, index);
    }

    /** The root is a node like any other. */
    lemma Rooted()
      requires Valid() && root != nil
      ensures root in Nodes && Tree.root == root && Tree.cells.Keys == Nodes
    {
    }

    /** Copies the nodes at and below `node` to the nodes `copies`; `m` tells which stands for which. */
    method SubtreeDup(node: RbNode, newTree: RbTree, newParent: RbNode?)
      returns (newNode: RbNode, ghost m: map<RbNode, RbNode>, ghost copies: set<RbNode>)
      requires Valid() && node in Nodes
      ensures node in m && newNode == m[node] && AllNew(copies)
      ensures Part(Tree, node, m, CellsOf(copies), ToOption(newParent))
      ensures SameData(m, newTree)
      decreases Tree.cells[node].hi - Tree.cells[node].lo, 3
    {
      newNode := CopyNode(node, newTree, newParent);
      m, copies := CopyBelow(node, newTree, newNode);
    }

    /** Hangs copies of what is below `node` under its copy. */
    method CopyBelow(node: RbNode, newTree: RbTree, newNode: RbNode)
      returns (ghost m: map<RbNode, RbNode>, ghost copies: set<RbNode>)
      requires Valid() && node in Nodes && newNode !in Nodes && newNode != nil
      requires newNode.tree == newTree && newNode.data == node.data && newNode.color == node.color
      modifies newNode
      ensures node in m && newNode == m[node] && forall n | n in copies :: n == newNode || fresh(n)
      ensures Part(Tree, node, m, CellsOf(copies), ToOption(old(newNode.parent)))
      ensures SameData(m, newTree)
      decreases Tree.cells[node].hi - Tree.cells[node].lo, 2
    {
      assert node.ToCell() == Tree.cells[node].Bare() && Tree.KeyOk(node);
      var left, right, ml, mr, cl, cr := KidsDup(node, newTree, newNode);
      m, copies := LinkKids(Tree, node, newTree, newNode, left, right, ml, mr, cl, cr);
    }

    lemma SameDataJoin(ml: map<RbNode, RbNode>, mr: map<RbNode, RbNode>, node: RbNode, newNode: RbNode,
                       m: map<RbNode, RbNode>, newTree: RbTree)
      requires SameData(ml, newTree) && SameData(mr, newTree) && newNode.tree == newTree && newNode.data == node.data
      requires m.Keys == ml.Keys + mr.Keys + {node} && m[node] == newNode
      requires (forall n | n in ml :: m[n] == ml[n]) && (forall n | n in mr :: m[n] == mr[n])
      ensures SameData(m, newTree)
    {
    }

    twostate predicate AllNew(new nodes: set<RbNode>) { forall n | n in nodes :: fresh(n) }

    ghost predicate SameData(m: map<RbNode, RbNode>, newTree: RbTree?) {
      forall n | n in m :: m[n].tree == newTree && m[n].data == n.data
    }

    method CopyNode(node: RbNode, newTree: RbTree, newParent: RbNode?) returns (newNode: RbNode)
      ensures fresh(newNode) && newNode.tree == newTree && newNode.data == node.data && newNode.color == node.color
      ensures newNode.parent == newParent
    {
      newNode := new RbNode(newTree, node.data, newParent, nil);
      newNode.color := node.color;
    }

    /** Both subtrees below a node. */
    method KidsDup(node: RbNode, newTree: RbTree, newNode: RbNode)
      returns (left: RbNode, right: RbNode, ghost ml: map<RbNode, RbNode>, ghost mr: map<RbNode, RbNode>,
          ghost cl: set<RbNode>, ghost cr: set<RbNode>)
      requires Valid() && node in Nodes && newNode !in Nodes
      ensures left == To(ml, node.left) && right == To(mr, node.right) && AllNew(cl + cr) && cl !! cr
      ensures Part(Tree, node.left, ml, CellsOf(cl), Some(newNode))
      ensures Part(Tree, node.right, mr, CellsOf(cr), Some(newNode))
      ensures SameData(ml, newTree) && SameData(mr, newTree)
      decreases Tree.cells[node].hi - Tree.cells[node].lo, 1
    {
      left, ml, cl := KidDup(node, L, newTree, newNode, {});
      right, mr, cr := KidDup(node, R, newTree, newNode, cl);
    }

    lemma SameCells(nodes: set<RbNode>, c: map<RbNode, Cell<RbNode>>)
      requires c.Keys == nodes && forall n | n in nodes :: n.ToCell() == c[n]
      ensures CellsOf(nodes) == c
    {
    }

    method LinkKids(ghost g: Graph<RbNode>, node: RbNode, newTree: RbTree, newNode: RbNode, left: RbNode, right: RbNode,
                    ghost ml: map<RbNode, RbNode>, ghost mr: map<RbNode, RbNode>, ghost cl: set<RbNode>,
                    ghost cr: set<RbNode>)
      returns (ghost m: map<RbNode, RbNode>, ghost copies: set<RbNode>)
      requires g.Valid() && node in g.cells && newNode != g.nil && newNode !in cl + cr && cl !! cr
      requires newNode.ToCell() == g.cells[node].Bare().(left := newNode.left, right := newNode.right,
                 parent := ToOption(newNode.parent))
      requires left == To(ml, g.cells[node].left) && right == To(mr, g.cells[node].right)
      requires Part(g, g.cells[node].left, ml, CellsOf(cl), Some(newNode))
      requires Part(g, g.cells[node].right, mr, CellsOf(cr), Some(newNode))
      requires SameData(ml, newTree) && SameData(mr, newTree) && newNode.tree == newTree && newNode.data == node.data
      modifies newNode
      ensures forall n | n in copies :: n == newNode || n in cl + cr
      ensures Part(g, node, m, CellsOf(copies), ToOption(old(newNode.parent)))
      ensures node in m && m[node] == newNode && SameData(m, newTree)
    {
      SetKids(newNode, left, right, cl, cr);
      m := DupJoin(g, node, newNode, ml, mr, cl, cr);
      SameDataJoin(ml, mr, node, newNode, m, newTree);
      copies := cl + cr + {newNode};
    }

    method SetKids(n: RbNode, left: RbNode, right: RbNode, ghost cl: set<RbNode>, ghost cr: set<RbNode>)
      requires n !in cl + cr
      modifies n
      ensures n.ToCell() == old(n.ToCell()).(left := left, right := right) && n.parent == old(n.parent)
      ensures CellsOf(cl) == old(CellsOf(cl)) && CellsOf(cr) == old(CellsOf(cr))
    {
      n.left := left;
      n.right := right;
    }

    lemma DupJoin(g: Graph<RbNode>, node: RbNode, newNode: RbNode, ml: map<RbNode, RbNode>, mr: map<RbNode, RbNode>,
                  cl: set<RbNode>, cr: set<RbNode>) returns (m: map<RbNode, RbNode>)
      requires g.Shape() && node in g.cells && newNode != g.nil && newNode !in cl + cr && cl !! cr
      requires newNode.ToCell() == g.cells[node].Bare().(left := To(ml, g.cells[node].left),
                 right := To(mr, g.cells[node].right), parent := ToOption(newNode.parent))
      requires Part(g, g.cells[node].left, ml, CellsOf(cl), Some(newNode))
      requires Part(g, g.cells[node].right, mr, CellsOf(cr), Some(newNode))
      ensures Part(g, node, m, CellsOf(cl + cr + {newNode}), ToOption(newNode.parent))
      ensures m.Keys == ml.Keys + mr.Keys + {node} && m[node] == newNode
      ensures (forall n | n in ml :: m[n] == ml[n]) && (forall n | n in mr :: m[n] == mr[n])
    {
      var c;
      m, c := PartJoin(g, node, newNode, ml, mr, CellsOf(cl), CellsOf(cr), newNode.ToCell(), ToOption(newNode.parent));
      CellsJoin(cl, cr, newNode, CellsOf(cl), CellsOf(cr), c);
    }

    lemma CellsJoin(cl: set<RbNode>, cr: set<RbNode>, x: RbNode, ccl: map<RbNode, Cell<RbNode>>,
                    ccr: map<RbNode, Cell<RbNode>>, c: map<RbNode, Cell<RbNode>>)
      requires ccl == CellsOf(cl) && ccr == CellsOf(cr) && c.Keys == ccl.Keys + ccr.Keys + {x} && c[x] == x.ToCell()
      requires (forall v | v in ccl :: c[v] == ccl[v]) && (forall v | v in ccr :: c[v] == ccr[v])
      ensures CellsOf(cl + cr + {x}) == c
    {
    }

    /** The subtree on one side of a node, or the sentinel; the copies made before keep their links. */
    method KidDup(node: RbNode, s: Side, newTree: RbTree, newParent: RbNode, ghost before: set<RbNode>)
      returns (kid: RbNode, ghost m: map<RbNode, RbNode>, ghost copies: set<RbNode>)
      requires Valid() && node in Nodes
      ensures kid == To(m, Child(node, s)) && AllNew(copies) && before !! copies
      ensures CellsOf(before) == old(CellsOf(before))
      ensures Part(Tree, Child(node, s), m, CellsOf(copies), Some(newParent)) && SameData(m, newTree)
      decreases Tree.cells[node].hi - Tree.cells[node].lo, 0
    {
      assert node.ToCell() == Tree.cells[node].Bare() && Tree.KeyOk(node) && Tree.KidOk(node, s);
      kid, m, copies := nil, map[], {};
      ghost var c := CellsOf(before);
      if Child(node, s) != nil {
        assert Tree.KeyOk(Child(node, s));
        kid, m, copies := SubtreeDup(Child(node, s), newTree, newParent);
      }
      SameCells(before, c);
    }

    ghost function CellsOf(nodes: set<RbNode>): map<RbNode, Cell<RbNode>> reads nodes {
      map n | n in nodes :: n.ToCell()
    }

    // ---------- queries ----------

    /** Finds the node with `key`, in no more than 2*log2(size + 1) comparisons. */
    method Find(key: Hash) returns (node: RbNode?, ghost steps: nat)
      requires Valid()
      ensures node == if key in Index then Index[key] else null
      ensures Power2(steps) <= (size + 1) * (size + 1)
    {
      ghost var g := Tree;
      steps := 0;
      SearchBound(g, Depth(g, g.root));
      var current := root;
      if key in Index { AllWithinRoot(g, Index[key]); }
      while current != nil
        invariant current == nil || current in Nodes
        invariant key in Index ==> current != nil && Within(g, current, key)
        invariant steps + Depth(g, current) <= Depth(g, root)
        decreases if current in g.cells then g.cells[current].hi - g.cells[current].lo + 1 else 0
      {
        assert current.ToCell() == g.cells[current].Bare();
        var cmp := KeyCmp(key, current.data);
        assert g.KeyOk(current) && g.KidOk(current, L) && g.KidOk(current, R);
        DepthShrinks(g, current, cmp > 0);
        steps := steps + 1;
        if cmp == 0 {
          SearchBoundAt(g, steps);
          return current, steps;
        }
        if key in Index {
          assert Index[key].ToCell() == g.cells[Index[key]].Bare();
          Descend(g, current, Index[key]);
        }
        if cmp < 0 {
          current := current.left;
        } else {
          current := current.right;
        }
      }
      SearchBoundAt(g, steps);
      node := null;
    }

    lemma SearchBoundAt(g: Graph<RbNode>, steps: nat)
      requires Valid() && g == Tree && steps <= Depth(g, g.root)
      ensures Power2(steps) <= (size + 1) * (size + 1)
    {
      SearchBound(g, steps);
      assert g.cells.Keys == Nodes;
      assert |g.cells| == |g.cells.Keys|;
    }

    /** The last node on side `s` of the subtree at `n`: its head for L, its tail for R. */
    method SubtreeEnd(n: RbNode, s: Side) returns (node: RbNode)
      requires Shaped() && n in Nodes
      ensures node in Nodes && Within(Tree, n, node.Key()) && Child(node, s) == nil
      ensures forall m | m in Nodes && Within(Tree, n, m.Key()) :: m == node || Past(s, node.Key(), m.Key())
    {
      node := n;
      assert Tree.KeyOk(n);
      while Child(node, s) != nil
        invariant node in Nodes && Tree.cells[node].Bound(s) == Tree.cells[n].Bound(s)
        invariant Within(Tree, n, node.Key())
        decreases Tree.cells[node].hi - Tree.cells[node].lo
      {
        assert node.ToCell() == Tree.cells[node].Bare() && Tree.KidOk(node, s) && Tree.KeyOk(node);
        assert Tree.KeyOk(Child(node, s));
        node := Child(node, s);
      }
      assert node.ToCell() == Tree.cells[node].Bare() && Tree.KeyOk(node);
      forall m | m in Nodes && Within(Tree, n, m.Key()) ensures m == node || Past(s, node.Key(), m.Key()) {
        assert Tree.GapOk(node, s, m) && Tree.Apart(node, m);
      }
    }

    method Head() returns (node: RbNode?)
      requires Shaped()
      ensures node == null <==> Nodes == {}
      ensures node != null ==> node in Nodes && forall m | m in Nodes :: node.Key() <= m.Key()
      ensures node != null ==> node.left == nil
    {
      node := End(L);
    }

    method Tail() returns (node: RbNode?)
      requires Shaped()
      ensures node == null <==> Nodes == {}
      ensures node != null ==> node in Nodes && forall m | m in Nodes :: m.Key() <= node.Key()
    {
      node := End(R);
    }

    method End(s: Side) returns (node: RbNode?)
      requires Shaped()
      ensures node == null <==> Nodes == {}
      ensures node != null ==> node in Nodes && forall m | m in Nodes :: m == node || Past(s, node.Key(), m.Key())
      ensures node != null ==> Child(node, s) == nil
    {
      if root == nil {
        return null;
      }
      var n := SubtreeEnd(root, s);
      forall m | m in Nodes ensures m == n || Past(s, n.Key(), m.Key()) {
        AllWithinRoot(Tree, m);
      }
      node := n;
    }

    /** The next node on side `s`: the successor for R, the predecessor for L. */
    method Neighbor(node: RbNode, s: Side) returns (r: RbNode?)
      requires Shaped() && node in Nodes
      ensures IsNeighbor(node, s, r)
    {
      assert node.ToCell() == Tree.cells[node].Bare() && Tree.KidOk(node, s) && Tree.KeyOk(node);
      if Child(node, s) != nil {
        r := SubtreeEnd(Child(node, s), !s);
        return;
      }
      var c := node;
      var parent := c.parent;
      while parent != null && c == Child(parent, s)
        invariant c in Nodes && parent == c.parent && Tree.cells[c].Bound(s) == Tree.cells[node].Bound(s)
        decreases ToClimb(Tree, c)
      {
        assert c.ToCell() == Tree.cells[c].Bare() && Tree.ParentOk(c) && Tree.KeyOk(c);
        assert parent.ToCell() == Tree.cells[parent].Bare() && Tree.KidOk(parent, s) && Tree.KeyOk(parent);
        c := parent;
        parent := c.parent;
      }
      assert c.ToCell() == Tree.cells[c].Bare() && Tree.ParentOk(c) && Tree.KeyOk(c);
      if parent != null {
        assert parent.ToCell() == Tree.cells[parent].Bare() && Tree.KidOk(parent, !s) && Tree.KeyOk(parent);
      }
      r := parent;
      NeighborIs(node, s, r);
    }

    /** The node at the end of the gap beside a node without a child on that side is its neighbour. */
    lemma NeighborIs(node: RbNode, s: Side, r: RbNode?)
      requires Shaped() && node in Nodes && Child(node, s) == nil && (r == null || r in Nodes)
      requires Tree.cells[node].Bound(s) == if r != null then r.Key() else if s then HASH_LIMIT else -1
      ensures IsNeighbor(node, s, r)
    {
      assert node.ToCell() == Tree.cells[node].Bare() && Tree.KeyOk(node);
      forall m | m in Nodes ensures Tree.cells[m].key == m.Key() { assert m.ToCell() == Tree.cells[m].Bare(); }
      forall m | m in Nodes && Past(s, m.Key(), node.Key())
        ensures r != null && (m == r || Past(s, m.Key(), r.Key()))
      {
        assert Tree.GapOk(node, s, m) && Tree.KeyOk(m);
        assert r != null ==> Tree.Apart(m, r);
      }
    }

    ghost predicate IsNeighbor(node: RbNode, s: Side, r: RbNode?) reads this`Nodes {
      if r == null then forall m | m in Nodes :: !Past(s, m.Key(), node.Key())
      else r in Nodes && Past(s, r.Key(), node.Key()) && forall m | m in Nodes && Past(s, m.Key(), node.Key()) ::
          m == r || Past(s, m.Key(), r.Key())
    }

    method Next(node: RbNode) returns (r: RbNode?)
      requires Shaped() && node in Nodes
      ensures IsNeighbor(node, R, r)
    {
      r := Neighbor(node, R);
    }

    method Prev(node: RbNode) returns (r: RbNode?)
      requires Shaped() && node in Nodes
      ensures IsNeighbor(node, L, r)
    {
      r := Neighbor(node, L);
    }

    /** Stepping to a neighbour and back returns to the node. */
    lemma ThereAndBack(node: RbNode, s: Side, r: RbNode, back: RbNode?)
      requires Shaped() && node in Nodes && IsNeighbor(node, s, r) && IsNeighbor(r, !s, back)
      ensures back == node
    {
      assert Past(!s, node.Key(), r.Key());
      assert node.ToCell() == Tree.cells[node].Bare();
      if back != null {
        assert back.ToCell() == Tree.cells[back].Bare();
        assert Tree.Apart(node, back);
      }
    }

    /** A walk of the nodes `all` after those of `met`: it stops right after the visitor has answered below 0; `answers`
        gives the answer at every visit. */
    ghost predicate WalksUntil(met: seq<RbNode>, all: seq<RbNode>, answers: nat -> int, rc: int, visited: seq<RbNode>) {
      && met <= visited <= met + all && rc in {0, -1}
      && (if rc == 0 then visited == met + all else |met| < |visited|)
      && forall i | |met| <= i < |visited| :: answers(i) < 0 <==> rc == -1 && i == |visited| - 1
    }

    /** Meets the nodes below `node` left to right. */
    method SubtreeWalk(node: RbNode, answers: nat -> int, met: seq<RbNode>) returns (rc: int, visited: seq<RbNode>)
      requires Valid() && (node == nil || node in Nodes)
      ensures WalksUntil(met, InOrder(Tree, node), answers, rc, visited)
      decreases if node in Tree.cells then Tree.cells[node].hi - Tree.cells[node].lo else 0
    {
      if node == nil {
        return 0, met;
      }
      assert node.ToCell() == Tree.cells[node].Bare() && Tree.KeyOk(node) && Tree.KidOk(node, L) && Tree.KidOk(node, R);
      ghost var l, r := InOrder(Tree, node.left), InOrder(Tree, node.right);
      rc, visited := SubtreeWalk(node.left, answers, met);
      if rc < 0 {
        StoppedLeft(met, l, node, r, answers, visited);
        return -1, visited;
      }
      visited := visited + [node];
      if answers(|visited| - 1) < 0 {
        StoppedHere(met, l, node, r, answers, visited);
        return -1, visited;
      }
      ghost var before := visited;
      rc, visited := SubtreeWalk(node.right, answers, visited);
      WentRight(met, l, node, r, answers, before, rc, visited);
    }

    lemma StoppedLeft(met: seq<RbNode>, l: seq<RbNode>, node: RbNode, r: seq<RbNode>, answers: nat -> int,
                      visited: seq<RbNode>)
      requires WalksUntil(met, l, answers, -1, visited)
      ensures WalksUntil(met, l + [node] + r, answers, -1, visited)
    {
      assert met + (l + [node] + r) == (met + l) + ([node] + r);
    }

    lemma StoppedHere(met: seq<RbNode>, l: seq<RbNode>, node: RbNode, r: seq<RbNode>, answers: nat -> int,
                      visited: seq<RbNode>)
      requires visited == met + l + [node] && WalksUntil(met, l, answers, 0, met + l)
      requires answers(|visited| - 1) < 0
      ensures WalksUntil(met, l + [node] + r, answers, -1, visited)
    {
      assert met + (l + [node] + r) == visited + r;
    }

    lemma WentRight(met: seq<RbNode>, l: seq<RbNode>, node: RbNode, r: seq<RbNode>, answers: nat -> int,
                    before: seq<RbNode>, rc: int, visited: seq<RbNode>)
      requires before == met + l + [node] && WalksUntil(met, l, answers, 0, met + l) && answers(|before| - 1) >= 0
      requires WalksUntil(before, r, answers, rc, visited)
      ensures WalksUntil(met, l + [node] + r, answers, rc, visited)
    {
      assert met + (l + [node] + r) == before + r;
    }

    /** The order in which a visitor meets the nodes: by ascending hash, every node once unless the visitor stops. */
    method Walk(answers: nat -> int) returns (rc: int, visited: seq<RbNode>)
      requires Valid()
      ensures WalksUntil([], InOrder(Tree, root), answers, rc, visited)
      ensures (forall n | n in visited :: n in Nodes) && (rc == 0 ==> forall n | n in Nodes :: n in visited)
      ensures forall i, j | 0 <= i < j < |visited| :: visited[i].Key() < visited[j].Key()
    {
      rc, visited := SubtreeWalk(root, answers, []);
      ghost var all := InOrderIsTree();
      VisitedAre(all, rc, visited, answers);
    }

    lemma VisitedAre(all: seq<RbNode>, rc: int, visited: seq<RbNode>, answers: nat -> int)
      requires WalksUntil([], all, answers, rc, visited) && forall n :: n in all <==> n in Nodes
      requires forall i, j | 0 <= i < j < |all| :: all[i].Key() < all[j].Key()
      ensures (forall n | n in visited :: n in Nodes) && (rc == 0 ==> forall n | n in Nodes :: n in visited)
      ensures forall i, j | 0 <= i < j < |visited| :: visited[i].Key() < visited[j].Key()
    {
      assert [] + all == all;
    }

    lemma InOrderIsTree() returns (all: seq<RbNode>)
      requires Valid()
      ensures all == InOrder(Tree, root) && forall n :: n in all <==> n in Nodes
      ensures forall i, j | 0 <= i < j < |all| :: all[i].Key() < all[j].Key()
    {
      all := InOrder(Tree, root);
      if root != nil {
        InOrderSorted(Tree, root);
        forall n | n in Nodes ensures n in Below(Tree, root) { AllWithinRoot(Tree, n); }
        forall i, j | 0 <= i < j < |all| ensures all[i].Key() < all[j].Key() {
          assert all[i] in all && all[j] in all;
          assert all[i].ToCell() == Tree.cells[all[i]].Bare() && all[j].ToCell() == Tree.cells[all[j]].Bare();
        }
      }
    }

    /** The walk and the neighbour steps enumerate the same sequence. */
    lemma WalkStepsByNext(visited: seq<RbNode>, i: nat)
      requires i < |visited| && forall n :: n in visited <==> n in Nodes
      requires forall i, j | 0 <= i < j < |visited| :: visited[i].Key() < visited[j].Key()
      ensures IsNeighbor(visited[i], R, if i + 1 < |visited| then visited[i + 1] else null)
      ensures IsNeighbor(visited[i], L, if i > 0 then visited[i - 1] else null)
    {
      var next: RbNode? := if i + 1 < |visited| then visited[i + 1] else null;
      var prev: RbNode? := if i > 0 then visited[i - 1] else null;
      forall m | m in Nodes
        ensures Past(R, m.Key(), visited[i].Key()) ==> next != null && (m == next || Past(R, m.Key(), next.Key()))
        ensures Past(L, m.Key(), visited[i].Key()) ==> prev != null && (m == prev || Past(L, m.Key(), prev.Key()))
      {
        var j :| 0 <= j < |visited| && visited[j] == m;
      }
    }

    /** The recursive check of the black heights. */
    method BlackHeight(node: RbNode) returns (h: int)
      requires Shaped() && (node == nil || node in Nodes)
      ensures h == Checked(Tree, node)
      decreases if node in Tree.cells then Tree.cells[node].hi - Tree.cells[node].lo else 0
    {
      if node == nil {
        return 0;
      }
      assert node.ToCell() == Tree.cells[node].Bare() && Tree.KeyOk(node) && Tree.KidOk(node, L) && Tree.KidOk(node, R);
      var left := BlackHeight(node.left);
      var right := BlackHeight(node.right);
      h := if left != right then -1 else left + (if node.color == BLACK then 1 else 0);
    }

    /** The checks made of one node on the way from head to tail. */
    method CheckNode(node: RbNode, prev: RbNode?, tail: RbNode?) returns (rc: int, next: RbNode?)
      requires Shaped() && node in Nodes && tail != null && tail in Nodes
      requires (forall m | m in Nodes :: m.Key() <= tail.Key())
      requires Follows(prev, node)
      ensures IsNeighbor(node, R, next)
      ensures rc == if !Tree.RedOk(node, L, nil, nil) then -14 else if !Tree.RedOk(node, R, nil, nil) then -15 else 0
    {
      next := Next(node);
      var back := Prev(node);
      if prev != null {
        ThereAndBack(prev, R, node, back);
      }
      Facts(node);
      if prev != null { Facts(prev); }
      ChildFacts(node, L);
      ChildFacts(node, R);
      assert Tree.Apart(node, tail);
      rc := if node.tree != this then -4
            else if node == nil then -5
            else if node == root && node.parent != null then -6
            else if node != root && node.parent == null then -7
            else if prev != back then -8
            else if prev != null && DataCmp(prev.data, node.data) > 0 then -9
            else if prev != null && DataCmp(node.data, prev.data) < 0 then -10
            else if node.left != nil && DataCmp(node.left.data, node.data) > 0 then -11
            else if node.left != nil && DataCmp(node.data, node.left.data) < 0 then -11
            else if node.right != nil && DataCmp(node.data, node.right.data) > 0 then -12
            else if node.right != nil && DataCmp(node.right.data, node.data) < 0 then -13
            else if node.color == RED && node.left.color == RED then -14
            else if node.color == RED && node.right.color == RED then -15
            else if next != null && node == tail then -16
            else if next == null && node != tail then -17
            else 0;
    }

    lemma Facts(node: RbNode)
      requires Shaped() && node in Nodes
      ensures node.tree == this && node.data != null && node != nil && (node == root <==> node.parent == null)
    {
      assert node.ToCell() == Tree.cells[node].Bare() && Tree.ParentOk(node);
      assert Tree.root == root && (root in Nodes ==> root.ToCell() == Tree.cells[root].Bare());
    }

    lemma ChildFacts(node: RbNode, s: Side)
      requires Shaped() && node in Nodes
      ensures var k := Child(node, s);
              k == nil || (k in Nodes && k.data != null && Past(s, k.Key(), node.Key()))
      ensures Tree.RedOk(node, s, nil, nil) <==> !(node.color == RED && Child(node, s).color == RED)
    {
      assert node.ToCell() == Tree.cells[node].Bare() && Tree.KidOk(node, s);
      var k := Child(node, s);
      if k != nil { assert k.ToCell() == Tree.cells[k].Bare() && Tree.KeyOk(k); }
    }

    /** The check of the nodes one after the other, which also counts them. */
    method CheckNodes() returns (rc: int, n: nat)
      requires Shaped()
      ensures if Tree.RedRule(nil, nil) then rc == 0 && n == |Nodes| else rc in {-14, -15}
    {
      var tail := Tail();
      var node := Head();
      var prev: RbNode? := null;
      rc, n := 0, 0;
      assert node != null ==> Upto(node) == {};
      while node != null
        invariant Met(prev, node, n) && (node != null ==> tail != null)
        decreases |Nodes| - n
      {
        var next;
        rc, next := CheckNode(node, prev, tail);
        if rc != 0 {
          return;
        }
        MetOneMore(prev, node, next, n);
        prev := node;
        node := next;
        n := n + 1;
      }
      MetAll(prev, n);
      rc := 0;
    }

    /** The nodes before `node`, of which `prev` is the last, have been met, and are in order. */
    ghost predicate Met(prev: RbNode?, node: RbNode?, n: nat) reads this`Nodes, this`Tree {
      NoRedPair(node) && n == |Upto(node)| && (node != null ==> node in Nodes && Follows(prev, node))
    }

    lemma MetOneMore(prev: RbNode?, node: RbNode, next: RbNode?, n: nat)
      requires Shaped() && node in Nodes && IsNeighbor(node, R, next) && Met(prev, node, n)
      requires Tree.RedOk(node, L, nil, nil) && Tree.RedOk(node, R, nil, nil)
      ensures Met(node, next, n + 1) && n < |Nodes|
    {
      Counted(node, next);
      StillNone(node, next);
    }

    lemma MetAll(prev: RbNode?, n: nat)
      requires Shaped() && Met(prev, null, n)
      ensures Tree.RedRule(nil, nil) && n == |Nodes|
    {
      assert Upto(null) == Nodes;
    }

    ghost predicate Follows(prev: RbNode?, node: RbNode) reads this`Nodes {
      if prev == null then forall m | m in Nodes :: node.Key() <= m.Key()
      else prev in Nodes && IsNeighbor(prev, R, node)
    }

    /** The sanity check of a tree whose links and hashes are right: it finds two red nodes in a row, then a wrong size,
        and then what the check of the black heights finds. */
    method CheckSanity() returns (rc: int)
      requires Shaped()
      ensures !Tree.RedRule(nil, nil) <==> rc == -14 || rc == -15
      ensures Tree.RedRule(nil, nil) ==>
                rc == if size != |Nodes| then -18 else if Checked(Tree, root) < 0 then -19 else 0
    {
      var n;
      rc, n := CheckNodes();
      if rc != 0 {
        return;
      }
      if n != size {
        return -18;
      }
      var h := BlackHeight(root);
      rc := if h < 0 then -19 else 0;
    }

    /** No node before this one is red with a red child. */
    ghost predicate NoRedPair(node: RbNode?) reads this`Nodes, this`Tree {
      forall m {:trigger m in Nodes} | m in Nodes && m in Upto(node) && m in Tree.cells ::
        Tree.RedOk(m, L, nil, nil) && Tree.RedOk(m, R, nil, nil)
    }

    lemma StillNone(node: RbNode, next: RbNode?)
      requires Shaped() && node in Nodes && IsNeighbor(node, R, next) && NoRedPair(node)
      requires Tree.RedOk(node, L, nil, nil) && Tree.RedOk(node, R, nil, nil)
      ensures NoRedPair(next)
    {
      forall m | m in Nodes && m in Upto(next) ensures m == node || m in Upto(node) {
        assert Tree.Apart(m, node) && m.ToCell() == Tree.cells[m].Bare() && node.ToCell() == Tree.cells[node].Bare();
      }
    }

    ghost function Upto(node: RbNode?): set<RbNode> reads this`Nodes {
      set m | m in Nodes && (node == null || m.Key() < node.Key())
    }

    lemma Counted(node: RbNode, next: RbNode?)
      requires Shaped() && node in Nodes && IsNeighbor(node, R, next)
      ensures |Upto(next)| == |Upto(node)| + 1 && |Upto(next)| <= |Nodes|
    {
      forall m | m in Nodes && m.Key() == node.Key() ensures m == node { assert Tree.Apart(m, node); }
      OneMore(Nodes, Upto(node), Upto(next), node);
    }

    lemma OneMore(nodes: set<RbNode>, a: set<RbNode>, b: set<RbNode>, node: RbNode)
      requires node in nodes && (forall m :: m in a <==> m in nodes && m.Key() < node.Key())
      requires forall m :: m in b <==> m in nodes && m.Key() <= node.Key()
      requires forall m | m in nodes && m.Key() == node.Key() :: m == node
      ensures |b| == |a| + 1 && |b| <= |nodes|
    {
      assert b == a + {node};
      assert nodes == b + (nodes - b);
    }

    /** Drains the tree: the destructor meets every record once, by ascending hash. */
    method Destroy() returns (destroyed: seq<RbNode>)
      requires Valid()
      modifies this, nil`parent, nil`color, Nodes
      ensures Valid() && Nodes == {} && Drained(destroyed, old(Nodes), {})
    {
      destroyed := [];
      var temp := Head();
      while temp != null
        invariant Valid() && Nodes <= old(Nodes) && Drained(destroyed, old(Nodes), Nodes)
        invariant temp == null <==> Nodes == {}
        invariant temp != null ==> temp in Nodes && temp.left == nil && forall m | m in Nodes :: temp.Key() <= m.Key()
        decreases Nodes
      {
        LeastIsLess(temp);
        DrainOne(destroyed, old(Nodes), Nodes, temp);
        destroyed := destroyed + [temp];
        var again := Head();
        if temp == again {
          var _, freed := Delete(temp);
        }
        temp := Head();
      }
    }

    lemma LeastIsLess(temp: RbNode)
      requires Valid() && temp in Nodes && forall m | m in Nodes :: temp.Key() <= m.Key()
      ensures forall m | m in Nodes && m != temp :: temp.Key() < m.Key()
    {
      forall m | m in Nodes && m != temp ensures temp.Key() < m.Key() { assert Tree.Apart(temp, m); }
    }
  }

  lemma CopyIndexes(tree: RbTree, nodes: set<RbNode>, index: map<Hash, RbNode>, m: map<RbNode, RbNode>, copy: RbTree)
    requires Indexes(tree, nodes, index) && m.Keys == nodes
    requires forall n | n in m :: m[n].tree == copy && m[n].data == n.data
    ensures Indexes(copy, m.Values, map k | k in index :: To(m, index[k]))
  {
    var index' := map k | k in index :: To(m, index[k]);
    forall x | x in m.Values
      ensures x.tree == copy && x.data != null && x.data.phash in index' && index'[x.data.phash] == x
    {
      var n :| n in m && m[n] == x;
    }
  }

  /** `destroyed` lists the nodes of `all` that are not left, by ascending hash and before all that are. */
  ghost predicate Drained(destroyed: seq<RbNode>, all: set<RbNode>, left: set<RbNode>) {
    && (forall i | 0 <= i < |destroyed| :: destroyed[i] in all && destroyed[i] !in left)
    && (forall n | n in all && n !in left :: n in destroyed)
    && (forall i, j | 0 <= i < j < |destroyed| :: destroyed[i].Key() < destroyed[j].Key())
    && (forall i, m | 0 <= i < |destroyed| && m in left :: destroyed[i].Key() < m.Key())
  }

  lemma DrainOne(destroyed: seq<RbNode>, all: set<RbNode>, left: set<RbNode>, temp: RbNode)
    requires Drained(destroyed, all, left) && left <= all && temp in left
    requires forall m | m in left && m != temp :: temp.Key() < m.Key()
    ensures Drained(destroyed + [temp], all, left - {temp})
  {
  }

  /** Key `a` lies on side `s` of key `b`. */
  predicate Past(s: Side, a: int, b: int) { if s then a > b else a < b }

  lemma NotThere<N>(g: Graph<N>, k: int, p: Option<N>, s: Side)
    requires g.Shape() && Vacant(g, k, p, s)
    ensures forall n | n in g.cells :: g.cells[n].key != k
  {
    if p.Some? {
      forall n | n in g.cells ensures g.cells[n].key != k { assert g.GapOk(p.value, s, n); }
    }
  }
}
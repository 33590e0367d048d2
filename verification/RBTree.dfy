/** The intrusive red-black tree of src/core/dfs_rbtree.c: nodes with parent links, one shared
    black sentinel for every missing child. */
module RBTree {
  import opened Log2
  import opened RBAlgebra
  import opened RBMemory
  import opened RBOrder
  import opened RBSplice

  class Node {
    var key: int
    var left: Node?
    var right: Node?
    var parent: Node?
    var red: bool

    constructor (k: int)
      ensures key == k
    {
      key, left, right, parent, red := k, null, null, null, false;
    }
  }

  type NTree = Tree<Node?>
  type NCtx = Ctx<Node?>

  class RedBlackTree {
    var root: Node?
    const sentinel: Node
    ghost var mem: Mem<Node?>     // the fields of all nodes this tree may touch
    ghost var tree: NTree

    /** rbtree_init */
    constructor (s: Node)
      modifies s
      ensures Valid() && sentinel == s && tree == Leaf && !s.red
    {
      root, sentinel, tree, mem := s, s, Leaf, map[];
      new;
      s.red := false;
      mem := map[s := Cell(s.key, s.left, s.right, s.parent, s.red)];
    }

    // mem is the heap.
    ghost predicate Mirror()
      reads this`mem, mem.Keys
    {
      && sentinel in mem
      && forall n :: n in mem ==> n != null && mem[n] == Cell(n.key, n.left, n.right, n.parent, n.red)
    }

    ghost predicate Here(c: NCtx, t: NTree)
      reads this`root, this`mem, mem.Keys
    {
      Mirror() && At(mem, root, sentinel, c, t) && !mem[sentinel].red
    }

    // Reading a node's fields.
    lemma Fields(n: Node?)
      requires Mirror() && n in mem
      ensures n != null && mem[n] == Cell(n.key, n.left, n.right, n.parent, n.red)
    {
    }

    lemma SentinelInMem()
      requires Mirror()
      ensures sentinel in mem
    {
    }

    // Field assignments, each mirrored in mem.
    method SetLeft(n: Node, v: Node?)
      requires Mirror() && n in mem
      modifies n`left, this`mem
      ensures Mirror() && mem.Keys == old(mem.Keys) && mem == WLeft(old(mem), n, v)
    {
      n.left := v;
      mem := mem[n := mem[n].(left := v)];
    }

    method SetRight(n: Node, v: Node?)
      requires Mirror() && n in mem
      modifies n`right, this`mem
      ensures Mirror() && mem.Keys == old(mem.Keys) && mem == WRight(old(mem), n, v)
    {
      n.right := v;
      mem := mem[n := mem[n].(right := v)];
    }

    method SetParent(n: Node, v: Node?)
      requires Mirror() && n in mem
      modifies n`parent, this`mem
      ensures Mirror() && mem.Keys == old(mem.Keys) && mem == WParent(old(mem), n, v)
    {
      n.parent := v;
      mem := mem[n := mem[n].(parent := v)];
    }

    method SetRed(n: Node, v: bool)
      requires Mirror() && n in mem
      modifies n`red, this`mem
      ensures Mirror() && mem.Keys == old(mem.Keys) && mem == old(mem)[n := old(mem)[n].(red := v)]
    {
      n.red := v;
      mem := mem[n := mem[n].(red := v)];
    }

    // if (n != sentinel) n->parent = v
    method SetParentUnlessSentinel(n: Node?, v: Node?)
      requires Mirror() && n in mem
      modifies n`parent, this`mem
      ensures Mirror() && mem.Keys == old(mem.Keys) && mem == if n != sentinel then WParent(old(mem), n, v) else old(mem)
    {
      if n != sentinel {
        SetParent(n, v);
      }
    }

    // Whatever pointed at n, the root or a child field of its parent, points at v.
    method SetHole(n: Node, v: Node?, ghost c: NCtx)
      requires Mirror() && n in mem
      requires c.Top? <==> root == n
      requires !c.Top? ==> c.x in mem && mem[n].parent == c.x
      requires c.InL? ==> mem[c.x].left == n
      requires c.InR? ==> mem[c.x].left != n
      modifies this`root, this`mem, mem.Keys
      ensures Mirror() && mem.Keys == old(mem.Keys) && mem == WHole(old(mem), c, v)
      ensures root == if c.Top? then v else old(root)
    {
      if n == root {
        root := v;
      } else if n == n.parent.left {
        SetLeft(n.parent, v);
      } else {
        SetRight(n.parent, v);
      }
    }

    // Moves the inner subtree over and lifts the parent pointer.
    method LeftInnerMove(node: Node) returns (temp: Node)
      requires Mirror() && node in mem && mem[node].right in mem && mem[node].right != node
      requires mem[mem[node].right].left in mem && mem[mem[node].right].left != node
      modifies this`mem, mem.Keys
      ensures Mirror() && mem.Keys == old(mem.Keys)
      ensures temp == old(mem[node].right)
      ensures mem == LeftInner(old(mem), sentinel, node, temp, old(mem)[temp].left)
    {
      temp := node.right;
      SetRight(node, temp.left);
      SetParentUnlessSentinel(temp.left, node);
      SetParent(temp, node.parent);
    }

    // Puts temp in node's place and node below it.
    method LeftOuterMove(node: Node, temp: Node, ghost c: NCtx)
      requires Mirror() && node in mem && temp in mem
      requires c.Top? <==> root == node
      requires !c.Top? ==> c.x in mem && mem[node].parent == c.x
      requires c.InL? ==> mem[c.x].left == node
      requires c.InR? ==> mem[c.x].left != node
      modifies this`root, this`mem, mem.Keys
      ensures Mirror() && mem.Keys == old(mem.Keys)
      ensures mem == WParent(WLeft(WHole(old(mem), c, temp), temp, node), node, temp)
      ensures root == if c.Top? then temp else old(root)
    {
      hide WLeft, WRight, WParent, WHole, Mirror;
      SetHole(node, temp, c);
      SetLeft(temp, node);
      SetParent(node, temp);
    }

    /** rbtree_left_rotate */
    method RotateLeft(node: Node, ghost c: NCtx, ghost t: NTree)
      requires Here(c, t) && t.Nd? && t.r.Nd? && t.x == node
      modifies this`root, this`mem, mem.Keys
      ensures Here(c, RotatedLeft(t)) && mem.Keys == old(mem.Keys)
      ensures sentinel.parent == old(sentinel.parent)
    {
      hide Rep, RepC, TSep, CSep, TNodes, CNodes, At, WLeft, WRight, WParent, WHole, LeftInner, LeftApart, Agree, Mirror;
      ghost var m0 := mem;
      SentinelInMem();
      Fields(sentinel);
      HoleFacts(mem, root, sentinel, c, t);
      LeftFacts(mem, root, sentinel, c, t);
      LeftWritesReads(mem, sentinel, c, t);
      ghost var root1: Node? := if c.Top? then t.r.x else root;
      LeftWritesRotate(mem, root, root1, sentinel, c, t);
      SentinelKept(mem, LeftWrites(mem, sentinel, c, t.x, t.r.x, Ptr(t.r.l, sentinel)), root, sentinel, c, t);
      var temp := LeftInnerMove(node);
      LeftOuterMove(node, temp, c);
      assert mem == LeftWrites(m0, sentinel, c, t.x, t.r.x, Ptr(t.r.l, sentinel));
      Fields(sentinel);
    }

    // Moves the inner subtree over and lifts the parent pointer.
    method RightInnerMove(node: Node) returns (temp: Node)
      requires Mirror() && node in mem && mem[node].left in mem && mem[node].left != node
      requires mem[mem[node].left].right in mem && mem[mem[node].left].right != node
      modifies this`mem, mem.Keys
      ensures Mirror() && mem.Keys == old(mem.Keys)
      ensures temp == old(mem[node].left)
      ensures mem == RightInner(old(mem), sentinel, node, temp, old(mem)[temp].right)
    {
      temp := node.left;
      SetLeft(node, temp.right);
      SetParentUnlessSentinel(temp.right, node);
      SetParent(temp, node.parent);
    }

    // Puts temp in node's place and node below it.
    method RightOuterMove(node: Node, temp: Node, ghost c: NCtx)
      requires Mirror() && node in mem && temp in mem
      requires c.Top? <==> root == node
      requires !c.Top? ==> c.x in mem && mem[node].parent == c.x
      requires c.InL? ==> mem[c.x].left == node
      requires c.InR? ==> mem[c.x].left != node
      modifies this`root, this`mem, mem.Keys
      ensures Mirror() && mem.Keys == old(mem.Keys)
      ensures mem == WParent(WRight(WHole(old(mem), c, temp), temp, node), node, temp)
      ensures root == if c.Top? then temp else old(root)
    {
      hide WLeft, WRight, WParent, WHole, Mirror;
      SetHole(node, temp, c);
      SetRight(temp, node);
      SetParent(node, temp);
    }

    /** rbtree_right_rotate */
    method RotateRight(node: Node, ghost c: NCtx, ghost t: NTree)
      requires Here(c, t) && t.Nd? && t.l.Nd? && t.x == node
      modifies this`root, this`mem, mem.Keys
      ensures Here(c, RotatedRight(t)) && mem.Keys == old(mem.Keys)
      ensures sentinel.parent == old(sentinel.parent)
    {
      hide Rep, RepC, TSep, CSep, TNodes, CNodes, At, WLeft, WRight, WParent, WHole, RightInner, RightApart, Agree, Mirror;
      ghost var m0 := mem;
      SentinelInMem();
      Fields(sentinel);
      HoleFacts(mem, root, sentinel, c, t);
      RightFacts(mem, root, sentinel, c, t);
      RightWritesReads(mem, sentinel, c, t);
      ghost var root1: Node? := if c.Top? then t.l.x else root;
      RightWritesRotate(mem, root, root1, sentinel, c, t);
      SentinelKept(mem, RightWrites(mem, sentinel, c, t.x, t.l.x, Ptr(t.l.r, sentinel)), root, sentinel, c, t);
      var temp := RightInnerMove(node);
      RightOuterMove(node, temp, c);
      assert mem == RightWrites(m0, sentinel, c, t.x, t.l.x, Ptr(t.l.r, sentinel));
      Fields(sentinel);
    }

    /** rbtree_red, rbtree_black and rbtree_copy_color. */
    method Paint(n: Node, v: bool, ghost c: NCtx, ghost t: NTree)
      requires Here(c, t) && t.Nd? && t.x == n
      modifies this`mem, mem.Keys
      ensures Here(c, t.(red := v)) && mem.Keys == old(mem.Keys) && root == old(root)
      ensures sentinel.parent == old(sentinel.parent)
    {
      hide Rep, RepC, TSep, CSep, TNodes, CNodes;
      PaintAt(mem, root, sentinel, c, t, v);
      SetRed(n, v);
    }

    // What the rebalancing loops read around the position.
    lemma Around(c: NCtx, t: NTree)
      requires Here(c, t) && !c.Top?
      ensures root != Ptr(t, sentinel)
      ensures c.x != null && c.x in mem && c.x.red == c.red
      ensures t.Nd? ==> t.x != null && t.x in mem && t.x.parent == c.x && t.x.red == t.red
      ensures c.x.left == (if c.InL? then Ptr(t, sentinel) else Ptr(c.sib, sentinel))
      ensures c.x.right == (if c.InL? then Ptr(c.sib, sentinel) else Ptr(t, sentinel))
      ensures var w := Ptr(c.sib, sentinel); w != null && w in mem && w.red == Red(c.sib)
      ensures t.Nd? || c.sib.Nd? ==> Ptr(c.sib, sentinel) != Ptr(t, sentinel)
    {
      hide At;
      ParentFacts(mem, root, sentinel, c, t);
    }

    lemma Up(c: NCtx, t: NTree)
      requires Here(c, t) && !c.Top?
      ensures Here(c.up, Fill(c, t))
    {
      UpAt(mem, root, sentinel, c, t);
    }

    lemma Down(c: NCtx, t: NTree)
      requires Here(c, t) && t.Nd?
      ensures Here(InL(c, t.x, t.red, t.key, t.r), t.l) && Here(InR(c, t.x, t.red, t.key, t.l), t.r)
    {
      DownAt(mem, root, sentinel, c, t);
    }

    // From the hole to its sibling.
    lemma Across(c: NCtx, t: NTree)
      requires Here(c, t) && !c.Top?
      ensures Here(Other(c, t), c.sib)
    {
      hide At, Mirror;
      Up(c, t);
      Down(c.up, Fill(c, t));
    }

    // Red uncle: recolour and move the cursor two levels up.
    method RecolourUncle(node: Node, temp: Node, ghost c: NCtx, ghost t: NTree) returns (up: Node)
      requires Here(c, t) && t.Nd? && t.x == node && !c.Top? && !c.up.Top? && c.up.sib.Nd? && c.up.sib.x == temp
      modifies this`mem, mem.Keys
      ensures Here(c.up.up, UncleRed(c, t)) && up == UncleRed(c, t).x
      ensures mem.Keys == old(mem.Keys) && root == old(root)
    {
      hide At, Mirror;
      ghost var p := Fill(c, t);
      Around(c, t);
      Up(c, t);
      Around(c.up, p);
      Paint(node.parent, false, c.up, p);
      p := Fill(c.(red := false), t);
      Across(c.up, p);
      Paint(temp, false, Other(c.up, p), c.up.sib);
      Across(Other(c.up, p), c.up.sib.(red := false));
      ghost var c2 := c.up.(sib := c.up.sib.(red := false));
      Around(c2, p);
      Up(c2, p);
      Down(c2, p);
      Around(c.(red := false, up := c2), t);
      up := node.parent.parent;
      Paint(up, true, c.up.up, Fill(c2, p));
    }

    // node = node->parent, rotated away from the side the cursor came from.
    method LineUp(node: Node, ghost c: NCtx, ghost t: NTree) returns (p: Node)
      requires Here(c, t) && t.Nd? && t.x == node && !c.Top?
      modifies this`root, this`mem, mem.Keys
      ensures Here(InnerCtx(c, t), InnerTree(c, t)) && p == InnerTree(c, t).x && mem.Keys == old(mem.Keys)
    {
      hide At, Mirror;
      Around(c, t);
      Up(c, t);
      p := node.parent;
      if node == p.right {
        RotateLeft(p, c.up, Fill(c, t));
        Down(c.up, RotatedLeft(Fill(c, t)));
      } else {
        RotateRight(p, c.up, Fill(c, t));
        Down(c.up, RotatedRight(Fill(c, t)));
      }
    }

    // Parent black, grandparent red, rotation at the grandparent towards the uncle.
    method TurnGrandparent(node: Node, left: bool, ghost c: NCtx, ghost t: NTree)
      requires Here(c, t) && t.Nd? && t.x == node && !c.Top? && !c.up.Top?
      requires (c.InL? <==> left) && (c.up.InL? <==> left)
      modifies this`root, this`mem, mem.Keys
      ensures Here(OuterCtx(c), t) && mem.Keys == old(mem.Keys)
    {
      hide At, Mirror;
      ghost var p := Fill(c, t);
      Around(c, t);
      Up(c, t);
      Paint(node.parent, false, c.up, p);
      p := Fill(c.(red := false), t);
      Down(c.up, p);
      Around(c.(red := false), t);
      Around(c.up, p);
      Up(c.up, p);
      Paint(node.parent.parent, true, c.up.up, Fill(c.up, p));
      ghost var g := Fill(c.up.(red := true), p);
      Down(c.up.up, g);
      Down(c.up.(red := true), p);
      Around(c.(red := false, up := c.up.(red := true)), t);
      Around(c.up.(red := true), p);
      if left {
        RotateRight(node.parent.parent, c.up.up, g);
        Down(c.up.up, RotatedRight(g));
      } else {
        RotateLeft(node.parent.parent, c.up.up, g);
        Down(c.up.up, RotatedLeft(g));
      }
    }

    // Black uncle: line the cursor up with its parent if need be, then turn the grandparent.
    method TurnBlackUncle(node: Node, left: bool, ghost c: NCtx, ghost t: NTree)
      returns (cursor: Node, ghost c1: NCtx, ghost t1: NTree)
      requires Here(c, t) && t.Nd? && t.x == node && RedRedAt(c, t) && CtxRed(c) && !c.up.Top? && !Red(c.up.sib)
      requires c.up.InL? <==> left
      modifies this`root, this`mem, mem.Keys
      ensures Here(c1, t1) && t1.Nd? && t1.x == cursor && RedRedAt(c1, t1) && !CtxRed(c1)
      ensures Items(Plug(c1, t1)) == Items(Plug(c, t)) && mem.Keys == old(mem.Keys)
    {
      hide At, Mirror, RedRedAt, Items, Plug;
      Around(c, t);
      cursor, c1, t1 := node, c, t;
      if (left && node == node.parent.right) || (!left && node == node.parent.left) {
        cursor := LineUp(node, c, t);
        InnerKeeps(c, t);
        c1, t1 := InnerCtx(c, t), InnerTree(c, t);
      }
      TurnGrandparent(cursor, left, c1, t1);
      OuterKeeps(c1, t1);
      c1 := OuterCtx(c1);
    }

    // One pass of the rebalancing loop.
    method InsertStep(node: Node, ghost c: NCtx, ghost t: NTree) returns (cursor: Node, ghost c1: NCtx, ghost t1: NTree)
      requires Here(c, t) && t.Nd? && t.x == node && RedRedAt(c, t) && CtxRed(c)
      modifies this`root, this`mem, mem.Keys
      ensures Here(c1, t1) && t1.Nd? && t1.x == cursor && RedRedAt(c1, t1)
      ensures InsertRank(c1) < InsertRank(c)
      ensures Items(Plug(c1, t1)) == Items(Plug(c, t)) && mem.Keys == old(mem.Keys)
    {
      hide At, Mirror, RedRedAt, Items, Plug;
      RedParentHasGrandparent(c, t);
      Around(c, t);
      Up(c, t);
      Around(c.up, Fill(c, t));
      if node.parent == node.parent.parent.left {
        var temp := node.parent.parent.right;
        if temp.red {
          cursor := RecolourUncle(node, temp, c, t);
          UncleRedKeeps(c, t);
          c1, t1 := c.up.up, UncleRed(c, t);
        } else {
          cursor, c1, t1 := TurnBlackUncle(node, true, c, t);
        }
      } else {
        var temp := node.parent.parent.left;
        if temp.red {
          cursor := RecolourUncle(node, temp, c, t);
          UncleRedKeeps(c, t);
          c1, t1 := c.up.up, UncleRed(c, t);
        } else {
          cursor, c1, t1 := TurnBlackUncle(node, false, c, t);
        }
      }
    }

    lemma {:induction false} ToRoot(c: NCtx, t: NTree)
      requires Here(c, t)
      ensures Here(Top, Plug(c, t)) && Plug(c, t).Nd? == (t.Nd? || !c.Top?)
      decreases c
    {
      hide At, Mirror;
      if !c.Top? {
        Up(c, t);
        ToRoot(c.up, Fill(c, t));
      }
    }

    lemma RootIs(t: NTree)
      requires Here(Top, t)
      ensures root == Ptr(t, sentinel) && root != null && root in mem && (root == sentinel <==> t.Leaf?)
    {
    }

    lemma Cursor(c: NCtx, t: NTree)
      requires Here(c, t) && t.Nd?
      ensures c.Top? <==> root == t.x
    {
      hide At, Mirror;
      HoleFacts(mem, root, sentinel, c, t);
    }

    /** The rebalancing loop of rbtree_insert and the final blackening of the root. */
    method Rebalance(node: Node, ghost c0: NCtx, ghost t0: NTree)
      requires Here(c0, t0) && t0.Nd? && t0.x == node && RedRedAt(c0, t0)
      modifies this, mem.Keys
      ensures Here(Top, tree) && RedBlack(tree) && Items(tree) == Items(Plug(c0, t0))
      ensures mem.Keys == old(mem.Keys)
    {
      hide At, Mirror, RedRedAt, Items, Plug, RedBlack;
      var cursor := node;
      ghost var c, t := c0, t0;
      Cursor(c, t);
      if !c.Top? {
        Around(c, t);
      }
      while cursor != root && cursor.parent.red
        invariant Here(c, t) && t.Nd? && t.x == cursor && RedRedAt(c, t)
        invariant c.Top? <==> root == cursor
        invariant !c.Top? ==> cursor.parent == c.x && c.x != null && c.x.red == c.red
        invariant Items(Plug(c, t)) == Items(Plug(c0, t0)) && mem.Keys == old(mem.Keys)
        decreases InsertRank(c)
      {
        cursor, c, t := InsertStep(cursor, c, t);
        Cursor(c, t);
        if !c.Top? {
          Around(c, t);
        }
      }
      InsertDone(c, t);
      ToRoot(c, t);
      ghost var r := Plug(c, t);
      PlugTop(t);
      Repaint(r, false);
      RootIs(r);
      NotRed(r);
      Paint(root, false, Top, r);
      tree := r.(red := false);
    }

    /** The nodes reachable from root form a red-black search tree, and mem covers them exactly. */
    ghost predicate Valid()
      reads this, mem.Keys
    {
      Here(Top, tree) && RedBlack(tree) && Ordered(Items(tree)) && mem.Keys == TNodes(tree) + {sentinel}
    }

    lemma NodeFacts(c: NCtx, t: NTree)
      requires Here(c, t) && t.Nd?
      ensures t.x != null && t.x in mem && t.x != sentinel && t.x.key == t.key && t.x.red == t.red
      ensures t.x.left == Ptr(t.l, sentinel) && (t.l.Leaf? <==> t.x.left == sentinel) && t.x.left != null
      ensures t.x.right == Ptr(t.r, sentinel) && (t.r.Leaf? <==> t.x.right == sentinel) && t.x.right != null
    {
      PtrFacts(mem, t.l, t.x, sentinel);
      PtrFacts(mem, t.r, t.x, sentinel);
    }

    // The descent of rbtree_insert_timer_value: the empty place where the key belongs.
    method FindPlace(key: int) returns (last: Node, left: bool, ghost c: NCtx)
      requires Here(Top, tree) && tree.Nd? && Ordered(Items(tree))
      ensures !c.Top? && Plug(c, Leaf) == tree && Here(c, Leaf) && last == c.x && (left <==> c.InL?)
      ensures AllLe(Before(c), key) && AllGt(After(c), key)
    {
      hide At, Mirror, AllLe, AllGt, Ordered, Items;
      RootIs(tree);
      last := root;
      c := Top;
      ghost var t := tree;
      TopBounds<Node?>(key);
      while true
        invariant Here(c, t) && t.Nd? && t.x == last && Plug(c, t) == tree
        invariant AllLe(Before(c), key) && AllGt(After(c), key)
        decreases t
      {
        NodeFacts(c, t);
        Down(c, t);
        Descend(c, t, key);
        left := key < last.key;
        var p := if left then last.left else last.right;
        c, t := if left then InL(c, t.x, t.red, t.key, t.r) else InR(c, t.x, t.red, t.key, t.l), if left then t.l else t.r;
        if p == sentinel {
          break;
        }
        last := p;
      }
    }

    method HangLeaf(node: Node, last: Node, left: bool, ghost c: NCtx)
      requires Mirror() && node in mem && last in mem && !c.Top? && c.x == last && (left <==> c.InL?)
      modifies this`mem, mem.Keys
      ensures Mirror() && mem.Keys == old(mem.Keys) && mem == LeafWrites(old(mem), sentinel, c, node)
    {
      hide Mirror, WLeft, WRight, WParent;
      if left {
        SetLeft(last, node);
      } else {
        SetRight(last, node);
      }
      SetParent(node, last);
      SetLeft(node, sentinel);
      SetRight(node, sentinel);
      SetRed(node, true);
    }

    /** rbtree_insert_timer_value: hangs node, red, below the last node of the descent. */
    method InsertTimerValue(node: Node) returns (ghost c: NCtx)
      requires Here(Top, tree) && tree.Nd? && Ordered(Items(tree)) && node in mem && node != sentinel && node !in TNodes(tree)
      modifies this`mem, mem.Keys
      ensures !c.Top? && Plug(c, Leaf) == tree && AllLe(Before(c), node.key) && AllGt(After(c), node.key)
      ensures Here(c, NewLeaf(node, true, node.key)) && node.key == old(node.key) && mem.Keys == old(mem.Keys)
    {
      hide At, AllLe, AllGt, Ordered, Items, TNodes, CNodes, Plug, Mirror, LeafWrites;
      var last, left;
      last, left, c := FindPlace(node.key);
      NodesOfPlug(c, Leaf);
      Around(c, Leaf);
      LinkLeaf(mem, root, sentinel, c, node);
      SentinelInMem();
      Fields(node);
      HangLeaf(node, last, left, c);
      Fields(node);
    }

    // Takes a node from outside into the mirrored memory.
    ghost method Adopt(node: Node)
      requires Valid() && node !in mem
      modifies this`mem
      ensures Here(Top, tree) && mem.Keys == old(mem.Keys) + {node}
    {
      hide Rep, RepC, TSep, CSep, Items, Ordered, RedBlack;
      ghost var m' := mem[node := Cell(node.key, node.left, node.right, node.parent, node.red)];
      AtFrame(mem, m', root, sentinel, Top, tree);
      mem := m';
    }

    method BlackLeaf(node: Node)
      requires Mirror() && node in mem && node != sentinel
      modifies this`mem, mem.Keys
      ensures Mirror() && mem == old(mem)[node := Cell(node.key, sentinel, sentinel, null, false)]
      ensures mem.Keys == old(mem.Keys) && node.key == old(node.key)
    {
      LeafCell(mem, node, sentinel, null);
      assert mem[node].key == node.key;
      hide Mirror, WParent, WLeft, WRight;
      SetParent(node, null);
      SetLeft(node, sentinel);
      SetRight(node, sentinel);
      SetRed(node, false);
    }

    method InsertFirst(node: Node)
      requires Here(Top, Leaf) && node in mem && node != sentinel
      modifies this, mem.Keys
      ensures Here(Top, tree) && tree == NewLeaf<Node?>(node, false, node.key)
      ensures node.key == old(node.key) && mem.Keys == old(mem.Keys)
    {
      hide Rep, RepC, TSep, CSep, TNodes, CNodes, At;
      BlackLeaf(node);
      root := node;
      OnlyNode(mem, sentinel, node, node.key, null);
      tree := NewLeaf(node, false, node.key);
    }

    lemma ItemKey(t: NTree, e: Item<Node?>)
      requires Here(Top, t) && e in Items(t)
      ensures e.x != null && e.x in mem && e.x.key == e.key && e.x in TNodes(t)
    {
      ItemInMem(mem, t, mem[t.x].parent, sentinel, e);
    }

    /** rbtree_insert: the node goes after every key not above its own, and before the others. */
    method Insert(node: Node) returns (ghost a: seq<Item<Node?>>, ghost b: seq<Item<Node?>>)
      requires Valid() && node !in mem
      modifies this, mem.Keys, node
      ensures Valid() && node.key == old(node.key) && mem.Keys == old(mem.Keys) + {node}
      ensures Items(old(tree)) == a + b && Items(tree) == a + [Item(node, node.key)] + b
      ensures AllLe(a, node.key) && AllGt(b, node.key)
    {
      hide At, Mirror, Ordered, RedBlack, Plug, AllLe, AllGt, Items, TNodes, CNodes;
      RootIs(tree);
      Adopt(node);
      ghost var key := node.key;
      if root == sentinel {
        PlugTop(tree);
        PlugTop(NewLeaf<Node?>(node, false, key));
        TopBounds<Node?>(key);
        InsertedItems<Node?>(Top, node, false, key);
        InsertFirst(node);
        FirstNode<Node?>(node, key);
        a, b := [], [];
      } else {
        ghost var c := InsertTimerValue(node);
        a, b := Before(c), After(c);
        HangRed(c, node, key);
        InsertedItems(c, node, true, key);
        Rebalance(node, c, NewLeaf(node, true, key));
        assert Items(tree)[|a|] == Item<Node?>.Item(node, key);
        ItemKey(tree, Items(tree)[|a|]);
      }
      NodesOfItems(tree);
      NodesOfItems(old(tree));
      NodesInserted(a, Items(tree)[|a|], b);
    }

    // The position of the deletion loop: even a missing cursor knows its parent.
    ghost predicate Hole(c: NCtx, t: NTree)
      reads this`root, this`mem, mem.Keys, sentinel
    {
      Here(c, t) && (t.Leaf? && !c.Top? ==> sentinel.parent == c.x)
    }

    lemma AroundHole(c: NCtx, t: NTree)
      requires Hole(c, t) && !c.Top?
      ensures var p := Ptr(t, sentinel); p != null && p in mem && p.parent == c.x && p != root && p.red == Red(t)
      ensures c.x != null && c.x in mem && c.x.red == c.red
      ensures c.x.left == (if c.InL? then Ptr(t, sentinel) else Ptr(c.sib, sentinel))
      ensures c.x.right == (if c.InL? then Ptr(c.sib, sentinel) else Ptr(t, sentinel))
      ensures c.sib.Nd? ==> c.sib.x != null && c.sib.x in mem && c.sib.x.red == c.sib.red && c.sib.x != Ptr(t, sentinel)
      ensures !mem[sentinel].red
    {
      hide At, Mirror;
      Around(c, t);
      SentinelInMem();
      Fields(sentinel);
    }

    method PaintParent(p: Node, v: bool, ghost c: NCtx, ghost t: NTree)
      requires Hole(c, t) && !c.Top? && c.x == p
      modifies this`mem, mem.Keys
      ensures Hole(c.(red := v), t) && mem.Keys == old(mem.Keys)
    {
      hide At, Mirror;
      Up(c, t);
      Paint(p, v, c.up, Fill(c, t));
      Down(c.up, Fill(c.(red := v), t));
    }

    method PaintSibling(w: Node, v: bool, ghost c: NCtx, ghost t: NTree)
      requires Hole(c, t) && !c.Top? && c.sib.Nd? && c.sib.x == w
      modifies this`mem, mem.Keys
      ensures Hole(c.(sib := c.sib.(red := v)), t) && mem.Keys == old(mem.Keys)
    {
      hide At, Mirror;
      Across(c, t);
      Paint(w, v, Other(c, t), c.sib);
      Across(Other(c, t), c.sib.(red := v));
    }

    // Paints a child of the sibling.
    method PaintNephew(n: Node, v: bool, left: bool, ghost c: NCtx, ghost t: NTree)
      requires Hole(c, t) && !c.Top? && c.sib.Nd?
      requires if left then c.sib.l.Nd? && c.sib.l.x == n else c.sib.r.Nd? && c.sib.r.x == n
      modifies this`mem, mem.Keys
      ensures Hole(c.(sib := if left then c.sib.(l := c.sib.l.(red := v)) else c.sib.(r := c.sib.r.(red := v))), t)
      ensures mem.Keys == old(mem.Keys)
    {
      hide At, Mirror;
      Across(c, t);
      ghost var w, o := c.sib, Other(c, t);
      Down(o, w);
      if left {
        ghost var d := InL(o, w.x, w.red, w.key, w.r);
        Paint(n, v, d, w.l);
        Up(d, w.l.(red := v));
        Across(o, w.(l := w.l.(red := v)));
      } else {
        ghost var d := InR(o, w.x, w.red, w.key, w.l);
        Paint(n, v, d, w.r);
        Up(d, w.r.(red := v));
        Across(o, w.(r := w.r.(red := v)));
      }
    }

    // w black, parent red, rotation at the parent towards the cursor.
    method TurnRedSibling(temp: Node, w: Node, left: bool, ghost c: NCtx, ghost t: NTree) returns (w': Node?)
      requires Hole(c, t) && temp == Ptr(t, sentinel) && !c.Top? && c.sib.Nd? && c.sib.x == w && (c.InL? <==> left)
      modifies this`root, this`mem, mem.Keys
      ensures Hole(RedSibling(c), t) && w' == Ptr(RedSibling(c).sib, sentinel) && mem.Keys == old(mem.Keys)
    {
      hide At, Mirror;
      PaintSibling(w, false, c, t);
      ghost var c1 := c.(sib := c.sib.(red := false));
      AroundHole(c1, t);
      PaintParent(temp.parent, true, c1, t);
      c1 := c1.(red := true);
      AroundHole(c1, t);
      Up(c1, t);
      ghost var p := Fill(c1, t);
      if left {
        RotateLeft(temp.parent, c.up, p);
        Down(c.up, RotatedLeft(p));
        Down(RedSibling(c).up, RotatedLeft(p).l);
        AroundHole(RedSibling(c), t);
        w' := temp.parent.right;
      } else {
        RotateRight(temp.parent, c.up, p);
        Down(c.up, RotatedRight(p));
        Down(RedSibling(c).up, RotatedRight(p).r);
        AroundHole(RedSibling(c), t);
        w' := temp.parent.left;
      }
    }

    // The near nephew black, w red, rotation at w away from the cursor.
    method TurnNearRed(temp: Node, w: Node, left: bool, ghost c: NCtx, ghost t: NTree) returns (w': Node?)
      requires Hole(c, t) && temp == Ptr(t, sentinel) && !c.Top? && c.sib.Nd? && c.sib.x == w && (c.InL? <==> left)
      requires Near(c).Nd?
      modifies this`root, this`mem, mem.Keys
      ensures Hole(NearRed(c), t) && w' == NearRed(c).sib.x && mem.Keys == old(mem.Keys)
    {
      hide At, Mirror;
      Across(c, t);
      NodeFacts(Other(c, t), c.sib);
      ghost var w0 := c.sib;
      if left {
        PaintNephew(w.left, false, true, c, t);
        ghost var w1 := w0.(l := w0.l.(red := false));
        PaintSibling(w, true, WithSib(c, w1), t);
        Across(WithSib(c, w1.(red := true)), t);
        RotateRight(w, Other(c, t), w1.(red := true));
        Across(Other(c, t), RotatedRight(w1.(red := true)));
        AroundHole(NearRed(c), t);
        w' := temp.parent.right;
      } else {
        PaintNephew(w.right, false, false, c, t);
        ghost var w1 := w0.(r := w0.r.(red := false));
        PaintSibling(w, true, WithSib(c, w1), t);
        Across(WithSib(c, w1.(red := true)), t);
        RotateLeft(w, Other(c, t), w1.(red := true));
        Across(Other(c, t), RotatedLeft(w1.(red := true)));
        AroundHole(NearRed(c), t);
        w' := temp.parent.left;
      }
    }

    // w takes the parent's colour, parent and far nephew black, rotation at the parent.
    method TurnFarRed(temp: Node, w: Node, left: bool, ghost c: NCtx, ghost t: NTree)
      requires Hole(c, t) && temp == Ptr(t, sentinel) && !c.Top? && c.sib.Nd? && c.sib.x == w && (c.InL? <==> left)
      requires Far(c).Nd?
      modifies this`root, this`mem, mem.Keys
      ensures Here(c.up, FarRed(c, t)) && mem.Keys == old(mem.Keys)
    {
      hide At, Mirror;
      AroundHole(c, t);
      PaintSibling(w, temp.parent.red, c, t);
      ghost var c1 := c.(sib := c.sib.(red := c.red));
      AroundHole(c1, t);
      PaintParent(temp.parent, false, c1, t);
      c1 := c1.(red := false);
      Across(c1, t);
      NodeFacts(Other(c1, t), c1.sib);
      if left {
        PaintNephew(w.right, false, false, c1, t);
        c1 := WithSib(c1, c1.sib.(r := c1.sib.r.(red := false)));
        AroundHole(c1, t);
        Up(c1, t);
        RotateLeft(temp.parent, c.up, Fill(c1, t));
      } else {
        PaintNephew(w.left, false, true, c1, t);
        c1 := WithSib(c1, c1.sib.(l := c1.sib.l.(red := false)));
        AroundHole(c1, t);
        Up(c1, t);
        RotateRight(temp.parent, c.up, Fill(c1, t));
      }
    }

    // The far nephew is made red if need be; one more rotation ends the loop.
    method EndShortage(temp: Node, w: Node, left: bool, ghost c: NCtx, ghost t: NTree) returns (next: Node?, ghost t1: NTree)
      requires Hole(c, t) && temp == Ptr(t, sentinel) && !c.Top? && c.sib.Nd? && c.sib.x == w && (c.InL? <==> left)
      requires ShortAt(c, t) && !Red(t) && !Red(c.sib) && (Red(c.sib.l) || Red(c.sib.r))
      modifies this`root, this`mem, mem.Keys
      ensures Hole(Top, t1) && next == Ptr(t1, sentinel) && ShortAt(Top, t1)
      ensures Items(t1) == Items(Plug(c, t)) && mem.Keys == old(mem.Keys)
    {
      hide At, Mirror, ShortAt, Plug, Items;
      ghost var c1 := c;
      var w1: Node? := w;
      Nephews(c, t);
      if (left && !w.right.red) || (!left && !w.left.red) {
        w1 := TurnNearRed(temp, w, left, c, t);
        NearRedKeeps(c, t);
        c1 := NearRed(c);
        AroundHole(c1, t);
      }
      TurnFarRed(temp, w1, left, c1, t);
      FarRedEnds(c1, t);
      ToRoot(c1.up, FarRed(c1, t));
      t1 := Plug(c1.up, FarRed(c1, t));
      RootIs(t1);
      next := root;
    }

    // The sibling's children as the loop reads them.
    lemma Nephews(c: NCtx, t: NTree)
      requires Here(c, t) && !c.Top? && c.sib.Nd?
      ensures var w := c.sib.x; w != null && w in mem && w.left != null && w.right != null
      ensures c.sib.x.left.red == Red(c.sib.l) && c.sib.x.right.red == Red(c.sib.r)
    {
      hide At, Mirror;
      Across(c, t);
      NodeFacts(Other(c, t), c.sib);
      Down(Other(c, t), c.sib);
      ghost var w := c.sib;
      Around(InL(Other(c, t), w.x, w.red, w.key, w.r), w.l);
      Around(InR(Other(c, t), w.x, w.red, w.key, w.l), w.r);
    }

    // The part of a pass after the sibling is known to be black.
    method BlackSibling(temp: Node, w: Node, left: bool, ghost c: NCtx, ghost t: NTree)
      returns (next: Node?, ghost c1: NCtx, ghost t1: NTree)
      requires Hole(c, t) && temp == Ptr(t, sentinel) && !c.Top? && c.sib.Nd? && c.sib.x == w && (c.InL? <==> left)
      requires ShortAt(c, t) && !Red(t) && !Red(c.sib)
      modifies this`root, this`mem, mem.Keys
      ensures Hole(c1, t1) && next == Ptr(t1, sentinel) && ShortAt(c1, t1)
      ensures c1.Top? || (c1 == c.up && t1 == PushUp(c, t))
      ensures Items(Plug(c1, t1)) == Items(Plug(c, t)) && mem.Keys == old(mem.Keys)
    {
      hide At, Mirror, ShortAt, Plug, Items;
      Nephews(c, t);
      if !w.left.red && !w.right.red {
        PaintSibling(w, true, c, t);
        ghost var c2 := WithSib(c, c.sib.(red := true));
        AroundHole(c2, t);
        Up(c2, t);
        PushUpKeeps(c, t);
        next, c1, t1 := temp.parent, c.up, PushUp(c, t);
      } else {
        next, t1 := EndShortage(temp, w, left, c, t);
        c1 := Top;
        PlugTop(t1);
      }
    }

    // One pass of the deletion loop.
    method DeleteStep(temp: Node, ghost c: NCtx, ghost t: NTree) returns (next: Node?, ghost c1: NCtx, ghost t1: NTree)
      requires Hole(c, t) && temp == Ptr(t, sentinel) && !c.Top? && ShortAt(c, t) && !Red(t)
      modifies this`root, this`mem, mem.Keys
      ensures Hole(c1, t1) && next == Ptr(t1, sentinel) && ShortAt(c1, t1)
      ensures DeleteRank(c1, t1) < DeleteRank(c, t)
      ensures Items(Plug(c1, t1)) == Items(Plug(c, t)) && mem.Keys == old(mem.Keys)
    {
      hide At, Mirror, ShortAt, Plug, Items;
      ShortHasSibling(c, t);
      AroundHole(c, t);
      c1 := c;
      var left := temp == temp.parent.left;
      var w := if left then temp.parent.right else temp.parent.left;
      if w.red {
        w := TurnRedSibling(temp, w, left, c, t);
        RedSiblingKeeps(c, t);
        c1 := RedSibling(c);
        AroundHole(c1, t);
      }
      next, c1, t1 := BlackSibling(temp, w, left, c1, t);
    }

    /** The rebalancing loop of rbtree_delete and the final blackening of the cursor. */
    method Replenish(temp0: Node, ghost c0: NCtx, ghost t0: NTree)
      requires Hole(c0, t0) && temp0 == Ptr(t0, sentinel) && ShortAt(c0, t0)
      modifies this, mem.Keys
      ensures Here(Top, tree) && RedBlack(tree) && Items(tree) == Items(Plug(c0, t0))
      ensures mem.Keys == old(mem.Keys)
    {
      hide At, Mirror, ShortAt, Items, Plug, RedBlack;
      var temp: Node? := temp0;
      ghost var c, t := c0, t0;
      AtCursor(c, t);
      while temp != root && !temp.red
        invariant Hole(c, t) && temp == Ptr(t, sentinel) && ShortAt(c, t)
        invariant temp != null && temp.red == Red(t) && (temp == root <==> c.Top?)
        invariant Items(Plug(c, t)) == Items(Plug(c0, t0)) && mem.Keys == old(mem.Keys)
        decreases DeleteRank(c, t)
      {
        temp, c, t := DeleteStep(temp, c, t);
        AtCursor(c, t);
      }
      DeleteDone(c, t);
      Blacken(temp, c, t);
      ghost var r := if t.Nd? then t.(red := false) else t;
      ToRoot(c, r);
      tree := Plug(c, r);
    }

    lemma AtCursor(c: NCtx, t: NTree)
      requires Hole(c, t)
      ensures var p := Ptr(t, sentinel); p != null && p in mem && p.red == Red(t) && (p == root <==> c.Top?)
    {
      hide At, Mirror;
      SentinelInMem();
      Fields(sentinel);
      if c.Top? {
        RootIs(t);
        if t.Nd? {
          NodeFacts(c, t);
        }
      } else {
        AroundHole(c, t);
      }
    }

    // rbtree_black(temp), where temp may be the sentinel.
    method Blacken(temp: Node, ghost c: NCtx, ghost t: NTree)
      requires Here(c, t) && temp == Ptr(t, sentinel)
      modifies this`mem, mem.Keys
      ensures Here(c, if t.Nd? then t.(red := false) else t) && mem.Keys == old(mem.Keys)
    {
      hide At, Mirror;
      SentinelInMem();
      if t.Nd? {
        NodeFacts(c, t);
        PaintAt(mem, root, sentinel, c, t, false);
      }
      SetRed(temp, false);
      if t.Leaf? {
        assert mem == old(mem);
      }
    }

    /** rbtree_min: the first node in order. */
    method Min(node: Node, ghost c: NCtx, ghost t: NTree) returns (min: Node, ghost d: NCtx, ghost u: NTree)
      requires Here(c, t) && t.Nd? && t.x == node
      ensures Here(Comp(c, d), u) && u.Nd? && u.x == min && u.l.Leaf? && LeftSpine(d) && Plug(d, u) == t
    {
      hide At, Mirror;
      min, d, u := node, Top, t;
      NodeFacts(c, t);
      while min.left != sentinel
        invariant Here(Comp(c, d), u) && u.Nd? && u.x == min && LeftSpine(d) && Plug(d, u) == t
        invariant min.left != null && (u.l.Leaf? <==> min.left == sentinel) && min.left == Ptr(u.l, sentinel)
        decreases u
      {
        Down(Comp(c, d), u);
        min, d, u := min.left, InL(d, u.x, u.red, u.key, u.r), u.l;
        NodeFacts(Comp(c, d), u);
      }
    }

    // The smallest node of the whole tree.
    method First() returns (min: Node)
      requires Valid() && root != sentinel
      ensures |Items(tree)| > 0 && Items(tree)[0] == Item<Node?>.Item(min, min.key) && min in mem && min != sentinel
    {
      hide At, Mirror, RedBlack, Ordered, TNodes, Items, Plug, Comp, LeftSpine;
      RootIs(tree);
      ghost var d, u;
      min, d, u := Min(root, Top, tree);
      MinItems(d, u);
      NodeFacts(Comp(Top, d), u);
    }

    lemma {:induction false} Locate(c: NCtx, t: NTree, n: Node?) returns (c1: NCtx, t1: NTree)
      requires Here(c, t) && n in TNodes(t)
      ensures Here(c1, t1) && t1.Nd? && t1.x == n && Plug(c1, t1) == Plug(c, t)
      decreases t
    {
      hide At, Mirror;
      Down(c, t);
      if t.x == n {
        c1, t1 := c, t;
      } else if n in TNodes(t.l) {
        c1, t1 := Locate(InL(c, t.x, t.red, t.key, t.r), t.l, n);
      } else {
        c1, t1 := Locate(InR(c, t.x, t.red, t.key, t.l), t.r, n);
      }
    }

    // Which node to unlink and what takes its place.
    method Choose(node: Node, ghost c: NCtx, ghost t: NTree)
      returns (subst: Node, temp: Node, ghost cs: NCtx, ghost us: NTree, ghost d: NCtx)
      requires Here(c, t) && t.Nd? && t.x == node
      ensures Here(cs, us) && us.Nd? && us.x == subst && Chosen(c, t, cs, us, d) && temp == Ptr(Rest(us), sentinel)
    {
      hide At, Mirror, LeftSpine, Comp;
      NodeFacts(c, t);
      d := Top;
      if node.left == sentinel {
        temp := node.right;
        subst, cs, us := node, c, t;
      } else if node.right == sentinel {
        temp := node.left;
        subst, cs, us := node, c, t;
      } else {
        Down(c, t);
        subst, d, us := Min(node.right, InR(c, t.x, t.red, t.key, t.l), t.r);
        cs := Comp(InR(c, t.x, t.red, t.key, t.l), d);
        NodeFacts(cs, us);
        if subst.left != sentinel {
          assert false; // the source's other choice, temp = subst->left, is dead: subst is a minimum
        }
        temp := subst.right;
        OtherNode(c, t, d, us);
      }
    }

    // A node of the right subtree is not the node above it.
    lemma OtherNode(c: NCtx, t: NTree, d: NCtx, u: NTree)
      requires Here(c, t) && t.Nd? && u.Nd? && t.r == Plug(d, u)
      ensures u.x != t.x
    {
      NodesOfPlug(d, u);
      assert u.x in TNodes(u);
    }

    // Takes subst out of its place; temp moves up.
    method Splice(node: Node, subst: Node, temp: Node, ghost cs: NCtx, ghost us: NTree)
      requires Here(cs, us) && us.Nd? && us.x == subst && !cs.Top? && temp == Ptr(Rest(us), sentinel) && temp in mem
      requires us.l.Leaf? || us.r.Leaf?
      modifies this`mem, mem.Keys
      ensures Mirror() && mem.Keys == old(mem.Keys)
      ensures mem == SpliceWrites(old(mem), sentinel, cs, us, if subst != node && cs.x == node then subst else cs.x)
    {
      hide At, WLeft, WRight, WParent, Rest, Mirror;
      Around(cs, us);
      Subst(cs, us);
      var p := subst.parent;
      if subst == p.left {
        SetLeft(p, temp);
      } else {
        SetRight(p, temp);
      }
      SetParent(temp, if subst != node && p == node then subst else p);
    }

    // subst.parent is still the same once temp hangs there.
    lemma Subst(cs: NCtx, us: NTree)
      requires Here(cs, us) && us.Nd? && !cs.Top?
      ensures us.x != cs.x && us.x.parent == cs.x && (cs.InL? <==> cs.x.left == us.x)
    {
      HoleFacts(mem, root, sentinel, cs, us);
    }

    // Puts subst where node stands.
    method Replace(node: Node, subst: Node, ghost c: NCtx)
      requires Mirror() && node in mem && subst in mem && node != subst
      requires c.Top? <==> root == node
      requires !c.Top? ==> c.x in mem && c.x != subst && c.x != node && mem[node].parent == c.x
      requires c.InL? ==> mem[c.x].left == node
      requires c.InR? ==> mem[c.x].left != node
      requires mem[node].left in mem && mem[node].right in mem
      modifies this`root, this`mem, mem.Keys
      ensures Mirror() && mem.Keys == old(mem.Keys)
      ensures mem == ReplaceWrites(old(mem), sentinel, c, node, subst)
      ensures root == if c.Top? then subst else old(root)
    {
      hide WHole, CopyWrites, Mirror;
      CopyInto(node, subst);
      CopyKeeps(old(mem), node, subst);
      SetHole(node, subst, c);
      HoleKeeps(old(mem), c, node, subst);
      RehangChildren(subst);
    }

    method RehangChildren(subst: Node)
      requires Mirror() && subst in mem && mem[subst].left in mem && mem[subst].right in mem
      modifies this`mem, mem.Keys
      ensures Mirror() && mem.Keys == old(mem.Keys)
      ensures var l, r := old(mem)[subst].left, old(mem)[subst].right;
        var m1 := if l != sentinel then WParent(old(mem), l, subst) else old(mem);
        mem == if r != sentinel then WParent(m1, r, subst) else m1
    {
      SetParentUnlessSentinel(subst.left, subst);
      SetParentUnlessSentinel(subst.right, subst);
    }

    method CopyInto(node: Node, subst: Node)
      requires Mirror() && node in mem && subst in mem && node != subst
      modifies this`mem, mem.Keys
      ensures Mirror() && mem.Keys == old(mem.Keys) && mem == CopyWrites(old(mem), node, subst)
    {
      hide Mirror;
      Fields(node);
      SetLeft(subst, node.left);
      Fields(node);
      SetRight(subst, node.right);
      Fields(node);
      SetParent(subst, node.parent);
      Fields(node);
      SetRed(subst, node.red);
    }

    // Unlinks subst and, if it is not node itself, lets it take node's place.
    method MoveOut(node: Node, subst: Node, temp: Node,
                   ghost c: NCtx, ghost t: NTree, ghost cs: NCtx, ghost us: NTree, ghost d: NCtx)
      requires Here(cs, us) && t.Nd? && us.Nd? && t.x == node && us.x == subst && !cs.Top?
      requires Chosen(c, t, cs, us, d) && temp == Ptr(Rest(us), sentinel)
      modifies this`root, this`mem, mem.Keys
      ensures Hole(Remaining(c, t, us, d), Rest(us)) && mem.Keys == old(mem.Keys)
    {
      hide At, Mirror, SpliceWrites, ReplaceWrites, Comp, LeftSpine, Plug;
      SentinelInMem();
      SpliceAt(mem, root, sentinel, cs, us);
      RestInMem(cs, us);
      if subst != node {
        ghost var e := InR(c, t.x, t.red, t.key, t.l);
        ghost var root' := if c.Top? then us.x else root;
        SuccessorIn(mem, root, root', sentinel, e, d, us);
        SuccessorReads(mem, root, sentinel, e, d, us);
        Splice(node, subst, temp, cs, us);
        Replace(node, subst, c);
      } else {
        Splice(node, subst, temp, cs, us);
      }
      Fields(sentinel);
    }

    lemma RestInMem(c: NCtx, t: NTree)
      requires Here(c, t) && t.Nd?
      ensures Ptr(Rest(t), sentinel) in mem
    {
      PtrFacts(mem, t.l, t.x, sentinel);
      PtrFacts(mem, t.r, t.x, sentinel);
    }

    // Clears a node that is no longer in the tree, and lets go of it.
    method Clear(node: Node, ghost c: NCtx, ghost t: NTree)
      requires Hole(c, t) && node in mem && node != sentinel && node !in TNodes(t) + CNodes(c)
      modifies this`mem, mem.Keys
      ensures Hole(c, t) && mem.Keys == old(mem.Keys) - {node}
      ensures node.left == null && node.right == null && node.parent == null && node.key == 0
    {
      hide Rep, RepC, TSep, CSep, TNodes, CNodes, At;
      node.left := null;
      node.right := null;
      node.parent := null;
      node.key := 0;
      AtFrame(mem, mem - {node}, root, sentinel, c, t);
      mem := mem - {node};
    }

    lemma RootRest(t: NTree)
      requires Here(Top, t) && t.Nd? && (t.l.Leaf? || t.r.Leaf?)
      ensures At(mem, Ptr(Rest(t), sentinel), sentinel, Top, Rest(t))
    {
      assert Rep(mem, Rest(t), t.x, sentinel);
    }

    // The deleted node is the root and lacks a child.
    method DropRoot(node: Node, temp: Node, ghost t: NTree)
      requires Here(Top, t) && t.Nd? && t.x == node && (t.l.Leaf? || t.r.Leaf?) && temp == Ptr(Rest(t), sentinel)
      requires ShortAt(Top, Rest(t)) && node !in TNodes(Rest(t))
      modifies this, mem.Keys
      ensures Here(Top, tree) && RedBlack(tree) && Items(tree) == Items(Rest(t)) && mem.Keys == old(mem.Keys) - {node}
      ensures node.left == null && node.right == null && node.parent == null && node.key == 0
    {
      hide At, Mirror, ShortAt, Items, RedBlack, Plug, TNodes, Rest;
      NodeFacts(Top, t);
      RestInMem(Top, t);
      RootRest(t);
      root := temp;
      Blacken(temp, Top, Rest(t));
      DeleteDone(Top, Rest(t));
      ghost var r := if Rest(t).Nd? then Rest(t).(red := false) else Rest(t);
      PlugTop(Rest(t));
      PlugTop(r);
      SameNodes(Rest(t), r);
      Clear(node, Top, r);
      tree := r;
    }

    lemma SameNodes(t: NTree, t': NTree)
      requires Items(t) == Items(t')
      ensures TNodes(t) == TNodes(t') && CNodes<Node?>(Top) == {}
    {
      NodesOfItems(t);
      NodesOfItems(t');
    }

    // The item leaves the sequence, the node the tree.
    lemma Gone(c: NCtx, t: NTree, c1: NCtx, t1: NTree, a: seq<Item<Node?>>, e: Item<Node?>, b: seq<Item<Node?>>)
      requires Here(c, t) && Items(Plug(c, t)) == a + [e] + b && Items(Plug(c1, t1)) == a + b
      requires Ordered(Items(Plug(c, t)))
      ensures e.x !in TNodes(t1) + CNodes(c1) && e.x !in Nodes(a + b) && TNodes(Plug(c, t)) == Nodes(a + b) + {e.x}
      ensures Ordered(a + b)
    {
      ToRoot(c, t);
      DistinctItems(Plug(c, t));
      hide *;
      GoneFrom(a, e, b);
      NodesOfPlug(c1, t1);
      NodesOfItems(Plug(c1, t1));
      NodesOfItems(Plug(c, t));
      NodesInserted(a, e, b);
      OrderedRemove(a, [e], b);
    }

    /** rbtree_delete: the node leaves the in-order sequence; nothing else moves in it. */
    method Delete(node: Node) returns (ghost a: seq<Item<Node?>>, ghost b: seq<Item<Node?>>)
      requires Valid() && node in mem && node != sentinel
      modifies this, mem.Keys
      ensures Valid() && mem.Keys == old(mem.Keys) - {node}
      ensures Items(old(tree)) == a + [Item(node, old(node.key))] + b && Items(tree) == a + b
      ensures node.left == null && node.right == null && node.parent == null && node.key == 0
    {
      hide At, Mirror, Ordered, RedBlack, Plug, Items, TNodes, CNodes, ShortAt, Chosen, Remaining, Rest, Before, After;
      ghost var c, t := Locate(Top, tree, node);
      PlugTop(tree);
      NodeFacts(c, t);
      var subst, temp;
      ghost var cs, us, d;
      subst, temp, cs, us, d := Choose(node, c, t);
      DeletePlan(c, t, cs, us, d);
      a, b := Before(c) + Items(t.l), Items(t.r) + After(c);
      ghost var c1, t1 := Remaining(c, t, us, d), Rest(us);
      Gone(c, t, c1, t1, a, Item(t.x, t.key), b);
      AtCursor0(cs, us);
      if subst == root {
        OnlyChild(c, t, cs, us, d);
        PlugTop(t1);
        DropRoot(node, temp, us);
      } else {
        var red := subst.red;
        MoveOut(node, subst, temp, c, t, cs, us, d);
        Clear(node, c1, t1);
        if red {
          ToRoot(c1, t1);
          tree := Plug(c1, t1);
        } else {
          Replenish(temp, c1, t1);
        }
      }
      NodesOfItems(tree);
    }

    lemma AtCursor0(c: NCtx, t: NTree)
      requires Here(c, t) && t.Nd?
      ensures (root == t.x <==> c.Top?) && t.x != null && t.x.red == t.red
    {
      hide At, Mirror;
      Cursor(c, t);
      NodeFacts(c, t);
    }

    lemma OnlyChild(c: NCtx, t: NTree, cs: NCtx, us: NTree, d: NCtx)
      requires t.Nd? && us.Nd? && Chosen(c, t, cs, us, d) && cs.Top?
      ensures us == t && (us.l.Leaf? || us.r.Leaf?)
    {
    }

    /** With n timers no path from the root is longer than 2 * log2(n + 1). */
    lemma HeightBound()
      requires Valid()
      ensures Height(tree) <= 2 * FloorLog2(|Items(tree)| + 1)
    {
      HeightIsLogarithmic(tree);
    }

    lemma OnceEach()
      requires Valid()
      ensures Distinct(Items(tree)) && Nodes(Items(tree)) == mem.Keys - {sentinel}
    {
      DistinctItems(tree);
      NodesOfItems(tree);
    }
  }

  lemma CopyKeeps(m: Mem<Node?>, x: Node, y: Node)
    requires x in m && y in m
    ensures var m' := CopyWrites(m, x, y); m'.Keys == m.Keys && forall k :: k in m && k != y ==> m'[k] == m[k]
  {
  }

  lemma HoleKeeps(m: Mem<Node?>, c: NCtx, x: Node, y: Node)
    requires x in m && y in m && x != y && (!c.Top? ==> c.x in m && c.x != y && c.x != x)
    ensures var m' := WHole(CopyWrites(m, x, y), c, y); y in m' && m'[y].left == m[x].left && m'[y].right == m[x].right
  {
  }

  lemma SentinelKept(m: Mem<Node?>, m': Mem<Node?>, root: Node?, s: Node, c: NCtx, t: NTree)
    requires At(m, root, s, c, t) && s in m && Agree(m, m', m.Keys - TNodes(t) - CNodes(c))
    ensures s in m' && m'[s] == m[s]
  {
    hide Rep, RepC, TSep, CSep, TNodes, CNodes;
  }
}

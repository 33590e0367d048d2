/** The node memory of the red-black tree as a value, and when it represents a given tree
    around a given position. */
module RBMemory {
  import opened RBAlgebra
  import opened RBOrder

  /** The fields of one rbtree_node_t. */
  datatype Cell<N> = Cell(key: int, left: N, right: N, parent: N, red: bool)

  type Mem<N> = map<N, Cell<N>>

  ghost function TNodes<N>(t: Tree<N>): set<N> {
    if t.Leaf? then {} else TNodes(t.l) + {t.x} + TNodes(t.r)
  }

  ghost function CNodes<N>(c: Ctx<N>): set<N> {
    if c.Top? then {} else CNodes(c.up) + {c.x} + TNodes(c.sib)
  }

  // No node occurs twice.
  ghost predicate TSep<N>(t: Tree<N>) {
    t.Leaf? || (TSep(t.l) && TSep(t.r) && t.x !in TNodes(t.l) && t.x !in TNodes(t.r) && TNodes(t.l) !! TNodes(t.r))
  }

  ghost predicate CSep<N>(c: Ctx<N>) {
    c.Top? || (CSep(c.up) && TSep(c.sib) && c.x !in TNodes(c.sib) && c.x !in CNodes(c.up) && TNodes(c.sib) !! CNodes(c.up))
  }

  // The pointer that stands for a subtree: its root, or the sentinel s.
  function Ptr<N>(t: Tree<N>, s: N): N {
    if t.Leaf? then s else t.x
  }

  /** The memory below a child of p is the tree t. */
  ghost predicate Rep<N>(m: Mem<N>, t: Tree<N>, p: N, s: N) {
    t.Leaf? || (
      && t.x != s && t.x in m
      && m[t.x] == Cell(t.key, Ptr(t.l, s), Ptr(t.r, s), p, t.red)
      && Rep(m, t.l, t.x, s) && Rep(m, t.r, t.x, s))
  }

  // The cell of a context node; the root's parent field is not constrained.
  ghost predicate CtxCell<N>(m: Mem<N>, c: Ctx<N>, child: N, s: N)
    requires !c.Top?
  {
    && c.x != s && c.x in m && m[c.x].key == c.key && m[c.x].red == c.red
    && m[c.x].left == (if c.InL? then child else Ptr(c.sib, s))
    && m[c.x].right == (if c.InL? then Ptr(c.sib, s) else child)
    && (!c.up.Top? ==> m[c.x].parent == c.up.x)
  }

  /** The memory around a hole filled by child is the context c, with root at its end. */
  ghost predicate RepC<N>(m: Mem<N>, c: Ctx<N>, child: N, root: N, s: N) {
    if c.Top? then root == child
    else CtxCell(m, c, child, s) && Rep(m, c.sib, c.x, s) && RepC(m, c.up, c.x, root, s)
  }

  // The parent the position's subtree must name.
  ghost predicate ParentOk<N>(c: Ctx<N>, p: N) {
    !c.Top? ==> p == c.x
  }

  /** The memory is the tree Plug(c, t), seen from the position (c, t). */
  ghost predicate At<N>(m: Mem<N>, root: N, s: N, c: Ctx<N>, t: Tree<N>) {
    && TSep(t) && CSep(c) && TNodes(t) !! CNodes(c)
    && s !in TNodes(t) && s !in CNodes(c)
    && RepC(m, c, Ptr(t, s), root, s)
    && (t.Nd? ==> t.x in m && ParentOk(c, m[t.x].parent) && Rep(m, t, m[t.x].parent, s))
  }

  // ---- framing ----

  ghost predicate Agree<N>(m: Mem<N>, m': Mem<N>, ns: set<N>) {
    forall n :: n in ns && n in m ==> n in m' && m'[n] == m[n]
  }

  lemma {:induction false} RepFrame<N>(m: Mem<N>, m': Mem<N>, t: Tree<N>, p: N, s: N)
    requires Rep(m, t, p, s) && Agree(m, m', TNodes(t))
    ensures Rep(m', t, p, s)
  {
    if t.Nd? {
      RepFrame(m, m', t.l, t.x, s);
      RepFrame(m, m', t.r, t.x, s);
    }
  }

  lemma {:induction false} RepCFrame<N>(m: Mem<N>, m': Mem<N>, c: Ctx<N>, child: N, root: N, s: N)
    requires RepC(m, c, child, root, s) && Agree(m, m', CNodes(c))
    ensures RepC(m', c, child, root, s)
  {
    if !c.Top? {
      RepFrame(m, m', c.sib, c.x, s);
      RepCFrame(m, m', c.up, c.x, root, s);
    }
  }

  // The root of a subtree gets a new parent.
  lemma RepReparent<N>(m: Mem<N>, m': Mem<N>, t: Tree<N>, p: N, q: N, s: N)
    requires Rep(m, t, p, s) && TSep(t) && t.Nd?
    requires Agree(m, m', TNodes(t) - {t.x}) && t.x in m' && m'[t.x] == m[t.x].(parent := q)
    ensures Rep(m', t, q, s)
  {
    RepFrame(m, m', t.l, t.x, s);
    RepFrame(m, m', t.r, t.x, s);
  }

  // The hole of a context gets a new child.
  lemma RepCRefill<N>(m: Mem<N>, m': Mem<N>, c: Ctx<N>, child: N, child': N, root: N, root': N, s: N)
    requires RepC(m, c, child, root, s) && CSep(c)
    requires c.Top? ==> root' == child'
    requires !c.Top? ==> root' == root && Agree(m, m', CNodes(c) - {c.x})
    requires !c.Top? ==> c.x in m' && m'[c.x] == if c.InL? then m[c.x].(left := child') else m[c.x].(right := child')
    ensures RepC(m', c, child', root', s)
  {
    if !c.Top? {
      RepFrame(m, m', c.sib, c.x, s);
      RepCFrame(m, m', c.up, c.x, root, s);
    }
  }

  // The root lies in the context unless the context is empty.
  lemma {:induction false} RootOfCtx<N>(m: Mem<N>, c: Ctx<N>, child: N, root: N, s: N)
    requires RepC(m, c, child, root, s)
    ensures c.Top? ==> root == child
    ensures !c.Top? ==> root in CNodes(c)
  {
    if !c.Top? {
      RootOfCtx(m, c.up, c.x, root, s);
    }
  }

  // ---- moving the position ----

  lemma UpAt<N>(m: Mem<N>, root: N, s: N, c: Ctx<N>, t: Tree<N>)
    requires At(m, root, s, c, t) && !c.Top?
    ensures c.InL? ==> At(m, root, s, c.up, Nd(t, c.x, c.red, c.key, c.sib))
    ensures c.InR? ==> At(m, root, s, c.up, Nd(c.sib, c.x, c.red, c.key, t))
  {
  }

  lemma DownAt<N>(m: Mem<N>, root: N, s: N, c: Ctx<N>, t: Tree<N>)
    requires At(m, root, s, c, t) && t.Nd?
    ensures At(m, root, s, InL(c, t.x, t.red, t.key, t.r), t.l)
    ensures At(m, root, s, InR(c, t.x, t.red, t.key, t.l), t.r)
  {
    assert Rep(m, t.l, t.x, s) && Rep(m, t.r, t.x, s);
  }

  // The hole of c now points at nu.
  ghost predicate Refilled<N>(m: Mem<N>, m': Mem<N>, root: N, root': N, c: Ctx<N>, nu: N) {
    if c.Top? then root' == nu
    else
      && root' == root && Agree(m, m', CNodes(c) - {c.x})
      && c.x in m && c.x in m' && m'[c.x] == if c.InL? then m[c.x].(left := nu) else m[c.x].(right := nu)
  }

  // ---- rotations ----

  function RotatedLeft<N>(t: Tree<N>): Tree<N>
    requires t.Nd? && t.r.Nd?
  {
    Nd(Nd(t.l, t.x, t.red, t.key, t.r.l), t.r.x, t.r.red, t.r.key, t.r.r)
  }

  // What rbtree_left_rotate writes, and that it writes nothing else of the tree.
  ghost predicate LeftRotation<N>(m: Mem<N>, m': Mem<N>, root: N, root': N, s: N, c: Ctx<N>, t: Tree<N>)
    requires t.Nd? && t.r.Nd? && t.x in m && t.r.x in m
  {
    var x, y, b := t.x, t.r.x, t.r.l;
    && x in m' && m'[x] == m[x].(right := Ptr(b, s), parent := y)
    && y in m' && m'[y] == m[y].(left := x, parent := m[x].parent)
    && (b.Nd? ==> b.x in m && b.x in m' && m'[b.x] == m[b.x].(parent := x))
    && Refilled(m, m', root, root', c, y)
    && Agree(m, m', TNodes(t.l)) && Agree(m, m', TNodes(t.r.r))
    && (b.Nd? ==> Agree(m, m', TNodes(b) - {b.x}))
  }

  lemma LeftSep<N>(t: Tree<N>)
    requires t.Nd? && t.r.Nd? && TSep(t)
    ensures TSep(RotatedLeft(t)) && TNodes(RotatedLeft(t)) == TNodes(t)
    ensures TSep(t.r.l)
  {
    assert TSep(t.r);
    assert TSep(Nd(t.l, t.x, t.red, t.key, t.r.l));
  }

  /** A left rotation turns the tree at the position into the rotated tree. */
  lemma LeftRotationAt<N>(m: Mem<N>, m': Mem<N>, root: N, root': N, s: N, c: Ctx<N>, t: Tree<N>)
    requires At(m, root, s, c, t) && t.Nd? && t.r.Nd? && t.x in m && t.r.x in m
    requires LeftRotation(m, m', root, root', s, c, t)
    ensures At(m', root', s, c, RotatedLeft(t))
  {
    LeftSep(t);
    var x, y, a, b, d := t.x, t.r.x, t.l, t.r.l, t.r.r;
    assert Rep(m, t.r, x, s);
    RepFrame(m, m', a, x, s);
    RepFrame(m, m', d, y, s);
    if b.Nd? { RepReparent(m, m', b, y, x, s); }
    RepCRefill(m, m', c, x, y, root, root', s);
    assert Rep(m', Nd(a, x, t.red, t.key, b), y, s);
  }

  function RotatedRight<N>(t: Tree<N>): Tree<N>
    requires t.Nd? && t.l.Nd?
  {
    Nd(t.l.l, t.l.x, t.l.red, t.l.key, Nd(t.l.r, t.x, t.red, t.key, t.r))
  }

  // What rbtree_right_rotate writes, and that it writes nothing else of the tree.
  ghost predicate RightRotation<N>(m: Mem<N>, m': Mem<N>, root: N, root': N, s: N, c: Ctx<N>, t: Tree<N>)
    requires t.Nd? && t.l.Nd? && t.x in m && t.l.x in m
  {
    var x, y, b := t.x, t.l.x, t.l.r;
    && x in m' && m'[x] == m[x].(left := Ptr(b, s), parent := y)
    && y in m' && m'[y] == m[y].(right := x, parent := m[x].parent)
    && (b.Nd? ==> b.x in m && b.x in m' && m'[b.x] == m[b.x].(parent := x))
    && Refilled(m, m', root, root', c, y)
    && Agree(m, m', TNodes(t.r)) && Agree(m, m', TNodes(t.l.l))
    && (b.Nd? ==> Agree(m, m', TNodes(b) - {b.x}))
  }

  lemma RightSep<N>(t: Tree<N>)
    requires t.Nd? && t.l.Nd? && TSep(t)
    ensures TSep(RotatedRight(t)) && TNodes(RotatedRight(t)) == TNodes(t)
    ensures TSep(t.l.r)
  {
    assert TSep(t.l);
    assert TSep(Nd(t.l.r, t.x, t.red, t.key, t.r));
  }

  /** A right rotation turns the tree at the position into the rotated tree. */
  lemma RightRotationAt<N>(m: Mem<N>, m': Mem<N>, root: N, root': N, s: N, c: Ctx<N>, t: Tree<N>)
    requires At(m, root, s, c, t) && t.Nd? && t.l.Nd? && t.x in m && t.l.x in m
    requires RightRotation(m, m', root, root', s, c, t)
    ensures At(m', root', s, c, RotatedRight(t))
  {
    RightSep(t);
    var x, y, a, b, d := t.x, t.l.x, t.l.l, t.l.r, t.r;
    assert Rep(m, t.l, x, s);
    RepFrame(m, m', a, y, s);
    RepFrame(m, m', d, x, s);
    if b.Nd? { RepReparent(m, m', b, y, x, s); }
    RepCRefill(m, m', c, x, y, root, root', s);
    assert Rep(m', Nd(b, x, t.red, t.key, d), y, s);
  }

  // How the hole of c looks from its child x.
  lemma HoleFacts<N>(m: Mem<N>, root: N, s: N, c: Ctx<N>, t: Tree<N>)
    requires At(m, root, s, c, t) && t.Nd?
    ensures c.Top? <==> root == t.x
    ensures !c.Top? ==> c.x in m && c.x in CNodes(c) && c.x !in TNodes(t) && c.x != s && m[t.x].parent == c.x
    ensures c.InL? ==> m[c.x].left == t.x
    ensures c.InR? ==> m[c.x].right == t.x && m[c.x].left != t.x
  {
    RootOfCtx(m, c, t.x, root, s);
  }

  lemma LeftFacts<N>(m: Mem<N>, root: N, s: N, c: Ctx<N>, t: Tree<N>)
    requires At(m, root, s, c, t) && t.Nd? && t.r.Nd?
    ensures LeftApart(m, s, c, t)
    ensures var x, y, b := t.x, t.r.x, t.r.l; x in m && y in m && (b.Nd? ==> b.x in m) && m[x].right == y && m[y].left == Ptr(b, s)
  {
    assert Rep(m, t.r, t.x, s);
    assert Rep(m, t.r.l, t.r.x, s);
    assert TSep(t.r);
  }

  lemma RightFacts<N>(m: Mem<N>, root: N, s: N, c: Ctx<N>, t: Tree<N>)
    requires At(m, root, s, c, t) && t.Nd? && t.l.Nd?
    ensures RightApart(m, s, c, t)
    ensures var x, y, b := t.x, t.l.x, t.l.r; x in m && y in m && (b.Nd? ==> b.x in m) && m[x].left == y && m[y].right == Ptr(b, s)
  {
    assert Rep(m, t.l, t.x, s);
    assert Rep(m, t.l.r, t.l.x, s);
    assert TSep(t.l);
  }

  // ---- the writes of a rotation, in the order of the source ----

  function WParent<N>(m: Mem<N>, n: N, v: N): Mem<N> {
    if n in m then m[n := m[n].(parent := v)] else m
  }

  function WLeft<N>(m: Mem<N>, n: N, v: N): Mem<N> {
    if n in m then m[n := m[n].(left := v)] else m
  }

  function WRight<N>(m: Mem<N>, n: N, v: N): Mem<N> {
    if n in m then m[n := m[n].(right := v)] else m
  }

  // The writes that make a node a black leaf.
  lemma LeafCell<N>(m: Mem<N>, n: N, s: N, none: N)
    requires n in m
    ensures var m1 := WRight(WLeft(WParent(m, n, none), n, s), n, s);
      n in m1 && m1[n := m1[n].(red := false)] == m[n := Cell(m[n].key, s, s, none, false)]
  {
  }

  ghost function WHole<N>(m: Mem<N>, c: Ctx<N>, v: N): Mem<N> {
    if c.Top? then m else if c.InL? then WLeft(m, c.x, v) else WRight(m, c.x, v)
  }

  ghost function LeftInner<N>(m: Mem<N>, s: N, x: N, y: N, b: N): Mem<N>
    requires x in m
  {
    var m1 := WRight(m, x, b);
    var m2 := if b != s then WParent(m1, b, x) else m1;
    WParent(m2, y, m[x].parent)
  }

  ghost function LeftWrites<N>(m: Mem<N>, s: N, c: Ctx<N>, x: N, y: N, b: N): Mem<N>
    requires x in m
  {
    WParent(WLeft(WHole(LeftInner(m, s, x, y, b), c, y), y, x), x, y)
  }

  // The nodes a left rotation writes are distinct and the subtrees it moves are apart.
  ghost predicate LeftApart<N>(m: Mem<N>, s: N, c: Ctx<N>, t: Tree<N>)
    requires t.Nd? && t.r.Nd?
  {
    var x, y, a, b, d := t.x, t.r.x, t.l, t.r.l, t.r.r;
    && x in m && y in m && x != y && x != s && y != s
    && (b.Nd? ==> b.x in m && b.x != x && b.x != y && b.x != s && b.x in TNodes(b))
    && (!c.Top? ==> c.x in m && c.x in CNodes(c) && c.x !in TNodes(t))
    && x !in CNodes(c) && y !in CNodes(c) && TNodes(b) !! CNodes(c)
    && TNodes(t) == TNodes(a) + {x} + TNodes(b) + {y} + TNodes(d)
    && x !in TNodes(a) && x !in TNodes(b) && x !in TNodes(d) && y !in TNodes(a) && y !in TNodes(b) && y !in TNodes(d)
    && TNodes(a) !! TNodes(b) && TNodes(b) !! TNodes(d)
  }

  lemma LeftWritesEffect<N>(m: Mem<N>, root: N, root': N, s: N, c: Ctx<N>, t: Tree<N>)
    requires t.Nd? && t.r.Nd? && LeftApart(m, s, c, t)
    requires root' == if c.Top? then t.r.x else root
    ensures var m' := LeftWrites(m, s, c, t.x, t.r.x, Ptr(t.r.l, s));
      && m'.Keys == m.Keys
      && LeftRotation(m, m', root, root', s, c, t)
      && Agree(m, m', m.Keys - TNodes(t) - CNodes(c))
  {
    hide TNodes, CNodes;
  }

  // What the reads between the writes of a left rotation see.
  lemma LeftWritesReads<N>(m: Mem<N>, s: N, c: Ctx<N>, t: Tree<N>)
    requires t.Nd? && t.r.Nd? && LeftApart(m, s, c, t)
    ensures var m3 := LeftInner(m, s, t.x, t.r.x, Ptr(t.r.l, s));
      && t.x in m3 && m3[t.x].parent == m[t.x].parent
      && (!c.Top? ==> c.x in m3 && m3[c.x] == m[c.x])
  {
    hide TNodes, CNodes;
  }

  lemma LeftWritesRotate<N>(m: Mem<N>, root: N, root': N, s: N, c: Ctx<N>, t: Tree<N>)
    requires At(m, root, s, c, t) && t.Nd? && t.r.Nd? && t.x in m && t.r.x in m
    requires root' == if c.Top? then t.r.x else root
    ensures var m' := LeftWrites(m, s, c, t.x, t.r.x, Ptr(t.r.l, s));
      && m'.Keys == m.Keys
      && At(m', root', s, c, RotatedLeft(t))
      && Agree(m, m', m.Keys - TNodes(t) - CNodes(c))
  {
    HoleFacts(m, root, s, c, t);
    LeftFacts(m, root, s, c, t);
    LeftWritesEffect(m, root, root', s, c, t);
    LeftRotationAt(m, LeftWrites(m, s, c, t.x, t.r.x, Ptr(t.r.l, s)), root, root', s, c, t);
  }

  ghost function RightInner<N>(m: Mem<N>, s: N, x: N, y: N, b: N): Mem<N>
    requires x in m
  {
    var m1 := WLeft(m, x, b);
    var m2 := if b != s then WParent(m1, b, x) else m1;
    WParent(m2, y, m[x].parent)
  }

  ghost function RightWrites<N>(m: Mem<N>, s: N, c: Ctx<N>, x: N, y: N, b: N): Mem<N>
    requires x in m
  {
    WParent(WRight(WHole(RightInner(m, s, x, y, b), c, y), y, x), x, y)
  }

  // The nodes a right rotation writes are distinct and the subtrees it moves are apart.
  ghost predicate RightApart<N>(m: Mem<N>, s: N, c: Ctx<N>, t: Tree<N>)
    requires t.Nd? && t.l.Nd?
  {
    var x, y, a, b, d := t.x, t.l.x, t.l.l, t.l.r, t.r;
    && x in m && y in m && x != y && x != s && y != s
    && (b.Nd? ==> b.x in m && b.x != x && b.x != y && b.x != s && b.x in TNodes(b))
    && (!c.Top? ==> c.x in m && c.x in CNodes(c) && c.x !in TNodes(t))
    && x !in CNodes(c) && y !in CNodes(c) && TNodes(b) !! CNodes(c)
    && TNodes(t) == TNodes(a) + {x} + TNodes(b) + {y} + TNodes(d)
    && x !in TNodes(a) && x !in TNodes(b) && x !in TNodes(d) && y !in TNodes(a) && y !in TNodes(b) && y !in TNodes(d)
    && TNodes(a) !! TNodes(b) && TNodes(b) !! TNodes(d)
  }

  lemma RightWritesEffect<N>(m: Mem<N>, root: N, root': N, s: N, c: Ctx<N>, t: Tree<N>)
    requires t.Nd? && t.l.Nd? && RightApart(m, s, c, t)
    requires root' == if c.Top? then t.l.x else root
    ensures var m' := RightWrites(m, s, c, t.x, t.l.x, Ptr(t.l.r, s));
      && m'.Keys == m.Keys
      && RightRotation(m, m', root, root', s, c, t)
      && Agree(m, m', m.Keys - TNodes(t) - CNodes(c))
  {
    hide TNodes, CNodes;
  }

  // What the reads between the writes of a right rotation see.
  lemma RightWritesReads<N>(m: Mem<N>, s: N, c: Ctx<N>, t: Tree<N>)
    requires t.Nd? && t.l.Nd? && RightApart(m, s, c, t)
    ensures var m3 := RightInner(m, s, t.x, t.l.x, Ptr(t.l.r, s));
      && t.x in m3 && m3[t.x].parent == m[t.x].parent
      && (!c.Top? ==> c.x in m3 && m3[c.x] == m[c.x])
  {
    hide TNodes, CNodes;
  }

  lemma RightWritesRotate<N>(m: Mem<N>, root: N, root': N, s: N, c: Ctx<N>, t: Tree<N>)
    requires At(m, root, s, c, t) && t.Nd? && t.l.Nd? && t.x in m && t.l.x in m
    requires root' == if c.Top? then t.l.x else root
    ensures var m' := RightWrites(m, s, c, t.x, t.l.x, Ptr(t.l.r, s));
      && m'.Keys == m.Keys
      && At(m', root', s, c, RotatedRight(t))
      && Agree(m, m', m.Keys - TNodes(t) - CNodes(c))
  {
    HoleFacts(m, root, s, c, t);
    RightFacts(m, root, s, c, t);
    RightWritesEffect(m, root, root', s, c, t);
    RightRotationAt(m, RightWrites(m, s, c, t.x, t.l.x, Ptr(t.l.r, s)), root, root', s, c, t);
  }

  // ---- painting ----

  lemma PaintAt<N>(m: Mem<N>, root: N, s: N, c: Ctx<N>, t: Tree<N>, v: bool)
    requires At(m, root, s, c, t) && t.Nd?
    ensures var m' := m[t.x := m[t.x].(red := v)];
      t.x != s && At(m', root, s, c, t.(red := v)) && Agree(m, m', m.Keys - {t.x})
  {
    var m' := m[t.x := m[t.x].(red := v)];
    assert Rep(m, t.l, t.x, s) && Rep(m, t.r, t.x, s);
    RepFrame(m, m', t.l, t.x, s);
    RepFrame(m, m', t.r, t.x, s);
    RepCFrame(m, m', c, t.x, root, s);
  }

  // ---- reading around the position ----

  // A pointer to a subtree tells its colour, the sentinel standing for black.
  lemma PtrFacts<N>(m: Mem<N>, t: Tree<N>, p: N, s: N)
    requires Rep(m, t, p, s) && s in m && !m[s].red
    ensures Ptr(t, s) in m && m[Ptr(t, s)].red == Red(t)
    ensures t.Leaf? <==> Ptr(t, s) == s
  {
  }

  lemma ParentFacts<N>(m: Mem<N>, root: N, s: N, c: Ctx<N>, t: Tree<N>)
    requires At(m, root, s, c, t) && s in m && !m[s].red && !c.Top?
    ensures root != Ptr(t, s)
    ensures c.x in m && m[c.x].red == c.red && c.x != s
    ensures t.Nd? ==> t.x in m && m[t.x].parent == c.x && m[t.x].red == t.red
    ensures m[c.x].left == (if c.InL? then Ptr(t, s) else Ptr(c.sib, s))
    ensures m[c.x].right == (if c.InL? then Ptr(c.sib, s) else Ptr(t, s))
    ensures Ptr(c.sib, s) in m && m[Ptr(c.sib, s)].red == Red(c.sib)
    ensures t.Nd? ==> Ptr(c.sib, s) != t.x
    ensures c.sib.Nd? ==> Ptr(c.sib, s) != Ptr(t, s)
  {
    RootOfCtx(m, c, Ptr(t, s), root, s);
    PtrFacts(m, c.sib, c.x, s);
  }

  // ---- linking a new leaf ----

  lemma {:induction false} TreeInMem<N>(m: Mem<N>, t: Tree<N>, p: N, s: N)
    requires Rep(m, t, p, s)
    ensures TNodes(t) <= m.Keys
  {
    if t.Nd? {
      TreeInMem(m, t.l, t.x, s);
      TreeInMem(m, t.r, t.x, s);
    }
  }

  // The writes that hang a fresh node x where a sentinel was.
  ghost function LeafWrites<N>(m: Mem<N>, s: N, c: Ctx<N>, x: N): Mem<N>
    requires !c.Top? && x in m
  {
    var m1 := WRight(WLeft(WParent(WHole(m, c, x), x, c.x), x, s), x, s);
    m1[x := m1[x].(red := true)]
  }

  function NewLeaf<N>(x: N, red: bool, key: int): Tree<N> {
    Nd(Leaf, x, red, key, Leaf)
  }

  lemma LinkLeaf<N>(m: Mem<N>, root: N, s: N, c: Ctx<N>, x: N)
    requires At(m, root, s, c, Leaf) && !c.Top?
    requires x in m && x != s && x !in CNodes(c)
    ensures At(LeafWrites(m, s, c, x), root, s, c, NewLeaf(x, true, m[x].key))
    ensures LeafWrites(m, s, c, x)[x].key == m[x].key && (s in m ==> LeafWrites(m, s, c, x)[s] == m[s])
  {
    var m' := LeafWrites(m, s, c, x);
    assert c.x != x;
    RepCRefill(m, m', c, s, x, root, root, s);
  }

  // A first node.
  lemma OnlyNode<N>(m: Mem<N>, s: N, x: N, key: int, parent: N)
    requires x in m && x != s && m[x] == Cell(key, s, s, parent, false)
    ensures At(m, x, s, Top, NewLeaf(x, false, key))
  {
    assert TSep(Tree<N>.Leaf) && TNodes(Tree<N>.Leaf) == {};
  }

  // Memory outside the tree may grow.
  lemma AtFrame<N>(m: Mem<N>, m': Mem<N>, root: N, s: N, c: Ctx<N>, t: Tree<N>)
    requires At(m, root, s, c, t) && Agree(m, m', TNodes(t) + CNodes(c))
    ensures At(m', root, s, c, t)
  {
    RepCFrame(m, m', c, Ptr(t, s), root, s);
    if t.Nd? {
      RepFrame(m, m', t, m[t.x].parent, s);
    }
  }

  lemma {:induction false} NodesOfItems<N>(t: Tree<N>)
    ensures TNodes(t) == Nodes(Items(t))
  {
    if t.Nd? {
      NodesOfItems(t.l);
      NodesOfItems(t.r);
      NodesConcat(Items(t.l) + [Item(t.x, t.key)], Items(t.r));
      NodesConcat(Items(t.l), [Item(t.x, t.key)]);
      assert Nodes([Item(t.x, t.key)]) == {t.x};
    }
  }

  lemma {:induction false} NodesOfPlug<N>(c: Ctx<N>, t: Tree<N>)
    ensures TNodes(Plug(c, t)) == TNodes(t) + CNodes(c)
  {
    if !c.Top? {
      NodesOfPlug(c.up, Fill(c, t));
      assert TNodes(Fill(c, t)) == TNodes(t) + {c.x} + TNodes(c.sib);
    }
  }

  // Every item is a node holding its key.
  lemma {:induction false} ItemInMem<N>(m: Mem<N>, t: Tree<N>, p: N, s: N, e: Item<N>)
    requires Rep(m, t, p, s) && e in Items(t)
    ensures e.x in m && m[e.x].key == e.key && e.x != s && e.x in TNodes(t)
  {
    if e in Items(t.l) {
      ItemInMem(m, t.l, t.x, s, e);
    } else if e in Items(t.r) {
      ItemInMem(m, t.r, t.x, s, e);
    }
  }
}

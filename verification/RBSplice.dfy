/** Taking one node out of a red-black tree: splicing out a node that lacks a child, and moving
    the successor into the place of a node that has both. */
module RBSplice {
  import opened RBAlgebra
  import opened RBOrder
  import opened RBMemory

  // Context d inside context e.
  function Comp<N>(e: Ctx<N>, d: Ctx<N>): (r: Ctx<N>)
    ensures r.Top? <==> e.Top? && d.Top?
    ensures !r.Top? ==> r.x == if d.Top? then e.x else d.x
  {
    match d
    case Top => e
    case InL(up, x, red, key, sib) => InL(Comp(e, up), x, red, key, sib)
    case InR(up, x, red, key, sib) => InR(Comp(e, up), x, red, key, sib)
  }

  lemma {:induction false} CompPlug<N>(e: Ctx<N>, d: Ctx<N>, t: Tree<N>)
    ensures Plug(Comp(e, d), t) == Plug(e, Plug(d, t))
  {
    if !d.Top? {
      CompPlug(e, d.up, Fill(d, t));
    }
  }

  lemma {:induction false} CompAround<N>(e: Ctx<N>, d: Ctx<N>)
    ensures Before(Comp(e, d)) == Before(e) + Before(d)
    ensures After(Comp(e, d)) == After(d) + After(e)
  {
    if !d.Top? {
      CompAround(e, d.up);
    }
  }

  // Only left turns: the way to the smallest node.
  predicate LeftSpine<N>(d: Ctx<N>) {
    d.Top? || (d.InL? && LeftSpine(d.up))
  }

  lemma {:induction false} NothingBefore<N>(d: Ctx<N>)
    requires LeftSpine(d)
    ensures Before(d) == []
  {
    if !d.Top? {
      NothingBefore(d.up);
    }
  }

  // The subtree that moves up when the root of t goes.
  function Rest<N>(t: Tree<N>): Tree<N>
    requires t.Nd?
  {
    if t.l.Leaf? then t.r else t.l
  }

  lemma SpliceKeeps<N>(c: Ctx<N>, t: Tree<N>)
    requires RedBlack(Plug(c, t)) && t.Nd? && (t.l.Leaf? || t.r.Leaf?)
    ensures c.Top? ==> ShortAt(Top, Rest(t))
    ensures !c.Top? && t.red ==> RedBlack(Plug(c, Rest(t)))
    ensures !c.Top? && !t.red ==> ShortAt(c, Rest(t))
  {
    hide Plug, RedBlack, Balanced, NoRedRed, BlackHeight, CtxBalanced, CtxNoRedRed, CtxRootBlack, Rest;
    PlugRedBlack(c, t);
    PlugRedBlack(c, Rest(t));
    RestFacts(t);
    EmptyCtx<N>(BlackHeight(Rest(t)) + 1);
  }

  lemma RestFacts<N>(t: Tree<N>)
    requires t.Nd? && (t.l.Leaf? || t.r.Leaf?) && Balanced(t) && NoRedRed(t)
    ensures var r := Rest(t);
      && Balanced(r) && NoRedRed(r) && (r.Nd? ==> NoRedRed(r.l) && NoRedRed(r.r))
      && BlackHeight(t) == BlackHeight(r) + Weight(t.red) && (t.red ==> !Red(r))
  {
  }

  lemma EmptyCtx<N>(b: nat)
    ensures CtxBalanced<N>(Top, b) && CtxNoRedRed<N>(Top) && CtxRootBlack<N>(Top)
  {
  }

  // Colours and heights do not depend on which node stands where.
  ghost predicate SameShape<N>(e: Ctx<N>, e': Ctx<N>) {
    e.InR? && e'.InR? && e.up == e'.up && e.red == e'.red && e.sib == e'.sib
  }

  lemma {:induction false} RenameCtx<N>(e: Ctx<N>, e': Ctx<N>, d: Ctx<N>, b: nat)
    requires SameShape(e, e')
    ensures CtxBalanced(Comp(e, d), b) <==> CtxBalanced(Comp(e', d), b)
    ensures CtxNoRedRed(Comp(e, d)) <==> CtxNoRedRed(Comp(e', d))
    ensures CtxRed(Comp(e, d)) <==> CtxRed(Comp(e', d))
    ensures CtxRootBlack(Comp(e, d)) <==> CtxRootBlack(Comp(e', d))
    decreases d
  {
    if !d.Top? {
      RenameCtx(e, e', d.up, b + Weight(d.red));
    }
  }

  lemma RenameKeeps<N>(e: Ctx<N>, e': Ctx<N>, d: Ctx<N>, t: Tree<N>)
    requires SameShape(e, e')
    ensures RedBlack(Plug(Comp(e, d), t)) <==> RedBlack(Plug(Comp(e', d), t))
    ensures ShortAt(Comp(e, d), t) <==> ShortAt(Comp(e', d), t)
  {
    RenameCtx(e, e', d, BlackHeight(t));
    RenameCtx(e, e', d, BlackHeight(t) + 1);
    PlugRedBlack(Comp(e, d), t);
    PlugRedBlack(Comp(e', d), t);
  }

  // ---- the in-order sequence loses one item ----

  lemma SplicedItems<N>(c: Ctx<N>, t: Tree<N>)
    requires t.Nd? && (t.l.Leaf? || t.r.Leaf?)
    ensures Items(Plug(c, Rest(t))) == (Before(c) + Items(t.l)) + (Items(t.r) + After(c))
  {
    PlugItems(c, Rest(t));
    assert (t.l.Leaf? ==> Items(t.l) == []) && (t.r.Leaf? ==> Items(t.r) == []);
    assert Rest(t) == if t.l.Leaf? then t.r else t.l;
    hide *;
    Regroup(Before(c), Items(t.l), Item(t.x, t.key), Items(t.r), After(c));
  }

  lemma RegroupRight<T>(p: seq<T>, e: T, u: seq<T>, d: seq<T>, a: seq<T>)
    ensures (p + [e] + []) + u + (d + a) == p + (([] + ([] + [e] + u) + d) + a)
  {
  }

  // The smallest item of a tree and what follows it.
  lemma MinItems<N>(d: Ctx<N>, u: Tree<N>)
    requires LeftSpine(d) && u.Nd? && u.l.Leaf?
    ensures Items(Plug(d, u)) == [] + ([] + [Item(u.x, u.key)] + Items(u.r)) + After(d)
  {
    PlugItems(d, u);
    NothingBefore(d);
    assert Items(u) == Items(u.l) + [Item(u.x, u.key)] + Items(u.r) && Items(u.l) == [];
  }

  lemma ReplacedItems<N>(c: Ctx<N>, t: Tree<N>, d: Ctx<N>, u: Tree<N>)
    requires t.Nd? && LeftSpine(d) && u.Nd? && u.l.Leaf? && t.r == Plug(d, u)
    ensures Items(Plug(Comp(InR(c, u.x, t.red, u.key, t.l), d), u.r)) == (Before(c) + Items(t.l)) + (Items(t.r) + After(c))
  {
    var e, i := InR(c, u.x, t.red, u.key, t.l), Item(u.x, u.key);
    assert Before(e) == Before(c) + Items(t.l) + [i] && After(e) == After(c);
    hide *;
    MinItems(d, u);
    NothingBefore(d);
    CompAround(e, d);
    PlugItems(Comp(e, d), u.r);
    RegroupRight(Before(c) + Items(t.l), i, Items(u.r), After(d), After(c));
  }

  // ---- positions ----

  lemma {:induction false} UpAll<N>(m: Mem<N>, root: N, s: N, e: Ctx<N>, d: Ctx<N>, t: Tree<N>)
    requires At(m, root, s, Comp(e, d), t)
    ensures At(m, root, s, e, Plug(d, t))
    decreases d
  {
    hide At;
    if !d.Top? {
      UpAt(m, root, s, Comp(e, d), t);
      UpAll(m, root, s, e, d.up, Fill(d, t));
    }
  }

  lemma {:induction false} DownAll<N>(m: Mem<N>, root: N, s: N, e: Ctx<N>, d: Ctx<N>, t: Tree<N>)
    requires At(m, root, s, e, Plug(d, t))
    ensures At(m, root, s, Comp(e, d), t)
    decreases d
  {
    hide At;
    if !d.Top? {
      DownAll(m, root, s, e, d.up, Fill(d, t));
      DownAt(m, root, s, Comp(e, d.up), Fill(d, t));
    }
  }

  // ---- splicing ----

  ghost function SpliceWrites<N>(m: Mem<N>, s: N, c: Ctx<N>, t: Tree<N>, q: N): Mem<N>
    requires t.Nd?
  {
    WParent(WHole(m, c, Ptr(Rest(t), s)), Ptr(Rest(t), s), q)
  }

  lemma SpliceAt<N>(m: Mem<N>, root: N, s: N, c: Ctx<N>, t: Tree<N>)
    requires At(m, root, s, c, t) && t.Nd? && (t.l.Leaf? || t.r.Leaf?) && !c.Top? && s in m
    ensures var m' := SpliceWrites(m, s, c, t, c.x);
      At(m', root, s, c, Rest(t)) && m'[Ptr(Rest(t), s)].parent == c.x && m'[s].red == m[s].red && m'.Keys == m.Keys
  {
    var m', r := SpliceWrites(m, s, c, t, c.x), Rest(t);
    assert c.x in CNodes(c) && TNodes(r) <= TNodes(t);
    RepCRefill(m, m', c, t.x, Ptr(r, s), root, root, s);
    if r.Nd? {
      RepReparent(m, m', r, t.x, c.x, s);
    }
  }

  // ---- moving a node into the place of another ----

  function Replaced<N>(t: Tree<N>, y: N, key: int): Tree<N>
    requires t.Nd?
  {
    Nd(t.l, y, t.red, key, t.r)
  }

  // The child a now hangs below y.
  ghost predicate Rehung<N>(m: Mem<N>, m': Mem<N>, a: Tree<N>, y: N) {
    a.Nd? ==> a.x in m && a.x in m' && m'[a.x] == m[a.x].(parent := y) && Agree(m, m', TNodes(a) - {a.x})
  }

  ghost predicate Replacement<N>(m: Mem<N>, m': Mem<N>, root: N, root': N, s: N, c: Ctx<N>, t: Tree<N>, y: N)
    requires t.Nd?
  {
    && t.x in m && y in m && y in m'
    && m'[y] == Cell(m[y].key, Ptr(t.l, s), Ptr(t.r, s), m[t.x].parent, t.red)
    && Rehung(m, m', t.l, y) && Rehung(m, m', t.r, y)
    && Refilled(m, m', root, root', c, y)
  }

  lemma ReplaceAt<N>(m: Mem<N>, m': Mem<N>, root: N, root': N, s: N, c: Ctx<N>, t: Tree<N>, y: N)
    requires At(m, root, s, c, t) && t.Nd? && y !in TNodes(t) + CNodes(c) && y != s
    requires Replacement(m, m', root, root', s, c, t, y)
    ensures At(m', root', s, c, Replaced(t, y, m[y].key))
  {
    if t.l.Nd? {
      RepReparent(m, m', t.l, t.x, y, s);
    }
    if t.r.Nd? {
      RepReparent(m, m', t.r, t.x, y, s);
    }
    RepCRefill(m, m', c, t.x, y, root, root', s);
  }

  ghost function CopyWrites<N>(m: Mem<N>, x: N, y: N): Mem<N>
    requires x in m && y in m
  {
    var m1 := WParent(WRight(WLeft(m, y, m[x].left), y, m[x].right), y, m[x].parent);
    m1[y := m1[y].(red := m[x].red)]
  }

  ghost function ReplaceWrites<N>(m: Mem<N>, s: N, c: Ctx<N>, x: N, y: N): Mem<N>
    requires x in m && y in m
  {
    var m1 := WHole(CopyWrites(m, x, y), c, y);
    var m2 := if m[x].left != s then WParent(m1, m[x].left, y) else m1;
    if m[x].right != s then WParent(m2, m[x].right, y) else m2
  }

  // The nodes a replacement writes are distinct and the subtrees it rehangs are apart.
  ghost predicate ReplaceApart<N>(m: Mem<N>, s: N, c: Ctx<N>, t: Tree<N>, y: N)
    requires t.Nd?
  {
    var x, a, b := t.x, t.l, t.r;
    && x in m && y in m && s in m && x != y && x != s && y != s
    && m[x].left == Ptr(a, s) && m[x].right == Ptr(b, s) && m[x].red == t.red
    && (a.Nd? ==> a.x in m && a.x != s && a.x in TNodes(a) && a.x !in TNodes(b))
    && (b.Nd? ==> b.x in m && b.x != s && b.x in TNodes(b) && b.x !in TNodes(a))
    && (!c.Top? ==> c.x in m && c.x in CNodes(c) && c.x !in TNodes(a) && c.x !in TNodes(b) && c.x != s)
    && s !in TNodes(a) && s !in TNodes(b) && s !in CNodes(c)
    && x !in CNodes(c) && y !in CNodes(c) && TNodes(a) !! CNodes(c) && TNodes(b) !! CNodes(c)
    && x !in TNodes(a) && x !in TNodes(b) && y !in TNodes(a) && y !in TNodes(b) && TNodes(a) !! TNodes(b)
  }

  lemma ReplaceFacts<N>(m: Mem<N>, root: N, s: N, c: Ctx<N>, t: Tree<N>, y: N)
    requires At(m, root, s, c, t) && t.Nd? && y !in TNodes(t) + CNodes(c) && y != s && y in m && s in m
    ensures ReplaceApart(m, s, c, t, y)
  {
    assert Rep(m, t.l, t.x, s) && Rep(m, t.r, t.x, s);
  }

  // m0 and m differ at most in the parent of t's right child.
  ghost predicate ButParent<N>(m0: Mem<N>, m: Mem<N>, n: N) {
    m0.Keys == m.Keys && forall k :: k in m0 ==> m[k] == m0[k] || (k == n && m[k] == m0[k].(parent := m[k].parent))
  }

  // The memory a replacement leaves, node by node.
  lemma ReplaceForm<N>(m: Mem<N>, s: N, c: Ctx<N>, x: N, y: N, l: N, r: N)
    requires x in m && y in m && l in m && r in m && s in m && m[x].left == l && m[x].right == r
    requires x != y && x != s && y != s && l != x && l != y && r != x && r != y && (l != s ==> l != r)
    requires !c.Top? ==> c.x in m && c.x != x && c.x != y && c.x != l && c.x != r && c.x != s
    ensures var m' := ReplaceWrites(m, s, c, x, y);
      && m'.Keys == m.Keys && m'[y] == Cell(m[y].key, l, r, m[x].parent, m[x].red)
      && (l != s ==> m'[l] == m[l].(parent := y)) && (r != s ==> m'[r] == m[r].(parent := y))
      && (!c.Top? ==> m'[c.x] == if c.InL? then m[c.x].(left := y) else m[c.x].(right := y))
      && forall k :: k in m && k != y && (k == s || (k != l && k != r)) && (c.Top? || k != c.x) ==> m'[k] == m[k]
  {
    assert CopyWrites(m, x, y) == m[y := Cell(m[y].key, l, r, m[x].parent, m[x].red)];
  }

  lemma ReplaceEffect<N>(m0: Mem<N>, m: Mem<N>, root: N, root': N, s: N, c: Ctx<N>, t: Tree<N>, y: N)
    requires t.Nd? && ReplaceApart(m0, s, c, t, y) && ButParent(m0, m, Ptr(t.r, s))
    requires root' == if c.Top? then y else root
    ensures var m' := ReplaceWrites(m, s, c, t.x, y);
      && Replacement(m0, m', root, root', s, c, t, y)
      && m'[s] == m[s] && m'.Keys == m.Keys && m'[y].key == m0[y].key
  {
    hide TNodes, CNodes, ReplaceWrites;
    ReplaceForm(m, s, c, t.x, y, Ptr(t.l, s), Ptr(t.r, s));
  }

  // Stage one: the successor u.x, found along d, is out of the tree and apart from it.
  lemma SuccessorOut<N>(m: Mem<N>, root: N, s: N, e: Ctx<N>, d: Ctx<N>, u: Tree<N>)
    requires e.InR? && u.Nd? && u.l.Leaf? && s in m && At(m, root, s, Comp(e, d), u)
    ensures var m0 := SpliceWrites(m, s, Comp(e, d), u, Comp(e, d).x);
      && m0.Keys == m.Keys && m0[s].red == m[s].red
      && At(m0, root, s, e.up, Fill(e, Plug(d, u.r)))
      && u.x in m0 && m0[u.x].key == u.key && ReplaceApart(m0, s, e.up, Fill(e, Plug(d, u.r)), u.x)
  {
    var m0, b := SpliceWrites(m, s, Comp(e, d), u, Comp(e, d).x), Plug(d, u.r);
    OutOfTree(m, root, s, e, d, u);
    hide *;
    SpliceAt(m, root, s, Comp(e, d), u);
    UpAll(m0, root, s, e, d, u.r);
    UpAt(m0, root, s, e, b);
    assert Fill(e, b) == Nd(e.sib, e.x, e.red, e.key, b) by { FillR(e, b); }
    ReplaceFacts(m0, root, s, e.up, Fill(e, b), u.x);
  }

  lemma FillR<N>(e: Ctx<N>, b: Tree<N>)
    requires e.InR?
    ensures Fill(e, b) == Nd(e.sib, e.x, e.red, e.key, b)
  {
  }

  lemma OutOfTree<N>(m: Mem<N>, root: N, s: N, e: Ctx<N>, d: Ctx<N>, u: Tree<N>)
    requires e.InR? && u.Nd? && u.l.Leaf? && At(m, root, s, Comp(e, d), u)
    ensures u.x !in TNodes(Fill(e, Plug(d, u.r))) + CNodes(e.up) && u.x != s
    ensures u.x in m && SpliceWrites(m, s, Comp(e, d), u, Comp(e, d).x)[u.x] == m[u.x] && m[u.x].key == u.key
    ensures Rest(u) == u.r
  {
    NodesOfPlug(Comp(e, d), u.r);
    CompPlug(e, d, u.r);
    NodesOfPlug(e, Plug(d, u.r));
    assert Comp(e, d).x in CNodes(Comp(e, d));
  }

  // The parent the source gives the spliced-in subtree: the successor itself when it hung
  // directly below the node it replaces.
  function NewParent<N>(e: Ctx<N>, d: Ctx<N>, u: Tree<N>): N
    requires !e.Top? && u.Nd?
  {
    if d.Top? then u.x else d.x
  }

  lemma SpliceParents<N>(m: Mem<N>, s: N, e: Ctx<N>, d: Ctx<N>, u: Tree<N>)
    requires e.InR? && u.Nd? && u.l.Leaf? && s in m && Ptr(u.r, s) in m
    ensures var m0, m2 := SpliceWrites(m, s, Comp(e, d), u, Comp(e, d).x), SpliceWrites(m, s, Comp(e, d), u, NewParent(e, d, u));
      && ButParent(m0, m2, Ptr(Plug(d, u.r), s))
      && Ptr(u.r, s) in m2 && m2[Ptr(u.r, s)].parent == NewParent(e, d, u) && (s in m0 && s in m2 ==> m2[s].red == m0[s].red)
  {
  }

  // Stage two: the successor stands where e.x was.
  lemma SuccessorIn<N>(m: Mem<N>, root: N, root': N, s: N, e: Ctx<N>, d: Ctx<N>, u: Tree<N>)
    requires e.InR? && u.Nd? && u.l.Leaf? && s in m && At(m, root, s, Comp(e, d), u)
    requires root' == if e.up.Top? then u.x else root
    ensures var m2 := SpliceWrites(m, s, Comp(e, d), u, NewParent(e, d, u));
      && m2.Keys == m.Keys && e.x in m2 && u.x in m2
      && var m' := ReplaceWrites(m2, s, e.up, e.x, u.x);
      && m'.Keys == m.Keys && m'[s] == m2[s] && m2[s].red == m[s].red
      && (u.r.Leaf? ==> m2[s].parent == NewParent(e, d, u))
      && At(m', root', s, Comp(InR(e.up, u.x, e.red, u.key, e.sib), d), u.r)
  {
    var m0, m2 := SpliceWrites(m, s, Comp(e, d), u, Comp(e, d).x), SpliceWrites(m, s, Comp(e, d), u, NewParent(e, d, u));
    var t0 := Nd(e.sib, e.x, e.red, e.key, Plug(d, u.r));
    assert Ptr(u.r, s) in m by { assert Rep(m, u.r, u.x, s); }
    SpliceParents(m, s, e, d, u);
    SuccessorOut(m, root, s, e, d, u);
    hide *;
    FillR(e, Plug(d, u.r));
    ReplaceEffect(m0, m2, root, root', s, e.up, t0, u.x);
    var m' := ReplaceWrites(m2, s, e.up, e.x, u.x);
    ReplaceAt(m0, m', root, root', s, e.up, t0, u.x);
    DownAt(m', root', s, e.up, Replaced(t0, u.x, u.key));
    DownAll(m', root', s, InR(e.up, u.x, e.red, u.key, e.sib), d, u.r);
  }

  // What the replacement reads after the splice.
  lemma SuccessorReads<N>(m: Mem<N>, root: N, s: N, e: Ctx<N>, d: Ctx<N>, u: Tree<N>)
    requires e.InR? && u.Nd? && u.l.Leaf? && s in m && At(m, root, s, Comp(e, d), u)
    ensures var m2, c := SpliceWrites(m, s, Comp(e, d), u, NewParent(e, d, u)), e.up;
      && e.x in m2 && u.x in m2 && e.x != u.x && m2[e.x].left in m2 && m2[e.x].right in m2
      && (c.Top? <==> root == e.x)
      && (!c.Top? ==> c.x in m2 && c.x != u.x && c.x != e.x && m2[e.x].parent == c.x)
      && (c.InL? ==> m2[c.x].left == e.x) && (c.InR? ==> m2[c.x].left != e.x)
    ensures Comp(e, d).x == e.x <==> d.Top?
  {
    var m0, t0 := SpliceWrites(m, s, Comp(e, d), u, Comp(e, d).x), Nd(e.sib, e.x, e.red, e.key, Plug(d, u.r));
    assert Ptr(u.r, s) in m by { assert Rep(m, u.r, u.x, s); }
    SpliceParents(m, s, e, d, u);
    SuccessorOut(m, root, s, e, d, u);
    SpinePlace(m, root, s, e, d, u);
    hide SpliceWrites, At, TNodes, CNodes, Comp, Plug, TSep, CSep, Rep, RepC;
    FillR(e, Plug(d, u.r));
    HoleFacts(m0, root, s, e.up, t0);
  }

  lemma SpinePlace<N>(m: Mem<N>, root: N, s: N, e: Ctx<N>, d: Ctx<N>, u: Tree<N>)
    requires e.InR? && At(m, root, s, Comp(e, d), u)
    ensures Comp(e, d).x == e.x <==> d.Top?
  {
    if !d.Top? {
      UpAll(m, root, s, e, d, u);
      NodesOfPlug(d, u);
      assert d.x in CNodes(d) && e.x in CNodes(e);
    }
  }

  // ---- the choice rbtree_delete makes ----

  // (cs, us) is where the node to unlink stands: the node itself if it lacks a child, its
  // successor otherwise.
  ghost predicate Chosen<N>(c: Ctx<N>, t: Tree<N>, cs: Ctx<N>, us: Tree<N>, d: Ctx<N>)
    requires t.Nd? && us.Nd?
  {
    if us.x == t.x then cs == c && us == t && (t.l.Leaf? || t.r.Leaf?)
    else t.l.Nd? && LeftSpine(d) && cs == Comp(InR(c, t.x, t.red, t.key, t.l), d) && t.r == Plug(d, us) && us.l.Leaf?
  }

  // The context that remains around Rest(us).
  function Remaining<N(==)>(c: Ctx<N>, t: Tree<N>, us: Tree<N>, d: Ctx<N>): Ctx<N>
    requires t.Nd? && us.Nd?
  {
    if us.x == t.x then c else Comp(InR(c, us.x, t.red, us.key, t.l), d)
  }

  lemma ChosenPlug<N>(c: Ctx<N>, t: Tree<N>, cs: Ctx<N>, us: Tree<N>, d: Ctx<N>)
    requires t.Nd? && us.Nd? && Chosen(c, t, cs, us, d)
    ensures Plug(cs, us) == Plug(c, t)
  {
    if us.x != t.x {
      CompPlug(InR(c, t.x, t.red, t.key, t.l), d, us);
    }
  }

  /** Deleting t.x from a red-black tree: the item goes, and what is left is red-black if the
      unlinked node was red, else one black node short at the place of Rest(us). */
  lemma DeletePlan<N>(c: Ctx<N>, t: Tree<N>, cs: Ctx<N>, us: Tree<N>, d: Ctx<N>)
    requires t.Nd? && us.Nd? && RedBlack(Plug(c, t)) && Chosen(c, t, cs, us, d)
    ensures Items(Plug(c, t)) == (Before(c) + Items(t.l)) + [Item(t.x, t.key)] + (Items(t.r) + After(c))
    ensures Items(Plug(Remaining(c, t, us, d), Rest(us))) == (Before(c) + Items(t.l)) + (Items(t.r) + After(c))
    ensures cs.Top? ==> ShortAt(Top, Rest(us)) && Remaining(c, t, us, d) == Top
    ensures !cs.Top? && us.red ==> RedBlack(Plug(Remaining(c, t, us, d), Rest(us)))
    ensures !cs.Top? && !us.red ==> ShortAt(Remaining(c, t, us, d), Rest(us))
  {
    ItemsAround(c, t);
    ChosenPlug(c, t, cs, us, d);
    SpliceKeeps(cs, us);
    if us.x == t.x {
      SplicedItems(c, t);
    } else {
      ReplacedItems(c, t, d, us);
      RenameKeeps(InR(c, t.x, t.red, t.key, t.l), InR(c, us.x, t.red, us.key, t.l), d, Rest(us));
    }
  }

  // ---- every node occurs once ----

  ghost predicate Distinct<N>(s: seq<Item<N>>) {
    forall i, j :: 0 <= i < j < |s| ==> s[i].x != s[j].x
  }

  lemma {:induction false} DistinctItems<N>(t: Tree<N>)
    requires TSep(t)
    ensures Distinct(Items(t))
  {
    if t.Nd? {
      DistinctItems(t.l);
      DistinctItems(t.r);
      NodesOfItems(t.l);
      NodesOfItems(t.r);
      JoinDistinct(Items(t.l), Item(t.x, t.key), Items(t.r));
    }
  }

  lemma JoinDistinct<N>(a: seq<Item<N>>, e: Item<N>, b: seq<Item<N>>)
    requires Distinct(a) && Distinct(b) && Nodes(a) !! Nodes(b) && e.x !in Nodes(a) && e.x !in Nodes(b)
    ensures Distinct(a + [e] + b)
  {
    assert forall i :: 0 <= i < |a| ==> a[i].x in Nodes(a);
    assert forall i :: 0 <= i < |b| ==> b[i].x in Nodes(b);
  }

  lemma GoneFrom<N>(a: seq<Item<N>>, e: Item<N>, b: seq<Item<N>>)
    requires Distinct(a + [e] + b)
    ensures e.x !in Nodes(a + b)
  {
    var s := a + [e] + b;
    forall i | 0 <= i < |a + b|
      ensures (a + b)[i].x != e.x
    {
      assert s[|a|] == e && (a + b)[i] == s[if i < |a| then i else i + 1];
    }
  }
}

/** Red-black trees as values, with contexts (a tree with one subtree missing), and the laws
    the pointer code of src/core/dfs_rbtree.c rests on. N is the type of node references. */
module RBAlgebra {
  import opened Log2

  datatype Tree<N> = Leaf | Nd(l: Tree<N>, x: N, red: bool, key: int, r: Tree<N>)

  // InL: the hole is the left child of x and sib its right subtree; InR the other way round.
  datatype Ctx<N> =
    | Top
    | InL(up: Ctx<N>, x: N, red: bool, key: int, sib: Tree<N>)
    | InR(up: Ctx<N>, x: N, red: bool, key: int, sib: Tree<N>)

  datatype Item<N> = Item(x: N, key: int)

  function Plug<N>(c: Ctx<N>, t: Tree<N>): Tree<N> {
    match c
    case Top => t
    case InL(up, x, red, key, sib) => Plug(up, Nd(t, x, red, key, sib))
    case InR(up, x, red, key, sib) => Plug(up, Nd(sib, x, red, key, t))
  }

  function Items<N>(t: Tree<N>): seq<Item<N>> {
    match t
    case Leaf => []
    case Nd(l, x, _, key, r) => Items(l) + [Item(x, key)] + Items(r)
  }

  // Items to the left and to the right of the hole.
  function Before<N>(c: Ctx<N>): seq<Item<N>> {
    match c
    case Top => []
    case InL(up, _, _, _, _) => Before(up)
    case InR(up, x, _, key, sib) => Before(up) + Items(sib) + [Item(x, key)]
  }

  function After<N>(c: Ctx<N>): seq<Item<N>> {
    match c
    case Top => []
    case InL(up, x, _, key, sib) => [Item(x, key)] + Items(sib) + After(up)
    case InR(up, _, _, _, _) => After(up)
  }

  predicate Red<N>(t: Tree<N>) {
    t.Nd? && t.red
  }

  predicate CtxRed<N>(c: Ctx<N>) {
    !c.Top? && c.red
  }

  function BlackHeight<N>(t: Tree<N>): nat {
    if t.Leaf? then 0 else BlackHeight(t.l) + Weight(t.red)
  }

  function Weight(red: bool): nat {
    if red then 0 else 1
  }

  /** Every path below a node meets the same number of black nodes. */
  ghost predicate Balanced<N>(t: Tree<N>) {
    t.Leaf? || (Balanced(t.l) && Balanced(t.r) && BlackHeight(t.l) == BlackHeight(t.r))
  }

  /** No red node has a red child. */
  ghost predicate NoRedRed<N>(t: Tree<N>) {
    t.Leaf? || (NoRedRed(t.l) && NoRedRed(t.r) && (t.red ==> !Red(t.l) && !Red(t.r)))
  }

  ghost predicate RedBlack<N>(t: Tree<N>) {
    Balanced(t) && NoRedRed(t) && !Red(t)
  }

  // The context is balanced around a hole of black height b.
  ghost predicate CtxBalanced<N>(c: Ctx<N>, b: nat) {
    c.Top? || (Balanced(c.sib) && BlackHeight(c.sib) == b && CtxBalanced(c.up, b + Weight(c.red)))
  }

  // No two red nodes in a row inside the context; the hole is not looked at.
  ghost predicate CtxNoRedRed<N>(c: Ctx<N>) {
    c.Top? || (NoRedRed(c.sib) && (c.red ==> !Red(c.sib) && !CtxRed(c.up)) && CtxNoRedRed(c.up))
  }

  // The root end of the context is black.
  ghost predicate CtxRootBlack<N>(c: Ctx<N>) {
    c.Top? || (if c.up.Top? then !c.red else CtxRootBlack(c.up))
  }

  lemma {:induction false} PlugItems<N>(c: Ctx<N>, t: Tree<N>)
    ensures Items(Plug(c, t)) == Before(c) + Items(t) + After(c)
  {
    match c
    case Top =>
    case InL(up, x, red, key, sib) =>
      PlugItems(up, Nd(t, x, red, key, sib));
      RegroupL(Before(up), Items(t), Item(x, key), Items(sib), After(up));
    case InR(up, x, red, key, sib) =>
      PlugItems(up, Nd(sib, x, red, key, t));
      RegroupR(Before(up), Items(sib), Item(x, key), Items(t), After(up));
  }

  lemma RegroupL<T>(a: seq<T>, l: seq<T>, e: T, r: seq<T>, b: seq<T>)
    ensures a + (l + [e] + r) + b == a + l + ([e] + r + b)
  {
  }

  lemma RegroupR<T>(a: seq<T>, l: seq<T>, e: T, r: seq<T>, b: seq<T>)
    ensures a + (l + [e] + r) + b == (a + l + [e]) + r + b
  {
  }

  lemma {:induction false} PlugBalanced<N>(c: Ctx<N>, t: Tree<N>)
    ensures Balanced(Plug(c, t)) <==> Balanced(t) && CtxBalanced(c, BlackHeight(t))
  {
    match c
    case Top =>
    case InL(up, x, red, key, sib) => PlugBalanced(up, Nd(t, x, red, key, sib));
    case InR(up, x, red, key, sib) => PlugBalanced(up, Nd(sib, x, red, key, t));
  }

  lemma {:induction false} PlugNoRedRed<N>(c: Ctx<N>, t: Tree<N>)
    ensures NoRedRed(Plug(c, t)) <==> NoRedRed(t) && CtxNoRedRed(c) && !(Red(t) && CtxRed(c))
  {
    match c
    case Top =>
    case InL(up, x, red, key, sib) => PlugNoRedRed(up, Nd(t, x, red, key, sib));
    case InR(up, x, red, key, sib) => PlugNoRedRed(up, Nd(sib, x, red, key, t));
  }

  lemma {:induction false} PlugRed<N>(c: Ctx<N>, t: Tree<N>)
    ensures !Red(Plug(c, t)) <==> (if c.Top? then !Red(t) else CtxRootBlack(c))
  {
    match c
    case Top =>
    case InL(up, x, red, key, sib) => PlugRed(up, Nd(t, x, red, key, sib));
    case InR(up, x, red, key, sib) => PlugRed(up, Nd(sib, x, red, key, t));
  }

  lemma PlugRedBlack<N>(c: Ctx<N>, t: Tree<N>)
    ensures RedBlack(Plug(c, t)) <==>
      && Balanced(t) && CtxBalanced(c, BlackHeight(t))
      && NoRedRed(t) && CtxNoRedRed(c) && !(Red(t) && CtxRed(c))
      && (if c.Top? then !Red(t) else CtxRootBlack(c))
  {
    PlugBalanced(c, t);
    PlugNoRedRed(c, t);
    PlugRed(c, t);
  }

  // ---- the invariant of the insertion loop ----

  /** The tree is red-black except that the red cursor node may sit under a red parent. */
  ghost predicate RedRedAt<N>(c: Ctx<N>, t: Tree<N>) {
    && Red(t) && Balanced(t) && NoRedRed(t)
    && CtxBalanced(c, BlackHeight(t)) && CtxNoRedRed(c) && CtxRootBlack(c)
  }

  // A red leaf may be hung anywhere before rebalancing.
  lemma HangRed<N>(c: Ctx<N>, x: N, key: int)
    requires RedBlack(Plug(c, Leaf)) && !c.Top?
    ensures RedRedAt(c, Nd(Leaf, x, true, key, Leaf))
  {
    PlugRedBlack(c, Leaf);
  }

  lemma FirstNode<N>(x: N, key: int)
    ensures RedBlack(Nd(Leaf, x, false, key, Leaf))
  {
    assert Balanced<N>(Leaf) && NoRedRed<N>(Leaf) && BlackHeight<N>(Leaf) == 0;
  }

  // The loop's guard failing leaves a red-black tree once the root is painted black.
  lemma InsertDone<N>(c: Ctx<N>, t: Tree<N>)
    requires RedRedAt(c, t) && !CtxRed(c)
    ensures !c.Top? ==> RedBlack(Plug(c, t))
    ensures c.Top? ==> RedBlack(t.(red := false))
  {
    PlugRedBlack(c, t);
  }

  // A red parent is not the root, so there is a grandparent, and it is black.
  lemma RedParentHasGrandparent<N>(c: Ctx<N>, t: Tree<N>)
    requires RedRedAt(c, t) && CtxRed(c)
    ensures !c.up.Top? && !c.up.red && !Red(c.sib)
  {
  }

  // ---- the invariant of the deletion loop ----

  /** The tree is red-black except that the cursor subtree is one black node short, and that
      its root, if red, may have a red neighbour. */
  ghost predicate ShortAt<N>(c: Ctx<N>, t: Tree<N>) {
    && Balanced(t) && (t.Nd? ==> NoRedRed(t.l) && NoRedRed(t.r))
    && CtxBalanced(c, BlackHeight(t) + 1) && CtxNoRedRed(c) && CtxRootBlack(c)
  }

  // Leaving the loop: the cursor is red or the root, and is painted black.
  lemma DeleteDone<N>(c: Ctx<N>, t: Tree<N>)
    requires ShortAt(c, t) && (c.Top? || Red(t))
    ensures t.Nd? ==> RedBlack(Plug(c, t.(red := false))) && Items(Plug(c, t.(red := false))) == Items(Plug(c, t))
    ensures t.Leaf? ==> RedBlack(Plug(c, t))
  {
    if t.Nd? {
      Repaint(t, false);
      PlugRedBlack(c, t.(red := false));
      SameItems(c, t, t.(red := false));
    }
  }

  // The sibling of a short subtree is a real node.
  lemma ShortHasSibling<N>(c: Ctx<N>, t: Tree<N>)
    requires ShortAt(c, t) && !c.Top?
    ensures c.sib.Nd?
    ensures c.sib.red ==> c.sib.l.Nd? && c.sib.r.Nd? && !c.sib.l.red && !c.sib.r.red && !c.red
  {
  }

  // ---- one level of a context ----

  function Fill<N>(c: Ctx<N>, t: Tree<N>): Tree<N>
    requires !c.Top?
  {
    if c.InL? then Nd(t, c.x, c.red, c.key, c.sib) else Nd(c.sib, c.x, c.red, c.key, t)
  }

  function WithSib<N>(c: Ctx<N>, w: Tree<N>): Ctx<N>
    requires !c.Top?
  {
    c.(sib := w)
  }

  // The context around the sibling of a hole filled with t.
  function Other<N>(c: Ctx<N>, t: Tree<N>): Ctx<N>
    requires !c.Top?
  {
    if c.InL? then InR(c.up, c.x, c.red, c.key, t) else InL(c.up, c.x, c.red, c.key, t)
  }

  // Trees with the same items may replace each other inside any context.
  lemma SameItems<N>(c: Ctx<N>, t: Tree<N>, t': Tree<N>)
    requires Items(t) == Items(t')
    ensures Items(Plug(c, t)) == Items(Plug(c, t'))
  {
    PlugItems(c, t);
    PlugItems(c, t');
  }

  lemma Repaint<N>(t: Tree<N>, v: bool)
    requires t.Nd?
    ensures Balanced(t.(red := v)) <==> Balanced(t)
    ensures BlackHeight(t.(red := v)) == BlackHeight(t.l) + Weight(v)
    ensures NoRedRed(t) && (v ==> !Red(t.l) && !Red(t.r)) ==> NoRedRed(t.(red := v))
    ensures Items(t.(red := v)) == Items(t)
  {
  }

  // ---- insertion: the cases of rbtree_insert ----

  // Red uncle: parent and uncle turn black, the grandparent red.
  function UncleRed<N>(c: Ctx<N>, t: Tree<N>): Tree<N>
    requires !c.Top? && !c.up.Top? && c.up.sib.Nd?
  {
    Fill(c.up.(red := true, sib := c.up.sib.(red := false)), Fill(c.(red := false), t))
  }

  lemma UncleRedKeeps<N>(c: Ctx<N>, t: Tree<N>)
    requires RedRedAt(c, t) && CtxRed(c) && !c.up.Top? && Red(c.up.sib)
    ensures RedRedAt(c.up.up, UncleRed(c, t))
    ensures Items(Plug(c.up.up, UncleRed(c, t))) == Items(Plug(c, t))
    ensures InsertRank(c.up.up) < InsertRank(c)
  {
    assert Depth(c.up) == 1 + Depth(c.up.up);
    var g, g' := Fill(c.up, Fill(c, t)), UncleRed(c, t);
    assert Plug(c, t) == Plug(c.up, Fill(c, t)) == Plug(c.up.up, g);
    assert Balanced(Fill(c.(red := false), t)) && NoRedRed(Fill(c.(red := false), t));
    assert CtxBalanced(c.up, BlackHeight(Fill(c, t))) && CtxNoRedRed(c.up) && CtxRootBlack(c.up);
    Repaint(c.up.sib, false);
    SameItems(c.up.up, g, g');
  }

  // Cursor and parent on different sides: a rotation at the parent lines them up.
  function InnerCtx<N>(c: Ctx<N>, t: Tree<N>): Ctx<N>
    requires !c.Top? && t.Nd?
  {
    if c.InR? then InL(c.up, t.x, t.red, t.key, t.r) else InR(c.up, t.x, t.red, t.key, t.l)
  }

  function InnerTree<N>(c: Ctx<N>, t: Tree<N>): Tree<N>
    requires !c.Top? && t.Nd?
  {
    if c.InR? then Nd(c.sib, c.x, c.red, c.key, t.l) else Nd(t.r, c.x, c.red, c.key, c.sib)
  }

  lemma InnerKeeps<N>(c: Ctx<N>, t: Tree<N>)
    requires RedRedAt(c, t) && CtxRed(c) && !c.up.Top?
    ensures RedRedAt(InnerCtx(c, t), InnerTree(c, t)) && CtxRed(InnerCtx(c, t))
    ensures Items(Plug(InnerCtx(c, t), InnerTree(c, t))) == Items(Plug(c, t))
  {
    SameItems(c.up, Fill(c, t), Fill(InnerCtx(c, t), InnerTree(c, t)));
  }

  // Black uncle, cursor and parent on the same side: recolour and rotate at the grandparent.
  function OuterCtx<N>(c: Ctx<N>): Ctx<N>
    requires !c.Top? && !c.up.Top?
  {
    if c.InL? then InL(c.up.up, c.x, false, c.key, Nd(c.sib, c.up.x, true, c.up.key, c.up.sib))
    else InR(c.up.up, c.x, false, c.key, Nd(c.up.sib, c.up.x, true, c.up.key, c.sib))
  }

  lemma OuterKeeps<N>(c: Ctx<N>, t: Tree<N>)
    requires RedRedAt(c, t) && CtxRed(c) && !c.up.Top? && !Red(c.up.sib)
    requires c.InL? <==> c.up.InL?
    ensures RedRedAt(OuterCtx(c), t) && !CtxRed(OuterCtx(c))
    ensures Items(Plug(OuterCtx(c), t)) == Items(Plug(c, t))
  {
    var g, g' := Fill(c.up, Fill(c, t)), Fill(OuterCtx(c), t);
    assert Plug(c, t) == Plug(c.up, Fill(c, t)) == Plug(c.up.up, g);
    assert CtxBalanced(c.up, BlackHeight(t)) && CtxNoRedRed(c.up) && CtxRootBlack(c.up);
    SameItems(c.up.up, g, g');
  }

  lemma PlugTop<N>(t: Tree<N>)
    ensures Plug(Top, t) == t
  {
  }

  lemma NoItems<N>(t: Tree<N>)
    requires t.Leaf?
    ensures Items(t) == []
  {
  }

  lemma NotRed<N>(t: Tree<N>)
    ensures RedBlack(t) ==> !Red(t)
  {
  }

  function Depth<N>(c: Ctx<N>): nat {
    if c.Top? then 0 else 1 + Depth(c.up)
  }

  // Decreases with every pass of the insertion loop.
  function InsertRank<N>(c: Ctx<N>): nat {
    if CtxRed(c) then 1 + Depth(c) else 0
  }

  // ---- deletion: the cases of rbtree_delete ----

  // Near and far child of the sibling, seen from the short side.
  function Near<N>(c: Ctx<N>): Tree<N>
    requires !c.Top? && c.sib.Nd?
  {
    if c.InL? then c.sib.l else c.sib.r
  }

  function Far<N>(c: Ctx<N>): Tree<N>
    requires !c.Top? && c.sib.Nd?
  {
    if c.InL? then c.sib.r else c.sib.l
  }

  // Red sibling: it becomes the black grandparent, its near child the new sibling.
  function RedSibling<N>(c: Ctx<N>): Ctx<N>
    requires !c.Top? && c.sib.Nd?
  {
    var w := c.sib;
    if c.InL? then InL(InL(c.up, w.x, false, w.key, w.r), c.x, true, c.key, w.l)
    else InR(InR(c.up, w.x, false, w.key, w.l), c.x, true, c.key, w.r)
  }

  lemma RedSiblingKeeps<N>(c: Ctx<N>, t: Tree<N>)
    requires ShortAt(c, t) && !Red(t) && !c.Top? && Red(c.sib)
    ensures ShortAt(RedSibling(c), t) && RedSibling(c).sib.Nd? && !Red(RedSibling(c).sib)
    ensures Items(Plug(RedSibling(c), t)) == Items(Plug(c, t))
  {
    var c' := RedSibling(c);
    assert Plug(c', t) == Plug(c'.up, Fill(c', t)) == Plug(c.up, Fill(c'.up, Fill(c', t)));
    assert Balanced(c.sib.l) && Balanced(c.sib.r) && NoRedRed(c.sib.l) && NoRedRed(c.sib.r);
    SameItems(c.up, Fill(c, t), Fill(c'.up, Fill(c', t)));
  }

  // Black sibling with black children: it turns red and the shortage moves up.
  function PushUp<N>(c: Ctx<N>, t: Tree<N>): Tree<N>
    requires !c.Top? && c.sib.Nd?
  {
    Fill(c.(sib := c.sib.(red := true)), t)
  }

  lemma PushUpKeeps<N>(c: Ctx<N>, t: Tree<N>)
    requires ShortAt(c, t) && !Red(t) && !c.Top? && c.sib.Nd? && !Red(c.sib)
    requires !Red(c.sib.l) && !Red(c.sib.r)
    ensures ShortAt(c.up, PushUp(c, t))
    ensures Items(Plug(c.up, PushUp(c, t))) == Items(Plug(c, t))
  {
    Repaint(c.sib, true);
    SameItems(c.up, Fill(c, t), PushUp(c, t));
  }

  // Black sibling whose near child is red: a rotation at the sibling makes the far one red.
  function NearRed<N>(c: Ctx<N>): Ctx<N>
    requires !c.Top? && c.sib.Nd? && Near(c).Nd?
  {
    var w, n := c.sib, Near(c);
    if c.InL? then InL(c.up, c.x, c.red, c.key, Nd(n.l, n.x, false, n.key, Nd(n.r, w.x, true, w.key, w.r)))
    else InR(c.up, c.x, c.red, c.key, Nd(Nd(w.l, w.x, true, w.key, n.l), n.x, false, n.key, n.r))
  }

  lemma NearRedItems<N>(c: Ctx<N>, t: Tree<N>)
    requires !c.Top? && c.sib.Nd? && Near(c).Nd?
    ensures Items(Plug(NearRed(c), t)) == Items(Plug(c, t))
  {
    var n := Near(c);
    assert Items(n) == Items(n.l) + [Item(n.x, n.key)] + Items(n.r);
    assert Items(NearRed(c).sib) == Items(c.sib);
    SameItems(c.up, Fill(c, t), Fill(NearRed(c), t));
  }

  lemma NearRedKeeps<N>(c: Ctx<N>, t: Tree<N>)
    requires ShortAt(c, t) && !Red(t) && !c.Top? && c.sib.Nd? && !Red(c.sib)
    requires Red(Near(c)) && !Red(Far(c))
    ensures ShortAt(NearRed(c), t) && !Red(NearRed(c).sib) && Red(Far(NearRed(c)))
    ensures Items(Plug(NearRed(c), t)) == Items(Plug(c, t))
  {
    var n, w := Near(c), c.sib;
    assert Balanced(n) && NoRedRed(n) && Balanced(w) && NoRedRed(w);
    var m := if c.InL? then Nd(n.r, w.x, true, w.key, w.r) else Nd(w.l, w.x, true, w.key, n.l);
    assert Balanced(m) && NoRedRed(m);
    NearRedItems(c, t);
  }

  // Black sibling whose far child is red: a rotation at the parent ends the shortage.
  function FarRed<N>(c: Ctx<N>, t: Tree<N>): Tree<N>
    requires !c.Top? && c.sib.Nd? && Far(c).Nd?
  {
    var w := c.sib;
    if c.InL? then Nd(Nd(t, c.x, false, c.key, w.l), w.x, c.red, w.key, w.r.(red := false))
    else Nd(w.l.(red := false), w.x, c.red, w.key, Nd(w.r, c.x, false, c.key, t))
  }

  lemma FarRedItems<N>(c: Ctx<N>, t: Tree<N>)
    requires !c.Top? && c.sib.Nd? && Far(c).Nd?
    ensures Items(Plug(c.up, FarRed(c, t))) == Items(Plug(c, t))
  {
    Repaint(Far(c), false);
    SameItems(c.up, Fill(c, t), FarRed(c, t));
  }

  lemma FarRedEnds<N>(c: Ctx<N>, t: Tree<N>)
    requires ShortAt(c, t) && !Red(t) && !c.Top? && c.sib.Nd? && !Red(c.sib) && Red(Far(c))
    ensures ShortAt(Top, Plug(c.up, FarRed(c, t)))
    ensures Items(Plug(c.up, FarRed(c, t))) == Items(Plug(c, t))
  {
    var g := FarRed(c, t);
    assert Balanced(Near(c)) && Balanced(Far(c)) && NoRedRed(Near(c)) && NoRedRed(Far(c));
    Repaint(Far(c), false);
    var m := if c.InL? then Nd(t, c.x, false, c.key, c.sib.l) else Nd(c.sib.r, c.x, false, c.key, t);
    assert Balanced(m) && NoRedRed(m);
    assert Balanced(g) && NoRedRed(g);
    PlugBalanced(c.up, g);
    PlugNoRedRed(c.up, g);
    PlugRed(c.up, g);
    FarRedItems(c, t);
  }

  // Decreases with every pass of the deletion loop.
  function DeleteRank<N>(c: Ctx<N>, t: Tree<N>): nat {
    if c.Top? || Red(t) then 0 else 1 + Depth(c)
  }

  // ---- height ----

  function Height<N>(t: Tree<N>): nat {
    if t.Leaf? then 0 else 1 + (if Height(t.l) >= Height(t.r) then Height(t.l) else Height(t.r))
  }

  lemma {:induction false} SizeAboveBlackHeight<N>(t: Tree<N>)
    requires Balanced(t)
    ensures |Items(t)| + 1 >= Pow2(BlackHeight(t))
  {
    if t.Nd? {
      SizeAboveBlackHeight(t.l);
      SizeAboveBlackHeight(t.r);
    }
  }

  lemma {:induction false} HeightBelowBlackHeight<N>(t: Tree<N>)
    requires Balanced(t) && NoRedRed(t)
    ensures Height(t) <= 2 * BlackHeight(t) + (if Red(t) then 1 else 0)
  {
    if t.Nd? {
      HeightBelowBlackHeight(t.l);
      HeightBelowBlackHeight(t.r);
    }
  }

  /** The height of a red-black tree of n nodes is at most 2 * log2(n + 1), rounded down. */
  lemma HeightIsLogarithmic<N>(t: Tree<N>)
    requires RedBlack(t)
    ensures Height(t) <= 2 * FloorLog2(|Items(t)| + 1)
  {
    SizeAboveBlackHeight(t);
    HeightBelowBlackHeight(t);
    FloorLog2Greatest(|Items(t)| + 1, BlackHeight(t));
  }
}

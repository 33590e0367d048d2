/** Search order in red-black trees: in-order keys, and where the descent of an insertion ends. */
module RBOrder {
  import opened RBAlgebra

  /** In-order keys never decrease. */
  ghost predicate Ordered<N>(s: seq<Item<N>>) {
    forall i, j :: 0 <= i < j < |s| ==> s[i].key <= s[j].key
  }

  ghost predicate AllLe<N>(s: seq<Item<N>>, k: int) {
    forall i :: 0 <= i < |s| ==> s[i].key <= k
  }

  ghost predicate AllGt<N>(s: seq<Item<N>>, k: int) {
    forall i :: 0 <= i < |s| ==> k < s[i].key
  }

  lemma TopBounds<N>(k: int)
    ensures AllLe(Before(Ctx<N>.Top), k) && AllGt(After(Ctx<N>.Top), k)
  {
  }

  lemma OrderedInsert<N>(a: seq<Item<N>>, e: Item<N>, b: seq<Item<N>>)
    requires Ordered(a + b) && AllLe(a, e.key) && AllGt(b, e.key)
    ensures Ordered(a + [e] + b)
  {
    var s := a + [e] + b;
    forall i, j | 0 <= i < j < |s|
      ensures s[i].key <= s[j].key
    {
      if i != |a| && j != |a| {
        assert s[i] == (a + b)[if i < |a| then i else i - 1] && s[j] == (a + b)[if j < |a| then j else j - 1];
      } else if i == |a| {
        assert s[j] == b[j - |a| - 1];
      } else {
        assert s[i] == a[i];
      }
    }
  }

  lemma OrderedRemove<N>(a: seq<Item<N>>, e: seq<Item<N>>, b: seq<Item<N>>)
    requires Ordered(a + e + b)
    ensures Ordered(a + b)
  {
    var s := a + b;
    forall i, j | 0 <= i < j < |s|
      ensures s[i].key <= s[j].key
    {
      var i', j' := if i < |a| then i else i + |e|, if j < |a| then j else j + |e|;
      assert (a + e + b)[i'] == s[i] && (a + e + b)[j'] == s[j];
    }
  }

  // What lies around a pivot of an ordered sequence.
  lemma Pivot<N>(a: seq<Item<N>>, e: Item<N>, b: seq<Item<N>>)
    requires Ordered(a + [e] + b)
    ensures AllLe(a, e.key)
    ensures forall i :: 0 <= i < |b| ==> e.key <= b[i].key
  {
    var s := a + [e] + b;
    forall i | 0 <= i < |a| ensures a[i].key <= e.key {
      assert s[i] == a[i] && s[|a|] == e;
    }
    forall i | 0 <= i < |b| ensures e.key <= b[i].key {
      assert s[|a|] == e && s[|a| + 1 + i] == b[i];
    }
  }

  lemma Regroup<T>(a: seq<T>, l: seq<T>, e: T, r: seq<T>, b: seq<T>)
    ensures a + (l + [e] + r) + b == (a + l) + [e] + (r + b)
    ensures l == [] ==> a + r + b == (a + l) + (r + b)
    ensures r == [] ==> a + l + b == (a + l) + (r + b)
    ensures (a + l + [e]) + r + b == (a + l) + ([e] + r + b)
  {
  }

  lemma ItemsAround<N>(c: Ctx<N>, t: Tree<N>)
    requires t.Nd?
    ensures Items(Plug(c, t)) == (Before(c) + Items(t.l)) + [Item(t.x, t.key)] + (Items(t.r) + After(c))
  {
    PlugItems(c, t);
    assert Items(t) == Items(t.l) + [Item(t.x, t.key)] + Items(t.r);
    hide *;
    Regroup(Before(c), Items(t.l), Item(t.x, t.key), Items(t.r), After(c));
  }

  lemma BoundsJoin<N>(a: seq<Item<N>>, b: seq<Item<N>>, k: int)
    ensures AllLe(a, k) && AllLe(b, k) ==> AllLe(a + b, k)
    ensures AllGt(a, k) && AllGt(b, k) ==> AllGt(a + b, k)
  {
  }

  lemma OneBound<N>(e: Item<N>, k: int)
    ensures e.key <= k ==> AllLe([e], k)
    ensures k < e.key ==> AllGt([e], k)
  {
  }

  lemma Looser<N>(a: seq<Item<N>>, b: seq<Item<N>>, m: int, k: int)
    ensures AllLe(a, m) && m <= k ==> AllLe(a, k)
    ensures k < m && (forall i :: 0 <= i < |b| ==> m <= b[i].key) ==> AllGt(b, k)
  {
  }

  lemma AroundChild<N>(c: Ctx<N>, t: Tree<N>)
    requires t.Nd?
    ensures Before(InL(c, t.x, t.red, t.key, t.r)) == Before(c)
    ensures After(InL(c, t.x, t.red, t.key, t.r)) == [Item(t.x, t.key)] + Items(t.r) + After(c)
    ensures Before(InR(c, t.x, t.red, t.key, t.l)) == (Before(c) + Items(t.l)) + [Item(t.x, t.key)]
    ensures After(InR(c, t.x, t.red, t.key, t.l)) == After(c)
  {
  }

  // Both ways down from a node: smaller keys to the left, the others to the right.
  lemma Descend<N>(c: Ctx<N>, t: Tree<N>, k: int)
    requires t.Nd? && Ordered(Items(Plug(c, t))) && AllLe(Before(c), k) && AllGt(After(c), k)
    ensures k < t.key ==> AllLe(Before(InL(c, t.x, t.red, t.key, t.r)), k) && AllGt(After(InL(c, t.x, t.red, t.key, t.r)), k)
    ensures t.key <= k ==> AllLe(Before(InR(c, t.x, t.red, t.key, t.l)), k) && AllGt(After(InR(c, t.x, t.red, t.key, t.l)), k)
  {
    hide *;
    var a, e, b := Before(c) + Items(t.l), Item(t.x, t.key), Items(t.r) + After(c);
    AroundChild(c, t);
    ItemsAround(c, t);
    Pivot(a, e, b);
    OneBound(e, k);
    Looser(a, b, t.key, k);
    BoundsJoin(a, [e], k);
    BoundsJoin([e], b, k);
    assert [e] + Items(t.r) + After(c) == [e] + b;
  }

  // The nodes of a tree are those of its items.
  ghost function Nodes<N>(s: seq<Item<N>>): set<N> {
    set e | e in s :: e.x
  }

  lemma NodesConcat<N>(a: seq<Item<N>>, b: seq<Item<N>>)
    ensures Nodes(a + b) == Nodes(a) + Nodes(b)
  {
    forall x | x in Nodes(a) + Nodes(b) ensures x in Nodes(a + b) {
      var e :| (e in a || e in b) && e.x == x;
      assert e in a + b;
    }
  }

  // What an insertion at an empty place does to the in-order sequence.
  lemma InsertedItems<N>(c: Ctx<N>, x: N, red: bool, key: int)
    requires Ordered(Items(Plug(c, Leaf))) && AllLe(Before(c), key) && AllGt(After(c), key)
    ensures Items(Plug(c, Leaf)) == Before(c) + After(c)
    ensures Items(Plug(c, Nd(Leaf, x, red, key, Leaf))) == Before(c) + [Item(x, key)] + After(c)
    ensures Ordered(Items(Plug(c, Nd(Leaf, x, red, key, Leaf))))
  {
    PlugItems(c, Leaf);
    PlugItems(c, Nd(Leaf, x, red, key, Leaf));
    assert Items(Nd(Leaf, x, red, key, Leaf)) == [Item(x, key)];
    assert Before(c) + After(c) == Items(Plug(c, Leaf));
    OrderedInsert(Before(c), Item(x, key), After(c));
  }

  lemma NodesInserted<N>(a: seq<Item<N>>, e: Item<N>, b: seq<Item<N>>)
    ensures Nodes(a + [e] + b) == Nodes(a + b) + {e.x}
  {
    NodesConcat(a + [e], b);
    NodesConcat(a, [e]);
    NodesConcat(a, b);
    assert Nodes([e]) == {e.x};
  }
}

/** The timers of one event loop as an ordered sequence of (node, deadline) items. */
module TimerQueue {
  import opened Log2
  import opened RBAlgebra
  import opened RBOrder
  import opened RBSplice

  const LAZY_DELAY := 300

  // ---- the lazy re-arming test: abs() of a 64-bit difference narrowed to int ----

  // Conversion of a wider integer to a 32-bit int.
  function Narrow(d: int): (r: int)
    ensures -UINT32 / 2 <= r < UINT32 / 2 && (r - d) % UINT32 == 0
  {
    var low := d % UINT32;
    if low < UINT32 / 2 then low else low - UINT32
  }

  // abs() on a 32-bit int; its one value without a negative stays as it is.
  function CAbs(v: int): int {
    if v == -UINT32 / 2 then v else if v < 0 then -v else v
  }

  // The old deadline is kept.
  predicate Kept(diff: int) {
    CAbs(Narrow(diff)) < LAZY_DELAY
  }

  predicate Close(diff: int) {
    -LAZY_DELAY < diff < LAZY_DELAY
  }

  /** The test keeps every difference below the delay, and further ones around each multiple of
      2^32 and exactly half way between. */
  lemma KeptExactly(diff: int)
    ensures (Close(diff) <==> -300 < diff < 300) && (Close(diff) ==> Kept(diff))
    ensures Kept(diff) <==> diff % UINT32 < 300 || diff % UINT32 > UINT32 - 300 || diff % UINT32 == UINT32 / 2
    ensures -UINT32 / 2 < diff < UINT32 - 300 && diff != UINT32 / 2 ==> (Kept(diff) <==> Close(diff))
  {
  }

  /** A deadline moved by 2^32 milliseconds, or 2^31 earlier, is silently not moved. */
  lemma KeptThoughFar()
    ensures Kept(UINT32) && !Close(UINT32) && Kept(-UINT32 / 2) && !Close(-UINT32 / 2)
  {
  }

  // ---- the queue ----

  // s without the items of node n.
  function Without<N(==)>(s: seq<Item<N>>, n: N): seq<Item<N>> {
    if s == [] then [] else (if s[0].x == n then [] else [s[0]]) + Without(s[1..], n)
  }

  // s with e after every item that is not later.
  function Placed<N>(s: seq<Item<N>>, e: Item<N>): seq<Item<N>> {
    if s == [] || e.key < s[0].key then [e] + s else [s[0]] + Placed(s[1..], e)
  }

  // The items that are due at time now, in firing order.
  function Due<N>(s: seq<Item<N>>, now: int): seq<Item<N>> {
    if s == [] || now < s[0].key then [] else [s[0]] + Due(s[1..], now)
  }

  lemma {:induction false} WithoutNone<N>(s: seq<Item<N>>, n: N)
    requires n !in Nodes(s)
    ensures Without(s, n) == s
  {
    if s != [] {
      assert s == [s[0]] + s[1..];
      NodesConcat([s[0]], s[1..]);
      assert s[0] in s;
      WithoutNone(s[1..], n);
    }
  }

  lemma {:induction false} WithoutConcat<N>(a: seq<Item<N>>, b: seq<Item<N>>, n: N)
    ensures Without(a + b, n) == Without(a, n) + Without(b, n)
  {
    if a == [] {
      assert a + b == b;
    } else {
      assert (a + b)[0] == a[0] && (a + b)[1..] == a[1..] + b;
      WithoutConcat(a[1..], b, n);
    }
  }

  lemma WithoutSelf<N>(e: Item<N>)
    ensures Without([e], e.x) == []
  {
    assert [e][1..] == [];
  }

  lemma WithoutOne<N>(a: seq<Item<N>>, e: Item<N>, b: seq<Item<N>>)
    requires Distinct(a + [e] + b)
    ensures Without(a + [e] + b, e.x) == a + b
  {
    hide *;
    WithoutSelf(e);
    GoneFrom(a, e, b);
    NodesConcat(a, b);
    WithoutConcat(a + [e], b, e.x);
    WithoutConcat(a, [e], e.x);
    WithoutNone(a, e.x);
    WithoutNone(b, e.x);
  }

  lemma {:induction false} PlacedAt<N>(a: seq<Item<N>>, e: Item<N>, b: seq<Item<N>>)
    requires AllLe(a, e.key) && AllGt(b, e.key)
    ensures Placed(a + b, e) == a + [e] + b
  {
    if a == [] {
      assert a + b == b && a + [e] + b == [e] + b;
    } else {
      assert (a + b)[0] == a[0] && (a + b)[1..] == a[1..] + b;
      PlacedAt(a[1..], e, b);
      assert [a[0]] + (a[1..] + [e] + b) == a + [e] + b;
    }
  }

  // In an ordered queue the due items are a prefix.
  lemma {:induction false} DueIsPrefix<N>(s: seq<Item<N>>, now: int) returns (r: seq<Item<N>>)
    requires Ordered(s)
    ensures s == Due(s, now) + r && AllLe(Due(s, now), now) && AllGt(r, now)
  {
    if s == [] {
      r := [];
    } else if now < s[0].key {
      r := s;
    } else {
      r := DueIsPrefix(s[1..], now);
      assert s == [s[0]] + s[1..];
    }
  }

  /** Due lists exactly the items whose time has come. */
  lemma DueExactly<N>(s: seq<Item<N>>, now: int, e: Item<N>)
    requires Ordered(s)
    ensures e in Due(s, now) <==> e in s && e.key <= now
  {
    var r := DueIsPrefix(s, now);
    assert forall i :: 0 <= i < |r| ==> now < r[i].key;
    assert forall i :: 0 <= i < |Due(s, now)| ==> Due(s, now)[i].key <= now;
  }

  lemma {:induction false} PlacedAfter<N>(p: seq<Item<N>>, w: seq<Item<N>>, e: Item<N>, now: int)
    requires AllLe(p, now) && now < e.key
    ensures Placed(p + w, e) == p + Placed(w, e)
  {
    if p == [] {
      assert p + w == w;
    } else {
      assert (p + w)[0] == p[0] && (p + w)[1..] == p[1..] + w;
      PlacedAfter(p[1..], w, e, now);
    }
  }

  lemma {:induction false} PlacedGt<N>(w: seq<Item<N>>, e: Item<N>, now: int)
    requires AllGt(w, now) && now < e.key
    ensures AllGt(Placed(w, e), now)
  {
    if w != [] && e.key >= w[0].key {
      PlacedGt(w[1..], e, now);
    }
  }

  lemma {:induction false} WithoutGt<N>(r: seq<Item<N>>, n: N, now: int)
    requires AllGt(r, now)
    ensures AllGt(Without(r, n), now)
  {
    if r != [] {
      WithoutGt(r[1..], n, now);
    }
  }
}

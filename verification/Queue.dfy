/** The circular intrusive list macros of src/core/dfs_queue.h, on which the allocator's
    three lists are built. A ring is described by the sequence of its elements. */
module Queue {

  // Which link of which structure this is: what queue_data reads off its address.
  datatype Place = OrderHead | AvailableHead | FreeHead(k: int) | AvailableEntry(k: int) | OrderEntry(a: int) | FreeEntry(a: int)

  class Link {
    const place: Place
    var prev: Link?
    var next: Link?

    constructor (place: Place)
      ensures this.place == place && prev == null && next == null
    {
      this.place, prev, next := place, null, null;
    }
  }

  ghost predicate Distinct(h: Link, s: seq<Link>) {
    && (forall i :: 0 <= i < |s| ==> s[i] != h)
    && (forall i, j :: 0 <= i < j < |s| ==> s[i] != s[j])
  }

  // Element i of the ring; positions -1 and |s| are the head itself.
  function At(h: Link, s: seq<Link>, i: int): Link {
    if 0 <= i < |s| then s[i] else h
  }

  ghost function Nodes(h: Link, s: seq<Link>): set<Link> {
    {h} + set i | 0 <= i < |s| :: s[i]
  }

  /** Going round from h by next visits exactly s, and prev goes the other way. */
  ghost predicate Ring(h: Link, s: seq<Link>)
    reads Nodes(h, s)
  {
    && Distinct(h, s)
    && h.next == At(h, s, 0) && h.prev == At(h, s, |s| - 1)
    && (forall i {:trigger s[i].next} :: 0 <= i < |s| ==> s[i].next == At(h, s, i + 1))
    && (forall i {:trigger s[i].prev} :: 0 <= i < |s| ==> s[i].prev == At(h, s, i - 1))
  }

  // t is s with x at position p.
  ghost predicate Inserted(s: seq<Link>, t: seq<Link>, x: Link, p: nat) {
    && p <= |s| && |t| == |s| + 1 && t[p] == x
    && (forall i :: 0 <= i < p ==> t[i] == s[i])
    && (forall i :: p < i < |t| ==> t[i] == s[i - 1])
  }

  lemma InsertDistinct(h: Link, s: seq<Link>, t: seq<Link>, x: Link, p: nat)
    requires Distinct(h, s) && Inserted(s, t, x, p) && x != h && x !in s
    ensures Distinct(h, t)
  {
  }

  // Dropping element p keeps the rest distinct.
  lemma RemoveDistinct(h: Link, s: seq<Link>, t: seq<Link>, p: nat)
    requires Distinct(h, t) && p < |t| && Inserted(s, t, t[p], p)
    ensures Distinct(h, s) && t[p] !in s && t[p] != h
  {
    forall i, j | 0 <= i < j < |s| ensures s[i] != s[j] {
      var i', j' := if i < p then i else i + 1, if j < p then j else j + 1;
      assert t[i'] == s[i] && t[j'] == s[j];
    }
    forall i | 0 <= i < |s| ensures s[i] != h && s[i] != t[p] {
      var i' := if i < p then i else i + 1;
      assert t[i'] == s[i];
    }
  }

  /** queue_init */
  method Init(h: Link)
    modifies h
    ensures Ring(h, [])
  {
    h.prev := h;
    h.next := h;
  }

  /** queue_empty */
  method IsEmpty(h: Link, ghost s: seq<Link>) returns (b: bool)
    requires Ring(h, s)
    ensures b <==> s == []
  {
    b := h == h.prev;
  }

  /** queue_insert_head */
  method InsertHead(h: Link, x: Link, ghost s: seq<Link>)
    requires Ring(h, s) && x != h && x !in s
    modifies Nodes(h, s), x
    ensures Ring(h, [x] + s)
  {
    x.next := h.next;
    x.next.prev := x;
    x.prev := h;
    h.next := x;
  }

  /** queue_insert_tail */
  method InsertTail(h: Link, x: Link, ghost s: seq<Link>)
    requires Ring(h, s) && x != h && x !in s
    modifies Nodes(h, s), x
    ensures Ring(h, s + [x])
  {
    x.prev := h.prev;
    x.prev.next := x;
    x.next := h;
    h.prev := x;
  }

  /** queue_insert_before; p is the position of the list element. */
  method InsertBefore(h: Link, e: Link, x: Link, ghost s: seq<Link>, ghost t: seq<Link>, ghost p: nat)
    requires Ring(h, s) && x != h && x !in s
    requires Inserted(s, t, x, p) && e == At(h, s, p)
    modifies At(h, s, p - 1), e, x
    ensures Ring(h, t)
  {
    InsertDistinct(h, s, t, x, p);
    x.prev := e.prev;
    x.next := e;
    e.prev.next := x;
    e.prev := x;
  }

  /** queue_insert_after */
  method InsertAfter(h: Link, e: Link, x: Link, ghost s: seq<Link>, ghost t: seq<Link>, ghost p: nat)
    requires Ring(h, s) && x != h && x !in s
    requires Inserted(s, t, x, p) && e == At(h, s, p - 1)
    modifies At(h, s, p), e, x
    ensures Ring(h, t)
  {
    InsertDistinct(h, s, t, x, p);
    x.next := e.next;
    x.prev := e;
    e.next.prev := x;
    e.next := x;
  }

  // The ring t with one more element x linked in at position p.
  ghost predicate RingPlus(h: Link, t: seq<Link>, x: Link, p: nat)
    reads Nodes(h, t), x
  {
    && p <= |t| && Distinct(h, t) && x != h && x !in t
    && x.prev == At(h, t, p - 1) && x.next == At(h, t, p)
    && h.next == (if p == 0 then x else At(h, t, 0))
    && h.prev == (if p == |t| then x else At(h, t, |t| - 1))
    && (forall i {:trigger t[i].next} :: 0 <= i < |t| ==> t[i].next == if i + 1 == p then x else At(h, t, i + 1))
    && (forall i {:trigger t[i].prev} :: 0 <= i < |t| ==> t[i].prev == if i == p then x else At(h, t, i - 1))
  }

  lemma RingMinus(h: Link, s: seq<Link>, t: seq<Link>, x: Link, p: nat)
    requires Ring(h, s) && p < |s| && s[p] == x && Inserted(t, s, x, p)
    ensures RingPlus(h, t, x, p)
  {
    hide Distinct;
    RemoveDistinct(h, t, s, p);
    forall i | 0 <= i < |t|
      ensures t[i].next == (if i + 1 == p then x else At(h, t, i + 1))
      ensures t[i].prev == (if i == p then x else At(h, t, i - 1))
    {
      var j := if i < p then i else i + 1;
      assert s[j] == t[i];
    }
  }

  /** queue_remove */
  method Remove(h: Link, x: Link, ghost s: seq<Link>, ghost t: seq<Link>, ghost p: nat)
    requires Ring(h, s) && p < |s| && s[p] == x
    requires Inserted(t, s, x, p)
    modifies At(h, s, p - 1), At(h, s, p + 1), x
    ensures Ring(h, t)
    ensures x.prev == null && x.next == null
  {
    RingMinus(h, s, t, x, p);
    Unlink(h, x, t, p);
  }

  method Unlink(h: Link, x: Link, ghost t: seq<Link>, ghost p: nat)
    requires RingPlus(h, t, x, p)
    modifies At(h, t, p - 1), At(h, t, p), x
    ensures Ring(h, t)
    ensures x.prev == null && x.next == null
  {
    x.next.prev := x.prev;
    x.prev.next := x.next;
    x.prev := null;
    x.next := null;
  }

  /** The link work of a block split (src/core/dfs_shmem.c:522-530): the new header starts as
      a byte copy of the old one, so its links point into the ring it is not part of.
      Inserting the old block before it, removing it and inserting it again ends with the
      ring grown by exactly the new block, right behind the old one. */
  method SplitLink(h: Link, st: Link, nu: Link, ghost s: seq<Link>, ghost t: seq<Link>, ghost p: nat)
    requires Ring(h, s) && nu != h && nu !in s
    requires p < |s| && s[p] == st && Inserted(s, t, nu, p + 1)
    modifies At(h, s, p - 1), At(h, s, p + 1), st, nu
    ensures Ring(h, t)
  {
    nu.prev, nu.next := st.prev, st.next;
    // queue_insert_before(nu, st)
    st.prev := nu.prev;
    st.next := nu;
    nu.prev.next := st;
    nu.prev := st;
    // queue_remove(nu)
    nu.next.prev := nu.prev;
    nu.prev.next := nu.next;
    nu.prev := null;
    nu.next := null;
    assert Ring(h, s);
    InsertAfter(h, st, nu, s, t, p + 1);
  }
}

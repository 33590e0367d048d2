/** The common connection list of src/core/dfs_conn_pool.c: a singly linked stack from which the
    first n connections can be cut off. */
module CommonPool {
  import ConnPool

  class Conn {
    var next: Conn?

    constructor ()
      ensures next == null
    {
      next := null;
    }
  }

  function After(s: seq<Conn>, i: int): Conn?
    requires 0 <= i < |s|
  {
    if i + 1 < |s| then s[i + 1] else null
  }

  // Following next from c visits exactly s and ends.
  ghost predicate Linked(c: Conn?, s: seq<Conn>)
    reads s
  {
    && c == (if s == [] then null else s[0])
    && forall i :: 0 <= i < |s| ==> s[i].next == After(s, i)
  }

  ghost predicate Distinct(s: seq<Conn>) {
    forall i, j :: 0 <= i < j < |s| ==> s[i] != s[j]
  }

  // A list whose n-th link is cut is two lists.
  lemma CutInTwo(s: seq<Conn>, n: int)
    requires 0 < n < |s| && s[n - 1].next == null && forall i :: 0 <= i < |s| && i != n - 1 ==> s[i].next == After(s, i)
    ensures Linked(s[0], s[..n]) && Linked(s[n], s[n..])
  {
    forall i | 0 <= i < n ensures s[..n][i].next == After(s[..n], i) {
      assert s[..n][i] == s[i];
    }
    forall i | 0 <= i < |s| - n ensures s[n..][i].next == After(s[n..], i) {
      assert s[n..][i] == s[n + i];
    }
  }

  class List {
    var head: Conn?
    var n: int
    ghost var items: seq<Conn>

    ghost predicate Valid()
      reads this, items
    {
      Linked(head, items) && Distinct(items) && n == |items|
    }

    constructor ()
      ensures Valid() && items == []
    {
      head, n, items := null, 0, [];
    }

    /** put_comm_conn */
    method Put(c: Conn)
      requires Valid() && c !in items
      modifies this, c
      ensures Valid() && items == [c] + old(items)
    {
      n := n + 1;
      c.next := head;
      head := c;
      items := [c] + items;
      forall i | 0 <= i < |items| ensures items[i].next == After(items, i) {
        if i > 0 {
          assert items[i].next == old(items[i - 1].next) == After(old(items), i - 1);
        }
      }
    }

    /** get_comm_conn: cuts off the first n0 connections, or all there are. */
    method Get(n0: int) returns (c: Conn?, num: int)
      requires Valid() && n0 > 0
      modifies this, items
      ensures Valid() && num == ConnPool.TakeCount(n0, |old(items)|) && items == old(items)[num..]
      ensures Linked(c, old(items)[..num])
    {
      if n == 0 {
        return null, 0;
      }
      if n0 >= n {
        c, num := head, n;
        assert items[..num] == items;
        head, n, items := null, 0, [];
        return;
      }
      ghost var s := items;
      var plast, p := Walk(head, n0, items);
      c := head;
      head := p;
      n := n - n0;
      CutAfter(plast, s, n0);
      num := n0;
      items := items[n0..];
    }
  }

  // The walk of get_comm_conn: the n-th connection and the one after it.
  method Walk(head: Conn, n: int, ghost s: seq<Conn>) returns (plast: Conn, p: Conn)
    requires Linked(head, s) && 0 < n < |s|
    ensures plast == s[n - 1] && p == s[n]
  {
    var q: Conn?, i := head, n;
    plast := head;
    while q != null && i > 0
      invariant 0 <= i <= n && (i < n ==> plast == s[n - i - 1]) && q == s[n - i]
      decreases i
    {
      plast := q;
      q := q.next;
      i := i - 1;
    }
    p := q;
  }

  method CutAfter(plast: Conn, ghost s: seq<Conn>, ghost n: int)
    requires 0 < n < |s| && Distinct(s) && Linked(s[0], s) && plast == s[n - 1]
    modifies plast
    ensures Linked(s[0], s[..n]) && Linked(s[n], s[n..])
  {
    plast.next := null;
    forall i | 0 <= i < |s| && i != n - 1 ensures s[i].next == After(s, i) {
      assert s[i].next == old(s[i].next);
    }
    CutInTwo(s, n);
  }
}

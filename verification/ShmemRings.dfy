/** The three kinds of list of the shared-memory allocator as rings of links in one memory: the
    block list, the class lists and the list of non-empty classes. */
module ShmemRings {
  import opened Queue
  import opened ShmemState

  ghost predicate Within(s: seq<int>, n: int) {
    forall i :: 0 <= i < |s| ==> 0 <= s[i] < n
  }

  // The links that belong to the numbers of s.
  ghost function Links(of: seq<Link>, s: seq<int>): (r: seq<Link>)
    requires Within(s, |of|)
    ensures |r| == |s| && forall i :: 0 <= i < |s| ==> r[i] == of[s[i]]
  {
    seq(|s|, i requires 0 <= i < |s| => of[s[i]])
  }

  // t is s with x at position p.
  ghost predicate InsertedAt(s: seq<int>, t: seq<int>, x: int, p: int) {
    && 0 <= p <= |s| && |t| == |s| + 1 && t[p] == x
    && (forall i :: 0 <= i < p ==> t[i] == s[i])
    && (forall i :: p < i < |t| ==> t[i] == s[i - 1])
  }

  lemma {:induction false} WithoutAt(s: seq<int>, x: int)
    requires x in s
    ensures InsertedAt(Without(s, x), s, x, Pos(s, x))
  {
    if s[0] != x {
      WithoutAt(s[1..], x);
    }
  }

  lemma InsertedMembers(s: seq<int>, t: seq<int>, x: int, p: int)
    requires InsertedAt(s, t, x, p)
    ensures forall y :: y in t <==> y in s || y == x
  {
    assert t == s[..p] + [x] + s[p..];
    assert s == s[..p] + s[p..];
  }

  lemma LinksInserted(of: seq<Link>, s: seq<int>, t: seq<int>, x: int, p: int)
    requires InsertedAt(s, t, x, p) && (Within(t, |of|) || (Within(s, |of|) && 0 <= x < |of|))
    ensures Within(s, |of|) && Within(t, |of|) && 0 <= x < |of| && Inserted(Links(of, s), Links(of, t), of[x], p)
  {
    if Within(t, |of|) {
      forall i | 0 <= i < |s| ensures 0 <= s[i] < |of| {
        assert s[i] == t[if i < p then i else i + 1];
      }
    }
  }

  // The number of a class or the address of a block, from the link in it; -1 for a head.
  function DataOf(l: Link): int {
    match l.place
    case OrderHead => -1
    case AvailableHead => -1
    case FreeHead(_) => -1
    case AvailableEntry(k) => k
    case OrderEntry(a) => a
    case FreeEntry(a) => a
  }

  // Element i, or -1 outside.
  ghost function Nth(s: seq<int>, i: int): int {
    if 0 <= i < |s| then s[i] else -1
  }

  class Rings {
    const order: Link
    const available: Link
    const heads: seq<Link>       // free_list_head of each class
    const entries: seq<Link>     // available_entry of each class
    const orderOf: seq<Link>     // order_entry of the header at each address
    const freeOf: seq<Link>      // free_entry of the header at each address
    ghost const nodes: set<Link>

    // The links are where their places say.
    ghost predicate Laid() {
      && |heads| == |entries| && |orderOf| == |freeOf|
      && order.place == OrderHead && available.place == AvailableHead && order in nodes && available in nodes
      && (forall k :: 0 <= k < |heads| ==> heads[k].place == FreeHead(k) && heads[k] in nodes)
      && (forall k :: 0 <= k < |entries| ==> entries[k].place == AvailableEntry(k) && entries[k] in nodes)
      && (forall a :: 0 <= a < |orderOf| ==> orderOf[a].place == OrderEntry(a) && orderOf[a] in nodes)
      && (forall a :: 0 <= a < |freeOf| ==> freeOf[a].place == FreeEntry(a) && freeOf[a] in nodes)
    }

    ghost predicate OrderRing(o: seq<int>)
      reads nodes
    {
      Laid() && Within(o, |orderOf|) && Ring(order, Links(orderOf, o))
    }

    ghost predicate FreeRing(k: int, s: seq<int>)
      reads nodes
    {
      Laid() && 0 <= k < |heads| && Within(s, |freeOf|) && Ring(heads[k], Links(freeOf, s))
    }

    ghost predicate AvailRing(v: seq<int>)
      reads nodes
    {
      Laid() && Within(v, |entries|) && Ring(available, Links(entries, v))
    }

    // No block is on two class lists.
    ghost predicate Separate(f: seq<seq<int>>) {
      forall j, k, x :: 0 <= j < |f| && 0 <= k < |f| && x in f[j] && x in f[k] ==> j == k
    }

    /** The rings are the three kinds of list. */
    ghost predicate Shows(o: seq<int>, f: seq<seq<int>>, v: seq<int>)
      reads nodes
    {
      && Laid() && OrderRing(o) && AvailRing(v) && |f| == |heads| && Separate(f)
      && (forall k :: 0 <= k < |f| ==> FreeRing(k, f[k]))
    }

    // ---- no two rings share a link ----

    ghost predicate OrderPlace(p: Place) {
      p.OrderHead? || p.OrderEntry?
    }

    ghost predicate AvailPlace(p: Place) {
      p.AvailableHead? || p.AvailableEntry?
    }

    ghost predicate FreePlace(p: Place, k: int, s: seq<int>) {
      p == FreeHead(k) || (p.FreeEntry? && p.a in s)
    }

    lemma OrderPlaces(o: seq<int>)
      requires Laid() && Within(o, |orderOf|)
      ensures forall l :: l in Nodes(order, Links(orderOf, o)) ==> l in nodes && OrderPlace(l.place)
    {
    }

    lemma AvailPlaces(v: seq<int>)
      requires Laid() && Within(v, |entries|)
      ensures forall l :: l in Nodes(available, Links(entries, v)) ==> l in nodes && AvailPlace(l.place)
    {
    }

    lemma FreePlaces(k: int, s: seq<int>)
      requires Laid() && 0 <= k < |heads| && Within(s, |freeOf|)
      ensures forall l :: l in Nodes(heads[k], Links(freeOf, s)) ==> l in nodes && FreePlace(l.place, k, s)
    {
      forall l | l in Nodes(heads[k], Links(freeOf, s)) ensures l in nodes && FreePlace(l.place, k, s) {
        if l != heads[k] {
          var i :| 0 <= i < |s| && Links(freeOf, s)[i] == l;
          assert s[i] in s;
        }
      }
    }

    // ---- creation ----

    static method MakeLinks(n: nat, make: int -> Place) returns (ls: seq<Link>)
      ensures |ls| == n && forall i :: 0 <= i < n ==> fresh(ls[i]) && ls[i].place == make(i)
    {
      ls := [];
      for i := 0 to n
        invariant |ls| == i && forall j :: 0 <= j < i ==> fresh(ls[j]) && ls[j].place == make(j)
      {
        var l := new Link(make(i));
        ls := ls + [l];
      }
    }

    ghost static function Members(ls: seq<Link>): (r: set<Link>)
      ensures forall i :: 0 <= i < |ls| ==> ls[i] in r
      ensures forall l :: l in r ==> l in ls
    {
      set l | l in ls
    }

    constructor (classes: nat, size: nat)
      ensures Laid() && fresh(nodes) && |heads| == classes && |freeOf| == size
    {
      hide Members;
      var o := new Link(OrderHead);
      var v := new Link(AvailableHead);
      var hs := MakeLinks(classes, k => FreeHead(k));
      var es := MakeLinks(classes, k => AvailableEntry(k));
      var os := MakeLinks(size, a => OrderEntry(a));
      var fs := MakeLinks(size, a => FreeEntry(a));
      order, available, heads, entries, orderOf, freeOf := o, v, hs, es, os, fs;
      nodes := {o, v} + Members(hs) + Members(es) + Members(os) + Members(fs);
    }

    // queue_init of every head.
    method InitAll()
      requires Laid()
      modifies nodes
      ensures Shows([], seq(|heads|, _ => []), [])
    {
      Init(order);
      Init(available);
      var k := 0;
      while k < |heads|
        invariant 0 <= k <= |heads|
        invariant order.next == order == order.prev && available.next == available == available.prev
        invariant forall j {:trigger heads[j]} :: 0 <= j < k ==> heads[j].next == heads[j] == heads[j].prev
      {
        forall j | 0 <= j < k ensures heads[j] != heads[k] {
          assert heads[j].place != heads[k].place;
        }
        Init(heads[k]);
        k := k + 1;
      }
    }

    // ---- what a change to one ring leaves alone ----

    ghost predicate AwayFromOrder(ls: set<Link>, o: seq<int>) {
      Within(o, |orderOf|) && ls !! Nodes(order, Links(orderOf, o))
    }

    ghost predicate AwayFromAvail(ls: set<Link>, v: seq<int>) {
      Within(v, |entries|) && ls !! Nodes(available, Links(entries, v))
    }

    // From all class lists but that of class k.
    ghost predicate AwayFromFree(ls: set<Link>, f: seq<seq<int>>, k: int) {
      |f| == |heads| && forall j :: 0 <= j < |f| && j != k ==> Within(f[j], |freeOf|) && ls !! Nodes(heads[j], Links(freeOf, f[j]))
    }

    ghost predicate FreeRings(f: seq<seq<int>>, k: int)
      reads nodes
    {
      |f| == |heads| && forall j :: 0 <= j < |f| && j != k ==> FreeRing(j, f[j])
    }

    lemma AwayOrder(ls: set<Link>, o: seq<int>)
      requires Laid() && Within(o, |orderOf|) && forall l :: l in ls ==> !OrderPlace(l.place)
      ensures AwayFromOrder(ls, o)
    {
      OrderPlaces(o);
      hide Nodes, Links, Laid;
    }

    lemma AwayAvail(ls: set<Link>, v: seq<int>)
      requires Laid() && Within(v, |entries|) && forall l :: l in ls ==> !AvailPlace(l.place)
      ensures AwayFromAvail(ls, v)
    {
      AvailPlaces(v);
      hide Nodes, Links, Laid;
    }

    lemma AwayFree(ls: set<Link>, f: seq<seq<int>>, k: int)
      requires Laid() && FreeRings(f, k)
      requires forall l, j :: l in ls && 0 <= j < |f| && j != k ==> !FreePlace(l.place, j, f[j])
      ensures AwayFromFree(ls, f, k)
    {
      forall j | 0 <= j < |f| && j != k ensures Within(f[j], |freeOf|) && ls !! Nodes(heads[j], Links(freeOf, f[j])) {
        assert FreeRing(j, f[j]);
        FreePlaces(j, f[j]);
        hide Nodes, Links, Laid, FreePlace, Ring;
      }
    }

    // ---- the class lists ----

    // The links of one class list, with that of x, are in no other ring.
    lemma FreeAway(o: seq<int>, f: seq<seq<int>>, v: seq<int>, k: int, x: int)
      requires Shows(o, f, v) && 0 <= k < |f| && 0 <= x < |freeOf| && forall j :: 0 <= j < |f| && j != k ==> x !in f[j]
      ensures FreeRing(k, f[k]) && FreeRings(f, k)
      ensures var ls := Nodes(heads[k], Links(freeOf, f[k])) + {freeOf[x]};
        ls <= nodes && AwayFromOrder(ls, o) && AwayFromAvail(ls, v) && AwayFromFree(ls, f, k)
    {
      assert FreeRing(k, f[k]);
      FreePlaces(k, f[k]);
      var ls := Nodes(heads[k], Links(freeOf, f[k])) + {freeOf[x]};
      assert forall l :: l in ls ==> l in nodes && (FreePlace(l.place, k, f[k]) || l.place == FreeEntry(x));
      forall l, j | l in ls && 0 <= j < |f| && j != k ensures !FreePlace(l.place, j, f[j]) {
        OtherPlace(f, k, x, l.place, j);
      }
      hide Nodes, Links, Ring;
      AwayOrder(ls, o);
      AwayAvail(ls, v);
      AwayFree(ls, f, k);
    }

    lemma OtherPlace(f: seq<seq<int>>, k: int, x: int, p: Place, j: int)
      requires Separate(f) && 0 <= k < |f| && 0 <= j < |f| && j != k && x !in f[j]
      requires FreePlace(p, k, f[k]) || p == FreeEntry(x)
      ensures !FreePlace(p, j, f[j])
    {
    }

    // The link of a block that is not on the list is not in its ring.
    lemma NotLinked(k: int, s: seq<int>, a: int)
      requires Laid() && 0 <= k < |heads| && Within(s, |freeOf|) && 0 <= a < |freeOf| && a !in s
      ensures freeOf[a] != heads[k] && freeOf[a] !in Links(freeOf, s)
    {
      assert freeOf[a].place != heads[k].place;
      forall i | 0 <= i < |s| ensures Links(freeOf, s)[i] != freeOf[a] {
        assert s[i] in s;
        assert Links(freeOf, s)[i].place == FreeEntry(s[i]);
      }
    }

    lemma ShowsFree(o: seq<int>, f: seq<seq<int>>, v: seq<int>, k: int, s: seq<int>)
      requires Laid() && 0 <= k < |f| && Separate(f) && OrderRing(o) && AvailRing(v) && FreeRings(f, k) && FreeRing(k, s)
      requires forall j, x :: 0 <= j < |f| && j != k && x in f[j] ==> x !in s
      ensures Shows(o, f[k := s], v)
    {
      hide OrderRing, AvailRing, FreeRing, Laid;
    }

    /** queue_insert_head on a class list. */
    method FileFirst(k: int, a: int, ghost o: seq<int>, ghost f: seq<seq<int>>, ghost v: seq<int>)
      requires Shows(o, f, v) && 0 <= k < |f| && 0 <= a < |freeOf| && forall j :: 0 <= j < |f| ==> a !in f[j]
      modifies nodes
      ensures Shows(o, f[k := [a] + f[k]], v)
    {
      FreeAway(o, f, v, k, a);
      NotLinked(k, f[k], a);
      assert Links(freeOf, [a] + f[k]) == [freeOf[a]] + Links(freeOf, f[k]);
      assert Within([a] + f[k], |freeOf|);
      LinkFirst(k, a, o, f, v);
      hide OrderRing, AvailRing, FreeRings, Laid, Within;
      ShowsFree(o, f, v, k, [a] + f[k]);
    }

    method LinkFirst(k: int, a: int, ghost o: seq<int>, ghost f: seq<seq<int>>, ghost v: seq<int>)
      requires Laid() && 0 <= k < |f| && 0 <= a < |freeOf| && OrderRing(o) && AvailRing(v) && FreeRings(f, k) && FreeRing(k, f[k])
      requires freeOf[a] != heads[k] && freeOf[a] !in Links(freeOf, f[k])
      requires var ls := Nodes(heads[k], Links(freeOf, f[k])) + {freeOf[a]};
        ls <= nodes && AwayFromOrder(ls, o) && AwayFromAvail(ls, v) && AwayFromFree(ls, f, k)
      modifies nodes
      ensures OrderRing(o) && AvailRing(v) && FreeRings(f, k) && Ring(heads[k], [freeOf[a]] + Links(freeOf, f[k]))
    {
      hide Links, Laid, Ring;
      InsertHead(heads[k], freeOf[a], Links(freeOf, f[k]));
      forall j | 0 <= j < |f| && j != k ensures FreeRing(j, f[j]) {
        assert old(FreeRing(j, f[j]));
      }
    }

    /** queue_remove on a class list. */
    method Unfile(k: int, a: int, ghost o: seq<int>, ghost f: seq<seq<int>>, ghost v: seq<int>)
      requires Shows(o, f, v) && 0 <= k < |f| && a in f[k]
      modifies nodes
      ensures Shows(o, f[k := Without(f[k], a)], v)
    {
      assert FreeRing(k, f[k]);
      WithoutAt(f[k], a);
      InsertedMembers(Without(f[k], a), f[k], a, Pos(f[k], a));
      LinksInserted(freeOf, Without(f[k], a), f[k], a, Pos(f[k], a));
      FreeAway(o, f, v, k, a);
      UnlinkFree(k, a, o, f, v, Without(f[k], a), Pos(f[k], a));
      hide OrderRing, AvailRing, FreeRings, Laid, Within, Without, Pos;
      ShowsFree(o, f, v, k, Without(f[k], a));
    }

    method UnlinkFree(k: int, a: int, ghost o: seq<int>, ghost f: seq<seq<int>>, ghost v: seq<int>, ghost t: seq<int>, ghost p: nat)
      requires Laid() && 0 <= k < |f| && 0 <= a < |freeOf| && OrderRing(o) && AvailRing(v) && FreeRings(f, k) && FreeRing(k, f[k])
      requires p < |f[k]| && Links(freeOf, f[k])[p] == freeOf[a] && Within(t, |freeOf|)
      requires Inserted(Links(freeOf, t), Links(freeOf, f[k]), freeOf[a], p)
      requires var ls := Nodes(heads[k], Links(freeOf, f[k])) + {freeOf[a]};
        ls <= nodes && AwayFromOrder(ls, o) && AwayFromAvail(ls, v) && AwayFromFree(ls, f, k)
      modifies nodes
      ensures OrderRing(o) && AvailRing(v) && FreeRings(f, k) && Ring(heads[k], Links(freeOf, t))
    {
      hide Links, Laid, Ring, Inserted;
      TakeOut(heads[k], freeOf[a], Links(freeOf, f[k]), Links(freeOf, t), p);
      forall j | 0 <= j < |f| && j != k ensures FreeRing(j, f[j]) {
        assert old(FreeRing(j, f[j]));
      }
    }

    // ---- the list of non-empty classes ----

    lemma AvailAway(o: seq<int>, f: seq<seq<int>>, v: seq<int>, k: int)
      requires Shows(o, f, v) && 0 <= k < |entries|
      ensures var ls := Nodes(available, Links(entries, v)) + {entries[k]};
        ls <= nodes && AwayFromOrder(ls, o) && AwayFromFree(ls, f, -1) && FreeRings(f, -1)
    {
      AvailPlaces(v);
      var ls := Nodes(available, Links(entries, v)) + {entries[k]};
      assert forall l :: l in ls ==> l in nodes && AvailPlace(l.place);
      hide Nodes, Links, Ring, Laid;
      AwayOrder(ls, o);
      AwayFree(ls, f, -1);
    }

    lemma EntryNotLinked(v: seq<int>, k: int)
      requires Laid() && Within(v, |entries|) && 0 <= k < |entries| && k !in v
      ensures entries[k] != available && entries[k] !in Links(entries, v)
    {
      assert entries[k].place != available.place;
      forall i | 0 <= i < |v| ensures Links(entries, v)[i] != entries[k] {
        assert v[i] in v;
        assert Links(entries, v)[i].place == AvailableEntry(v[i]);
      }
    }

    lemma ShowsAvail(o: seq<int>, f: seq<seq<int>>, v: seq<int>)
      requires Laid() && Separate(f) && OrderRing(o) && AvailRing(v) && FreeRings(f, -1)
      ensures Shows(o, f, v)
    {
    }

    /** queue_insert_before the entry of the next class, or queue_insert_tail. */
    method AddAvail(k: int, next: int, ghost o: seq<int>, ghost f: seq<seq<int>>, ghost v: seq<int>, ghost q: nat)
      requires Shows(o, f, v) && 0 <= k < |entries| && k !in v && q <= |v| && next == if q < |v| then v[q] else -1
      modifies nodes
      ensures Shows(o, f, v[..q] + [k] + v[q..])
    {
      ghost var t := v[..q] + [k] + v[q..];
      LinksInserted(entries, v, t, k, q);
      EntryNotLinked(v, k);
      AvailAway(o, f, v, k);
      ghost var e := At(available, Links(entries, v), q);
      assert next >= 0 ==> entries[next] == e;
      assert next < 0 ==> e == available && Links(entries, t) == Links(entries, v) + [entries[k]];
      LinkAvail(k, next, o, f, v, t, q);
      hide OrderRing, FreeRings, Laid;
      ShowsAvail(o, f, t);
    }

    method LinkAvail(k: int, next: int, ghost o: seq<int>, ghost f: seq<seq<int>>, ghost v: seq<int>, ghost t: seq<int>, ghost q: nat)
      requires Laid() && OrderRing(o) && AvailRing(v) && FreeRings(f, -1) && 0 <= k < |entries| && next < |entries|
      requires entries[k] != available && entries[k] !in Links(entries, v) && Within(t, |entries|)
      requires Inserted(Links(entries, v), Links(entries, t), entries[k], q)
      requires next >= 0 ==> entries[next] == At(available, Links(entries, v), q)
      requires next < 0 ==> Links(entries, t) == Links(entries, v) + [entries[k]]
      requires var ls := Nodes(available, Links(entries, v)) + {entries[k]}; ls <= nodes && AwayFromOrder(ls, o) && AwayFromFree(ls, f, -1)
      modifies nodes
      ensures OrderRing(o) && FreeRings(f, -1) && Ring(available, Links(entries, t))
    {
      hide Links, Laid, Ring, Inserted, At;
      if next >= 0 {
        PutBefore(available, entries[next], entries[k], Links(entries, v), Links(entries, t), q);
      } else {
        InsertTail(available, entries[k], Links(entries, v));
      }
      forall j | 0 <= j < |f| ensures FreeRing(j, f[j]) {
        assert old(FreeRing(j, f[j]));
      }
    }

    /** queue_remove on the list of non-empty classes. */
    method DropAvail(k: int, ghost o: seq<int>, ghost f: seq<seq<int>>, ghost v: seq<int>)
      requires Shows(o, f, v) && k in v
      modifies nodes
      ensures Shows(o, f, Without(v, k))
    {
      ghost var t, p := Without(v, k), Pos(v, k);
      WithoutAt(v, k);
      LinksInserted(entries, t, v, k, p);
      AvailAway(o, f, v, k);
      UnlinkAvail(k, o, f, v, t, p);
      hide OrderRing, FreeRings, Laid;
      ShowsAvail(o, f, t);
    }

    method UnlinkAvail(k: int, ghost o: seq<int>, ghost f: seq<seq<int>>, ghost v: seq<int>, ghost t: seq<int>, ghost p: nat)
      requires Laid() && OrderRing(o) && AvailRing(v) && FreeRings(f, -1) && 0 <= k < |entries|
      requires p < |v| && Links(entries, v)[p] == entries[k] && Within(t, |entries|)
      requires Inserted(Links(entries, t), Links(entries, v), entries[k], p)
      requires var ls := Nodes(available, Links(entries, v)) + {entries[k]}; ls <= nodes && AwayFromOrder(ls, o) && AwayFromFree(ls, f, -1)
      modifies nodes
      ensures OrderRing(o) && FreeRings(f, -1) && Ring(available, Links(entries, t))
    {
      hide Links, Laid, Ring, Inserted;
      TakeOut(available, entries[k], Links(entries, v), Links(entries, t), p);
      forall j | 0 <= j < |f| ensures FreeRing(j, f[j]) {
        assert old(FreeRing(j, f[j]));
      }
    }

    // ---- the block list ----

    lemma OrderAway(o: seq<int>, f: seq<seq<int>>, v: seq<int>, a: int)
      requires Shows(o, f, v) && 0 <= a < |orderOf|
      ensures var ls := Nodes(order, Links(orderOf, o)) + {orderOf[a]};
        ls <= nodes && AwayFromAvail(ls, v) && AwayFromFree(ls, f, -1) && FreeRings(f, -1)
    {
      OrderPlaces(o);
      var ls := Nodes(order, Links(orderOf, o)) + {orderOf[a]};
      assert forall l :: l in ls ==> l in nodes && OrderPlace(l.place);
      hide Nodes, Links, Ring, Laid;
      AwayAvail(ls, v);
      AwayFree(ls, f, -1);
    }

    lemma BlockNotLinked(o: seq<int>, a: int)
      requires Laid() && Within(o, |orderOf|) && 0 <= a < |orderOf| && a !in o
      ensures orderOf[a] != order && orderOf[a] !in Links(orderOf, o)
    {
      assert orderOf[a].place != order.place;
      forall i | 0 <= i < |o| ensures Links(orderOf, o)[i] != orderOf[a] {
        assert o[i] in o;
        assert Links(orderOf, o)[i].place == OrderEntry(o[i]);
      }
    }

    /** queue_insert_head on the empty block list. */
    method FirstBlock(a: int, ghost f: seq<seq<int>>, ghost v: seq<int>)
      requires Shows([], f, v) && 0 <= a < |orderOf|
      modifies nodes
      ensures Shows([a], f, v)
    {
      BlockNotLinked([], a);
      OrderAway([], f, v, a);
      assert Links(orderOf, [a]) == [orderOf[a]] + Links(orderOf, []);
      LinkBlock(a, f, v);
      hide AvailRing, FreeRings, Laid;
      ShowsAvail([a], f, v);
    }

    method LinkBlock(a: int, ghost f: seq<seq<int>>, ghost v: seq<int>)
      requires Laid() && OrderRing([]) && AvailRing(v) && FreeRings(f, -1) && 0 <= a < |orderOf|
      requires orderOf[a] != order && orderOf[a] !in Links(orderOf, [])
      requires var ls := Nodes(order, Links(orderOf, [])) + {orderOf[a]}; ls <= nodes && AwayFromAvail(ls, v) && AwayFromFree(ls, f, -1)
      modifies nodes
      ensures AvailRing(v) && FreeRings(f, -1) && Ring(order, [orderOf[a]] + Links(orderOf, []))
    {
      hide Links, Laid, Ring;
      InsertHead(order, orderOf[a], Links(orderOf, []));
      forall j | 0 <= j < |f| ensures FreeRing(j, f[j]) {
        assert old(FreeRing(j, f[j]));
      }
    }

    /** The link work of a block split: b comes right behind a. */
    method SplitBlock(a: int, b: int, ghost o: seq<int>, ghost f: seq<seq<int>>, ghost v: seq<int>, ghost i: nat)
      requires Shows(o, f, v) && i < |o| && o[i] == a && 0 <= b < |orderOf| && b !in o
      modifies nodes
      ensures Shows(o[..i] + [a, b] + o[i + 1..], f, v)
    {
      ghost var t := o[..i] + [a, b] + o[i + 1..];
      LinksInserted(orderOf, o, t, b, i + 1);
      BlockNotLinked(o, b);
      OrderAway(o, f, v, b);
      LinkSplit(a, b, o, f, v, t, i);
      hide AvailRing, FreeRings, Laid;
      ShowsAvail(t, f, v);
    }

    method LinkSplit(a: int, b: int, ghost o: seq<int>, ghost f: seq<seq<int>>, ghost v: seq<int>, ghost t: seq<int>, ghost i: nat)
      requires Laid() && OrderRing(o) && AvailRing(v) && FreeRings(f, -1) && 0 <= a < |orderOf| && 0 <= b < |orderOf|
      requires orderOf[b] != order && orderOf[b] !in Links(orderOf, o) && Within(t, |orderOf|)
      requires i < |o| && Links(orderOf, o)[i] == orderOf[a] && Inserted(Links(orderOf, o), Links(orderOf, t), orderOf[b], i + 1)
      requires var ls := Nodes(order, Links(orderOf, o)) + {orderOf[b]}; ls <= nodes && AwayFromAvail(ls, v) && AwayFromFree(ls, f, -1)
      modifies nodes
      ensures AvailRing(v) && FreeRings(f, -1) && Ring(order, Links(orderOf, t))
    {
      hide Links, Laid, Ring, Inserted;
      SplitOff(order, orderOf[a], orderOf[b], Links(orderOf, o), Links(orderOf, t), i);
      forall j | 0 <= j < |f| ensures FreeRing(j, f[j]) {
        assert old(FreeRing(j, f[j]));
      }
    }

    /** queue_remove on the block list. */
    method DropBlock(a: int, ghost o: seq<int>, ghost f: seq<seq<int>>, ghost v: seq<int>, ghost i: nat)
      requires Shows(o, f, v) && i < |o| && o[i] == a
      modifies nodes
      ensures Shows(o[..i] + o[i + 1..], f, v)
    {
      ghost var t := o[..i] + o[i + 1..];
      LinksInserted(orderOf, t, o, a, i);
      OrderAway(o, f, v, a);
      UnlinkBlock(a, o, f, v, t, i);
      hide AvailRing, FreeRings, Laid;
      ShowsAvail(t, f, v);
    }

    method UnlinkBlock(a: int, ghost o: seq<int>, ghost f: seq<seq<int>>, ghost v: seq<int>, ghost t: seq<int>, ghost i: nat)
      requires Laid() && OrderRing(o) && AvailRing(v) && FreeRings(f, -1) && 0 <= a < |orderOf|
      requires i < |o| && Links(orderOf, o)[i] == orderOf[a] && Within(t, |orderOf|)
      requires Inserted(Links(orderOf, t), Links(orderOf, o), orderOf[a], i)
      requires var ls := Nodes(order, Links(orderOf, o)) + {orderOf[a]}; ls <= nodes && AwayFromAvail(ls, v) && AwayFromFree(ls, f, -1)
      modifies nodes
      ensures AvailRing(v) && FreeRings(f, -1) && Ring(order, Links(orderOf, t))
    {
      hide Links, Laid, Ring, Inserted;
      TakeOut(order, orderOf[a], Links(orderOf, o), Links(orderOf, t), i);
      forall j | 0 <= j < |f| ensures FreeRing(j, f[j]) {
        assert old(FreeRing(j, f[j]));
      }
    }

    lemma Sizes(o: seq<int>, f: seq<seq<int>>, v: seq<int>)
      requires Shows(o, f, v)
      ensures |orderOf| == |freeOf| && |entries| == |heads| == |f|
    {
    }

    // A block of the list is in the segment.
    lemma InSegment(o: seq<int>, f: seq<seq<int>>, v: seq<int>, i: int)
      requires Shows(o, f, v) && 0 <= i < |o|
      ensures 0 <= o[i] < |freeOf|
    {
    }

    // ---- walking the rings; -1 stands for the head ----

    lemma DataAt(of: seq<Link>, h: Link, s: seq<int>, i: int)
      requires Within(s, |of|) && (h.place.OrderHead? || h.place.AvailableHead? || h.place.FreeHead?)
      requires forall a :: 0 <= a < |of| ==> DataOf(of[a]) == a
      ensures DataOf(At(h, Links(of, s), i)) == Nth(s, i) && (Nth(s, i) < 0 <==> !(0 <= i < |s|))
    {
    }

    method FreeEmpty(k: int, ghost o: seq<int>, ghost f: seq<seq<int>>, ghost v: seq<int>) returns (b: bool)
      requires Shows(o, f, v) && 0 <= k < |f|
      ensures b <==> f[k] == []
    {
      assert FreeRing(k, f[k]);
      b := IsEmpty(heads[k], Links(freeOf, f[k]));
    }

    method FreeFirst(k: int, ghost o: seq<int>, ghost f: seq<seq<int>>, ghost v: seq<int>) returns (a: int)
      requires Shows(o, f, v) && 0 <= k < |f|
      ensures a == Nth(f[k], 0) && (a < 0 <==> f[k] == [])
    {
      assert FreeRing(k, f[k]);
      DataAt(freeOf, heads[k], f[k], 0);
      a := DataOf(heads[k].next);
    }

    method FreeNext(k: int, a: int, ghost o: seq<int>, ghost f: seq<seq<int>>, ghost v: seq<int>, ghost i: int) returns (b: int)
      requires Shows(o, f, v) && 0 <= k < |f| && 0 <= i < |f[k]| && f[k][i] == a
      ensures b == Nth(f[k], i + 1) && (b < 0 <==> i + 1 == |f[k]|)
    {
      assert FreeRing(k, f[k]);
      DataAt(freeOf, heads[k], f[k], i + 1);
      assert Links(freeOf, f[k])[i] == freeOf[a];
      b := DataOf(freeOf[a].next);
    }

    method AvailEmpty(ghost o: seq<int>, ghost f: seq<seq<int>>, ghost v: seq<int>) returns (b: bool)
      requires Shows(o, f, v)
      ensures b <==> v == []
    {
      b := IsEmpty(available, Links(entries, v));
    }

    method AvailFirst(ghost o: seq<int>, ghost f: seq<seq<int>>, ghost v: seq<int>) returns (k: int)
      requires Shows(o, f, v)
      ensures k == Nth(v, 0) && (k < 0 <==> v == [])
    {
      DataAt(entries, available, v, 0);
      k := DataOf(available.next);
    }

    method AvailLast(ghost o: seq<int>, ghost f: seq<seq<int>>, ghost v: seq<int>) returns (k: int)
      requires Shows(o, f, v)
      ensures k == Nth(v, |v| - 1)
    {
      DataAt(entries, available, v, |v| - 1);
      k := DataOf(available.prev);
    }

    method AvailNext(k: int, ghost o: seq<int>, ghost f: seq<seq<int>>, ghost v: seq<int>, ghost i: int) returns (j: int)
      requires Shows(o, f, v) && 0 <= i < |v| && v[i] == k
      ensures j == Nth(v, i + 1) && (j < 0 <==> i + 1 == |v|)
    {
      DataAt(entries, available, v, i + 1);
      assert Links(entries, v)[i] == entries[k];
      j := DataOf(entries[k].next);
    }

    method AvailPrev(k: int, ghost o: seq<int>, ghost f: seq<seq<int>>, ghost v: seq<int>, ghost i: int) returns (j: int)
      requires Shows(o, f, v) && 0 <= i < |v| && v[i] == k
      ensures j == Nth(v, i - 1) && (j < 0 <==> i == 0)
    {
      DataAt(entries, available, v, i - 1);
      assert Links(entries, v)[i] == entries[k];
      j := DataOf(entries[k].prev);
    }

    method OrderNext(a: int, ghost o: seq<int>, ghost f: seq<seq<int>>, ghost v: seq<int>, ghost i: int) returns (b: int)
      requires Shows(o, f, v) && 0 <= i < |o| && o[i] == a
      ensures b == Nth(o, i + 1) && (b < 0 <==> i + 1 == |o|)
    {
      DataAt(orderOf, order, o, i + 1);
      assert Links(orderOf, o)[i] == orderOf[a];
      b := DataOf(orderOf[a].next);
    }

    method OrderPrev(a: int, ghost o: seq<int>, ghost f: seq<seq<int>>, ghost v: seq<int>, ghost i: int) returns (b: int)
      requires Shows(o, f, v) && 0 <= i < |o| && o[i] == a
      ensures b == Nth(o, i - 1) && (b < 0 <==> i == 0)
    {
      DataAt(orderOf, order, o, i - 1);
      assert Links(orderOf, o)[i] == orderOf[a];
      b := DataOf(orderOf[a].prev);
    }
  }

  // ---- ring operations, framed by the whole ring ----

  lemma AtInNodes(h: Link, s: seq<Link>, i: int)
    ensures At(h, s, i) in Nodes(h, s)
  {
  }

  method TakeOut(h: Link, x: Link, ghost s: seq<Link>, ghost t: seq<Link>, ghost p: nat)
    requires Ring(h, s) && p < |s| && s[p] == x && Inserted(t, s, x, p)
    modifies Nodes(h, s)
    ensures Ring(h, t)
  {
    AtInNodes(h, s, p - 1);
    AtInNodes(h, s, p);
    AtInNodes(h, s, p + 1);
    hide Ring, Inserted;
    Remove(h, x, s, t, p);
  }

  method PutBefore(h: Link, e: Link, x: Link, ghost s: seq<Link>, ghost t: seq<Link>, ghost p: nat)
    requires Ring(h, s) && x != h && x !in s && Inserted(s, t, x, p) && e == At(h, s, p)
    modifies Nodes(h, s), x
    ensures Ring(h, t)
  {
    AtInNodes(h, s, p - 1);
    AtInNodes(h, s, p);
    hide Ring, Inserted;
    InsertBefore(h, e, x, s, t, p);
  }

  method SplitOff(h: Link, st: Link, nu: Link, ghost s: seq<Link>, ghost t: seq<Link>, ghost p: nat)
    requires Ring(h, s) && nu != h && nu !in s && p < |s| && s[p] == st && Inserted(s, t, nu, p + 1)
    modifies Nodes(h, s), nu
    ensures Ring(h, t)
  {
    AtInNodes(h, s, p - 1);
    AtInNodes(h, s, p);
    AtInNodes(h, s, p + 1);
    hide Ring, Inserted;
    SplitLink(h, st, nu, s, t, p);
  }
}

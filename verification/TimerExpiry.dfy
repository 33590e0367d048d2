/** What event_timers_expire does to the queue when the handlers of the fired timers arm and cancel
    any timers, and which of the due timers fire. */
module TimerExpiry {
  import opened RBAlgebra
  import opened RBOrder
  import opened RBSplice
  import opened TimerQueue

  // A timer operation of a handler.
  datatype Act<N> = Arm(x: N, delay: int) | Cancel(x: N)

  // One pass of the loop: the clock, and what the handler of the fired timer does.
  datatype Turn<N> = Turn(now: int, acts: seq<Act<N>>)

  // The timer of x is set, and the lazy test keeps its deadline.
  predicate KeptIn<N(==)>(s: seq<Item<N>>, x: N, key: int) {
    s != [] && ((s[0].x == x && Kept(key - s[0].key)) || KeptIn(s[1..], x, key))
  }

  function Step<N(==)>(s: seq<Item<N>>, now: int, a: Act<N>): seq<Item<N>> {
    match a
    case Arm(x, delay) => if KeptIn(s, x, now + delay) then s else Placed(Without(s, x), Item(x, now + delay))
    case Cancel(x) => Without(s, x)
  }

  function Steps<N(==)>(s: seq<Item<N>>, now: int, acts: seq<Act<N>>): seq<Item<N>>
    decreases |acts|
  {
    if acts == [] then s else Steps(Step(s, now, acts[0]), now, acts[1..])
  }

  // The turn of the next pass; when none is left the clock stands and handlers do nothing.
  function Head<N>(turns: seq<Turn<N>>, now: int): Turn<N> {
    if turns == [] then Turn(now, []) else turns[0]
  }

  function Tail<N>(turns: seq<Turn<N>>): seq<Turn<N>> {
    if turns == [] then [] else turns[1..]
  }

  /** event_timers_expire: the items fired, in order, and the queue that is left. */
  function Expired<N(==)>(s: seq<Item<N>>, turns: seq<Turn<N>>, now: int): (seq<Item<N>>, seq<Item<N>>)
    decreases |turns|, |s|
  {
    var t := Head(turns, now);
    if s == [] || t.now < s[0].key then ([], s)
    else
      var (f, l) := Expired(Steps(s[1..], t.now, t.acts), Tail(turns), now);
      ([s[0]] + f, l)
  }

  // One pass of the loop, as the function has it; done has fired before.
  lemma NextTurn<N>(s: seq<Item<N>>, turns: seq<Turn<N>>, now: int, done: seq<Item<N>>)
    ensures var t := Head(turns, now);
      && (s == [] || t.now < s[0].key ==> Expired(s, turns, now) == ([], s) && done + [] == done)
      && (s != [] && s[0].key <= t.now ==>
           var n := Expired(Steps(s[1..], t.now, t.acts), Tail(turns), now);
           && done + Expired(s, turns, now).0 == (done + [s[0]]) + n.0 && Expired(s, turns, now).1 == n.1
           && (turns == [] ==> Steps(s[1..], t.now, t.acts) == s[1..]))
  {
  }

  // ---- the lazy test on a queue ----

  lemma {:induction false} KeptInNone<N>(s: seq<Item<N>>, x: N, key: int)
    requires x !in Nodes(s)
    ensures !KeptIn(s, x, key)
  {
    if s != [] {
      assert s == [s[0]] + s[1..];
      NodesConcat([s[0]], s[1..]);
      assert s[0] in s;
      KeptInNone(s[1..], x, key);
    }
  }

  lemma {:induction false} KeptInConcat<N>(s: seq<Item<N>>, t: seq<Item<N>>, x: N, key: int)
    ensures KeptIn(s + t, x, key) <==> KeptIn(s, x, key) || KeptIn(t, x, key)
  {
    if s == [] {
      assert s + t == t;
    } else {
      assert (s + t)[0] == s[0] && (s + t)[1..] == s[1..] + t;
      KeptInConcat(s[1..], t, x, key);
    }
  }

  lemma NotIn<N>(s: seq<Item<N>>, x: N)
    requires forall i :: 0 <= i < |s| ==> s[i].x != x
    ensures x !in Nodes(s)
  {
  }

  lemma TailDistinct<N>(s: seq<Item<N>>)
    requires Distinct(s) && s != []
    ensures Distinct(s[1..]) && s[0].x !in Nodes(s[1..])
  {
    NotIn(s[1..], s[0].x);
  }

  // In a queue without repetition the item of x decides.
  lemma {:induction false} KeptInOne<N>(s: seq<Item<N>>, e: Item<N>, key: int)
    requires Distinct(s) && e in s
    ensures KeptIn(s, e.x, key) <==> Kept(key - e.key)
  {
    TailDistinct(s);
    if s[0] == e {
      KeptInNone(s[1..], e.x, key);
    } else {
      assert e in s[1..];
      assert e.x in Nodes(s[1..]);
      KeptInOne(s[1..], e, key);
    }
  }

  // ---- subsequences ----

  // s is t with some items left out.
  predicate Sub<T(==)>(s: seq<T>, t: seq<T>) {
    s == [] || (t != [] && ((s[0] == t[0] && Sub(s[1..], t[1..])) || Sub(s, t[1..])))
  }

  lemma {:induction false} SubSelf<T>(s: seq<T>)
    ensures Sub(s, s)
  {
    if s != [] {
      SubSelf(s[1..]);
    }
  }

  lemma {:induction false} SubTrans<T>(s: seq<T>, t: seq<T>, u: seq<T>)
    requires Sub(s, t) && Sub(t, u)
    ensures Sub(s, u)
    decreases |s| + |t| + |u|
  {
    if s != [] {
      if t[0] == u[0] && Sub(t[1..], u[1..]) {
        if s[0] == t[0] && Sub(s[1..], t[1..]) {
          SubTrans(s[1..], t[1..], u[1..]);
        } else {
          SubTrans(s, t[1..], u[1..]);
        }
      } else {
        SubTrans(s, t, u[1..]);
      }
    }
  }

  lemma {:induction false} SubIn<T>(s: seq<T>, t: seq<T>, x: T)
    requires Sub(s, t) && x in s
    ensures x in t
    decreases |t|
  {
    if s[0] == t[0] && Sub(s[1..], t[1..]) {
      if x != s[0] {
        SubIn(s[1..], t[1..], x);
      }
    } else {
      SubIn(s, t[1..], x);
    }
  }

  // a comes before b in s.
  predicate Precedes<T(==)>(s: seq<T>, a: T, b: T) {
    s != [] && ((s[0] == a && b in s[1..]) || Precedes(s[1..], a, b))
  }

  lemma {:induction false} PrecedesIn<T>(s: seq<T>, a: T, b: T)
    requires Precedes(s, a, b)
    ensures a in s && b in s[1..]
  {
    if !(s[0] == a && b in s[1..]) {
      PrecedesIn(s[1..], a, b);
    }
  }

  // No item twice.
  ghost predicate Once<T>(s: seq<T>) {
    forall i, j :: 0 <= i < j < |s| ==> s[i] != s[j]
  }

  lemma OnceTail<T>(s: seq<T>)
    requires Once(s) && s != []
    ensures Once(s[1..]) && s[0] !in s[1..]
  {
  }

  lemma {:induction false} SubPrecedes<T>(s: seq<T>, t: seq<T>, a: T, b: T)
    requires Sub(s, t) && Precedes(s, a, b)
    ensures Precedes(t, a, b)
    decreases |t|
  {
    if s[0] == t[0] && Sub(s[1..], t[1..]) {
      if s[0] == a && b in s[1..] {
        SubIn(s[1..], t[1..], b);
      } else {
        SubPrecedes(s[1..], t[1..], a, b);
      }
    } else {
      SubPrecedes(s, t[1..], a, b);
    }
  }

  lemma {:induction false} PrecedesSub<T>(s: seq<T>, t: seq<T>, a: T, b: T)
    requires Sub(s, t) && Once(t) && Precedes(t, a, b) && a in s && b in s
    ensures Precedes(s, a, b)
    decreases |t|
  {
    OnceTail(t);
    if s[0] == t[0] && Sub(s[1..], t[1..]) {
      assert s == [s[0]] + s[1..];
      if t[0] == a && b in t[1..] {
        assert b != s[0];
      } else {
        PrecedesIn(t[1..], a, b);
        PrecedesSub(s[1..], t[1..], a, b);
      }
    } else {
      SubIn(s, t[1..], a);
      PrecedesSub(s, t[1..], a, b);
    }
  }

  // ---- the due part of a queue ----

  // What is left of the due items after an operation: one cancelled or moved to later is gone.
  function Keep<N(==)>(p: seq<Item<N>>, now: int, a: Act<N>): seq<Item<N>> {
    if a.Arm? && KeptIn(p, a.x, now + a.delay) then p else Without(p, a.x)
  }

  function Keeps<N(==)>(p: seq<Item<N>>, now: int, acts: seq<Act<N>>): seq<Item<N>>
    decreases |acts|
  {
    if acts == [] then p else Keeps(Keep(p, now, acts[0]), now, acts[1..])
  }

  // The due items that fire: the first one, and those its handler leaves, in turn.
  function Surviving<N(==)>(p: seq<Item<N>>, turns: seq<Turn<N>>, now: int): seq<Item<N>>
    decreases |turns|, |p|
  {
    if p == [] then [] else [p[0]] + Surviving(Keeps(p[1..], now, Head(turns, now).acts), Tail(turns), now)
  }

  lemma {:induction false} WithoutSub<N>(s: seq<Item<N>>, n: N)
    ensures Sub(Without(s, n), s)
  {
    if s != [] {
      WithoutSub(s[1..], n);
      var w := Without(s[1..], n);
      assert ([s[0]] + w)[1..] == w && [] + w == w;
    }
  }

  lemma {:induction false} KeepsSub<N>(p: seq<Item<N>>, now: int, acts: seq<Act<N>>)
    ensures Sub(Keeps(p, now, acts), p)
    decreases |acts|
  {
    SubSelf(p);
    if acts != [] {
      WithoutSub(p, acts[0].x);
      KeepsSub(Keep(p, now, acts[0]), now, acts[1..]);
      SubTrans(Keeps(p, now, acts), Keep(p, now, acts[0]), p);
    }
  }

  /** Those that fire are due ones, in order of their deadlines, each once. */
  lemma {:induction false} SurvivingSub<N>(p: seq<Item<N>>, turns: seq<Turn<N>>, now: int)
    ensures Sub(Surviving(p, turns, now), p)
    decreases |turns|, |p|
  {
    if p != [] {
      var t := Keeps(p[1..], now, Head(turns, now).acts);
      SurvivingSub(t, Tail(turns), now);
      KeepsSub(p[1..], now, Head(turns, now).acts);
      SubTrans(Surviving(t, Tail(turns), now), t, p[1..]);
      assert ([p[0]] + Surviving(t, Tail(turns), now))[1..] == Surviving(t, Tail(turns), now);
    }
  }

  // ---- one operation on a queue with due items p and later ones r ----

  ghost predicate Split<N>(p: seq<Item<N>>, r: seq<Item<N>>, now: int) {
    Distinct(p + r) && AllLe(p, now) && AllGt(r, now)
  }

  lemma {:induction false} SubAllLe<N>(s: seq<Item<N>>, t: seq<Item<N>>, now: int)
    requires Sub(s, t) && AllLe(t, now)
    ensures AllLe(s, now)
  {
    forall i | 0 <= i < |s| ensures s[i].key <= now {
      SubIn(s, t, s[i]);
    }
  }

  lemma {:induction false} WithoutDistinct<N>(s: seq<Item<N>>, n: N)
    requires Distinct(s)
    ensures Distinct(Without(s, n)) && n !in Nodes(Without(s, n)) && Nodes(Without(s, n)) <= Nodes(s)
  {
    if s != [] {
      TailDistinct(s);
      WithoutDistinct(s[1..], n);
      assert s == [s[0]] + s[1..];
      NodesConcat([s[0]], s[1..]);
      var w := Without(s[1..], n);
      if s[0].x != n {
        NodesConcat([s[0]], w);
        assert [] + [s[0]] + w == [s[0]] + w;
        JoinDistinct([], s[0], w);
      } else {
        assert [] + w == w;
      }
    }
  }

  lemma {:induction false} PlacedSplits<N>(s: seq<Item<N>>, e: Item<N>) returns (a: seq<Item<N>>, b: seq<Item<N>>)
    ensures s == a + b && Placed(s, e) == a + [e] + b
  {
    if s == [] || e.key < s[0].key {
      a, b := [], s;
      assert [] + s == s && [] + [e] + s == [e] + s;
    } else {
      a, b := PlacedSplits(s[1..], e);
      assert s == [s[0]] + s[1..];
      assert [s[0]] + (a + b) == ([s[0]] + a) + b && [s[0]] + (a + [e] + b) == ([s[0]] + a) + [e] + b;
      a := [s[0]] + a;
    }
  }

  lemma PlacedDistinct<N>(s: seq<Item<N>>, e: Item<N>)
    requires Distinct(s) && e.x !in Nodes(s)
    ensures Distinct(Placed(s, e))
  {
    var a, b := PlacedSplits(s, e);
    NodesConcat(a, b);
    PartsDistinct(a, b);
    JoinDistinct(a, e, b);
  }

  lemma PartsDistinct<N>(a: seq<Item<N>>, b: seq<Item<N>>)
    requires Distinct(a + b)
    ensures Distinct(a) && Distinct(b) && Nodes(a) !! Nodes(b)
  {
    assert forall i :: 0 <= i < |a| ==> (a + b)[i] == a[i];
    assert forall i :: 0 <= i < |b| ==> (a + b)[|a| + i] == b[i];
    forall x | x in Nodes(a) ensures x !in Nodes(b) {
      var e :| e in a && e.x == x;
      var i :| 0 <= i < |a| && a[i] == e;
      forall j | 0 <= j < |b| ensures b[j].x != x {
        assert (a + b)[i].x != (a + b)[|a| + j].x;
      }
      NotIn(b, x);
    }
  }

  lemma StepDistinct<N>(s: seq<Item<N>>, now: int, a: Act<N>)
    requires Distinct(s)
    ensures Distinct(Step(s, now, a))
  {
    WithoutDistinct(s, a.x);
    if a.Arm? {
      PlacedDistinct(Without(s, a.x), Item(a.x, now + a.delay));
    }
  }

  lemma StepSplits<N>(p: seq<Item<N>>, r: seq<Item<N>>, now: int, a: Act<N>) returns (r': seq<Item<N>>)
    requires Split(p, r, now) && (a.Arm? ==> a.delay > 0)
    ensures Step(p + r, now, a) == Keep(p, now, a) + r' && Split(Keep(p, now, a), r', now)
  {
    var w := Without(r, a.x);
    StepDistinct(p + r, now, a);
    WithoutConcat(p, r, a.x);
    WithoutGt(r, a.x, now);
    WithoutSub(p, a.x);
    SubAllLe(Without(p, a.x), p, now);
    r' := w;
    if a.Arm? {
      var e := Item(a.x, now + a.delay);
      KeptInConcat(p, r, a.x, e.key);
      if KeptIn(p + r, a.x, e.key) {
        r' := r;
        if !KeptIn(p, a.x, e.key) {
          KeptElsewhere(p, r, a.x, e.key);
        }
      } else {
        r' := Placed(w, e);
        PlacedAfter(Without(p, a.x), w, e, now);
        PlacedGt(w, e, now);
      }
    }
  }

  lemma KeptElsewhere<N>(p: seq<Item<N>>, r: seq<Item<N>>, x: N, key: int)
    requires Distinct(p + r) && KeptIn(r, x, key)
    ensures Without(p, x) == p
  {
    PartsDistinct(p, r);
    if x !in Nodes(r) {
      KeptInNone(r, x, key);
    }
    WithoutNone(p, x);
  }

  ghost predicate Later<N>(acts: seq<Act<N>>) {
    forall i :: 0 <= i < |acts| && acts[i].Arm? ==> acts[i].delay > 0
  }

  lemma {:induction false} StepsSplit<N>(p: seq<Item<N>>, r: seq<Item<N>>, now: int, acts: seq<Act<N>>) returns (r': seq<Item<N>>)
    requires Split(p, r, now) && Later(acts)
    ensures Steps(p + r, now, acts) == Keeps(p, now, acts) + r' && Split(Keeps(p, now, acts), r', now)
    decreases |acts|
  {
    r' := r;
    if acts != [] {
      hide Split, Step, Keep;
      r' := StepSplits(p, r, now, acts[0]);
      r' := StepsSplit(Keep(p, now, acts[0]), r', now, acts[1..]);
    }
  }

  // The clock stands at now, and timers are armed for later.
  ghost predicate Steady<N>(turns: seq<Turn<N>>, now: int) {
    forall k :: 0 <= k < |turns| ==> turns[k].now == now && Later(turns[k].acts)
  }

  lemma {:induction false} ExpiredSurviving<N>(p: seq<Item<N>>, r: seq<Item<N>>, turns: seq<Turn<N>>, now: int)
    requires Split(p, r, now) && Steady(turns, now)
    ensures Expired(p + r, turns, now).0 == Surviving(p, turns, now)
    decreases |turns|, |p|
  {
    if p == [] {
      assert p + r == r;
    } else {
      assert (p + r)[0] == p[0] && (p + r)[1..] == p[1..] + r;
      SplitTail(p, r, now);
      var t := Head(turns, now);
      var r' := StepsSplit(p[1..], r, now, t.acts);
      ExpiredSurviving(Keeps(p[1..], now, t.acts), r', Tail(turns), now);
    }
  }

  lemma SplitTail<N>(p: seq<Item<N>>, r: seq<Item<N>>, now: int)
    requires Split(p, r, now) && p != []
    ensures Split(p[1..], r, now)
  {
    assert (p + r)[1..] == p[1..] + r;
    TailDistinct(p + r);
  }

  // ---- which due timers fire ----

  // The handler cancels the timer of e or moves it.
  predicate Drop<N(==)>(a: Act<N>, e: Item<N>, now: int) {
    a.x == e.x && (a.Cancel? || !Kept(now + a.delay - e.key))
  }

  predicate Drops<N(==)>(acts: seq<Act<N>>, e: Item<N>, now: int) {
    acts != [] && (Drop(acts[0], e, now) || Drops(acts[1..], e, now))
  }

  function ActsAt<N>(turns: seq<Turn<N>>, k: int): seq<Act<N>> {
    if 0 <= k < |turns| then turns[k].acts else []
  }

  lemma {:induction false} WithoutMember<N>(s: seq<Item<N>>, n: N, e: Item<N>)
    ensures e in Without(s, n) <==> e in s && e.x != n
  {
    if s != [] {
      assert s == [s[0]] + s[1..];
      WithoutMember(s[1..], n, e);
    }
  }

  lemma KeepExactly<N>(p: seq<Item<N>>, now: int, a: Act<N>, e: Item<N>)
    requires Distinct(p) && e in p
    ensures e in Keep(p, now, a) <==> !Drop(a, e, now)
    ensures Distinct(Keep(p, now, a))
  {
    WithoutMember(p, a.x, e);
    WithoutDistinct(p, a.x);
    if a.Arm? && a.x == e.x {
      KeptInOne(p, e, now + a.delay);
    }
  }

  lemma {:induction false} KeepsExactly<N>(p: seq<Item<N>>, now: int, acts: seq<Act<N>>, e: Item<N>)
    requires Distinct(p) && e in p
    ensures e in Keeps(p, now, acts) <==> !Drops(acts, e, now)
    decreases |acts|
  {
    if acts != [] {
      KeepExactly(p, now, acts[0], e);
      if Drop(acts[0], e, now) {
        if e in Keeps(p, now, acts) {
          KeepsSub(Keep(p, now, acts[0]), now, acts[1..]);
          SubIn(Keeps(p, now, acts), Keep(p, now, acts[0]), e);
        }
      } else {
        KeepsExactly(Keep(p, now, acts[0]), now, acts[1..], e);
      }
    }
  }

  lemma {:induction false} KeepsDistinct<N>(p: seq<Item<N>>, now: int, acts: seq<Act<N>>)
    requires Distinct(p)
    ensures Distinct(Keeps(p, now, acts))
    decreases |acts|
  {
    if acts != [] {
      WithoutDistinct(p, acts[0].x);
      KeepsDistinct(Keep(p, now, acts[0]), now, acts[1..]);
    }
  }

  // The handler that ran k-th, of a timer due before e, takes e off.
  ghost predicate Stopped<N>(p: seq<Item<N>>, turns: seq<Turn<N>>, now: int, e: Item<N>, k: int) {
    var s := Surviving(p, turns, now);
    0 <= k < |s| && Precedes(p, s[k], e) && Drops(ActsAt(turns, k), e, now)
  }

  lemma DistinctOnce<N>(p: seq<Item<N>>)
    requires Distinct(p)
    ensures Once(p)
  {
  }

  // One turn on: the k-th handler of the rest is the next one of the whole.
  lemma StoppedNext<N>(p: seq<Item<N>>, turns: seq<Turn<N>>, now: int, e: Item<N>, k: int)
    requires Distinct(p) && p != [] && e in Keeps(p[1..], now, Head(turns, now).acts)
    ensures Stopped(Keeps(p[1..], now, Head(turns, now).acts), Tail(turns), now, e, k) <==> k >= 0 && Stopped(p, turns, now, e, k + 1)
  {
    var acts := Head(turns, now).acts;
    var t := Keeps(p[1..], now, acts);
    var s := Surviving(t, Tail(turns), now);
    DistinctOnce(p);
    OnceTail(p);
    KeepsSub(p[1..], now, acts);
    assert Surviving(p, turns, now) == [p[0]] + s;
    assert ActsAt(turns, k + 1) == ActsAt(Tail(turns), k) || k < 0;
    if 0 <= k < |s| {
      SurvivingSub(t, Tail(turns), now);
      SubIn(s, t, s[k]);
      SubIn(t, p[1..], s[k]);
      if Precedes(t, s[k], e) {
        SubPrecedes(t, p[1..], s[k], e);
      }
      if Precedes(p, s[k], e) {
        PrecedesSub(t, p[1..], s[k], e);
      }
    }
  }

  /** A due timer fires if and only if no handler that ran before its turn cancelled or moved it. */
  lemma {:induction false} FiresExactly<N>(p: seq<Item<N>>, turns: seq<Turn<N>>, now: int, e: Item<N>)
    requires Distinct(p) && e in p
    ensures e in Surviving(p, turns, now) <==> !exists k :: Stopped(p, turns, now, e, k)
    decreases |turns|, |p|
  {
    var acts := Head(turns, now).acts;
    var t := Keeps(p[1..], now, acts);
    var s := Surviving(t, Tail(turns), now);
    TailDistinct(p);
    DistinctOnce(p);
    OnceTail(p);
    KeepsSub(p[1..], now, acts);
    SurvivingSub(t, Tail(turns), now);
    if e == p[0] {
      forall k ensures !Stopped(p, turns, now, e, k) {
        if Stopped(p, turns, now, e, k) {
          PrecedesIn(p, Surviving(p, turns, now)[k], e);
        }
      }
    } else {
      KeepsExactly(p[1..], now, acts, e);
      if Drops(acts, e, now) {
        if e in s {
          SubIn(s, t, e);
        }
        assert Stopped(p, turns, now, e, 0);
      } else {
        KeepsDistinct(p[1..], now, acts);
        FiresExactly(t, Tail(turns), now, e);
        forall k ensures Stopped(p, turns, now, e, k) <==> Stopped(t, Tail(turns), now, e, k - 1) {
          if k != 0 {
            StoppedNext(p, turns, now, e, k - 1);
          }
        }
        if e in s {
          forall k ensures !Stopped(p, turns, now, e, k) {
            assert Stopped(p, turns, now, e, k) <==> Stopped(t, Tail(turns), now, e, k - 1);
          }
        } else {
          var k :| Stopped(t, Tail(turns), now, e, k);
          assert Stopped(p, turns, now, e, k + 1) <==> Stopped(t, Tail(turns), now, e, k + 1 - 1);
        }
      }
    }
  }

  /** For a queue in order of deadlines, with the clock standing and timers armed for later: a due
      timer fires if and only if no handler before its turn cancelled or moved it. */
  lemma ExpiresExactly<N>(s: seq<Item<N>>, turns: seq<Turn<N>>, now: int, e: Item<N>)
    requires Ordered(s) && Distinct(s) && Steady(turns, now) && e in Due(s, now)
    ensures e in Expired(s, turns, now).0 <==> !exists k :: Stopped(Due(s, now), turns, now, e, k)
  {
    FiredDue(s, turns, now);
    FiresExactly(Due(s, now), turns, now, e);
  }

  lemma FiredDue<N>(s: seq<Item<N>>, turns: seq<Turn<N>>, now: int)
    requires Ordered(s) && Distinct(s) && Steady(turns, now)
    ensures Expired(s, turns, now).0 == Surviving(Due(s, now), turns, now) && Distinct(Due(s, now))
    ensures Sub(Expired(s, turns, now).0, Due(s, now)) && Due(Expired(s, turns, now).1, now) == []
  {
    var p := Due(s, now);
    var r := DueIsPrefix(s, now);
    PartsDistinct(p, r);
    ExpiredSurviving(p, r, turns, now);
    SurvivingSub(p, turns, now);
    NoneDue(s, turns, now);
  }

  lemma {:induction false} NoneDue<N>(s: seq<Item<N>>, turns: seq<Turn<N>>, now: int)
    requires forall k :: 0 <= k < |turns| ==> turns[k].now == now
    ensures Due(Expired(s, turns, now).1, now) == []
    decreases |turns|, |s|
  {
    var t := Head(turns, now);
    if s != [] && s[0].key <= now {
      NoneDue(Steps(s[1..], now, t.acts), Tail(turns), now);
    }
  }

  // ---- handlers that leave the due timers alone ----

  lemma {:induction false} KeepsAll<N>(p: seq<Item<N>>, now: int, acts: seq<Act<N>>)
    requires forall i :: 0 <= i < |acts| ==> acts[i].x !in Nodes(p)
    ensures Keeps(p, now, acts) == p
    decreases |acts|
  {
    if acts != [] {
      WithoutNone(p, acts[0].x);
      KeepsAll(p, now, acts[1..]);
    }
  }

  /** Then all of them fire. */
  lemma {:induction false} AllFire<N>(p: seq<Item<N>>, turns: seq<Turn<N>>, now: int)
    requires forall k, i :: 0 <= k < |turns| && 0 <= i < |turns[k].acts| ==> turns[k].acts[i].x !in Nodes(p)
    ensures Surviving(p, turns, now) == p
    decreases |turns|, |p|
  {
    if p != [] {
      assert p == [p[0]] + p[1..];
      NodesConcat([p[0]], p[1..]);
      KeepsAll(p[1..], now, Head(turns, now).acts);
      AllFire(p[1..], Tail(turns), now);
    }
  }

  // ---- handlers that arm for now ----

  function Again<N>(x: N, now: int, n: nat): seq<Turn<N>> {
    if n == 0 then [] else [Turn(now, [Arm(x, 0)])] + Again(x, now, n - 1)
  }

  /** A handler that arms its own timer without a delay fires as often as it does so: there is no
      bound on one call. */
  lemma {:induction false} NoBound<N>(x: N, now: int, n: nat)
    ensures |Expired([Item(x, now)], Again(x, now, n), now).0| == n + 1
  {
    var s, turns := [Item(x, now)], Again(x, now, n);
    assert s[1..] == [];
    if n == 0 {
      assert Steps(s[1..], now, []) == [];
    } else {
      var a := Arm(x, 0);
      assert turns[0] == Turn(now, [a]) && turns[1..] == Again(x, now, n - 1);
      assert [a][1..] == [];
      assert Step(s[1..], now, a) == [Item(x, now)];
      assert Steps(s[1..], now, [a]) == [Item(x, now)];
      NoBound(x, now, n - 1);
    }
  }
}

/** The timers of src/core/dfs_event_timer.c over the red-black tree. */
module EventTimer {
  import opened Log2
  import opened RBAlgebra
  import opened RBOrder
  import opened RBMemory
  import opened RBSplice
  import opened RBTree
  import opened TimerExpiry
  import opened TimerQueue

  const TIMER_INFINITE := -1

  class Event {
    const timer: Node
    var timerSet: bool
    var timedout: bool

    constructor (n: Node)
      ensures timer == n && !timerSet && !timedout
    {
      timer, timerSet, timedout := n, false, false;
    }
  }

  class Timers {
    const rbtree: RedBlackTree
    // The event a timer node is part of: the offset arithmetic of the source.
    const eventOf: map<Node?, Event>

    ghost predicate Valid()
      reads rbtree, rbtree.mem.Keys, eventOf.Values
    {
      && rbtree.Valid()
      && rbtree.mem.Keys <= eventOf.Keys + {rbtree.sentinel}
      && forall n :: n in eventOf ==> n != null && n != rbtree.sentinel && eventOf[n].timer == n && (eventOf[n].timerSet <==> n in rbtree.mem)
    }

    // The deadlines in firing order.
    ghost function Queue(): seq<Item<Node?>>
      reads rbtree
    {
      Items(rbtree.tree)
    }

    ghost predicate Knows(ev: Event) {
      ev.timer in eventOf && eventOf[ev.timer] == ev
    }

    /** event_timer_init over the events of one loop. */
    constructor (s: Node, events: map<Node?, Event>)
      requires forall n :: n in events ==> n != null && n != s && events[n].timer == n && !events[n].timerSet
      modifies s
      ensures Valid() && Queue() == [] && eventOf == events && rbtree.sentinel == s
    {
      rbtree := new RedBlackTree(s);
      eventOf := events;
      new;
      assert rbtree.mem.Keys == {s};
    }

    /** event_timer_del */
    method Del(ev: Event)
      requires Valid() && Knows(ev)
      modifies rbtree, rbtree.mem.Keys, ev`timerSet
      ensures Valid() && !ev.timerSet
      ensures Queue() == Without(old(Queue()), ev.timer)
      ensures rbtree.mem.Keys == old(rbtree.mem.Keys) - {ev.timer}
    {
      hide Items, RedBlackTree.Here, Without, Distinct, Ordered, RedBlack, TNodes, AllLe, AllGt;
      rbtree.OnceEach();
      if !ev.timerSet {
        WithoutNone(Queue(), ev.timer);
        return;
      }
      ghost var a, b := rbtree.Delete(ev.timer);
      WithoutOne(a, old(Item<Node?>.Item(ev.timer, ev.timer.key)), b);
      ev.timerSet := false;
    }

    // Inserts a node that is not in the tree.
    method Enter(ev: Event, key: int)
      requires Valid() && Knows(ev) && !ev.timerSet
      modifies rbtree, rbtree.mem.Keys, ev.timer, ev`timerSet
      ensures Valid() && ev.timerSet && ev.timer.key == key
      ensures Queue() == Placed(old(Queue()), Item(ev.timer, key))
      ensures rbtree.mem.Keys == old(rbtree.mem.Keys) + {ev.timer}
    {
      hide Items, RedBlackTree.Here, Placed, Distinct, Ordered, RedBlack, TNodes, AllLe, AllGt;
      ev.timer.key := key;
      ghost var a, b := rbtree.Insert(ev.timer);
      PlacedAt(a, Item<Node?>.Item(ev.timer, key), b);
      ev.timerSet := true;
    }

    /** event_timer_add: the deadline now + delay, or the old one if the test finds it near. */
    method Add(ev: Event, now: int, delay: int)
      requires Valid() && Knows(ev)
      modifies rbtree, rbtree.mem.Keys, ev.timer, ev`timerSet
      ensures Valid() && ev.timerSet
      ensures old(ev.timerSet) && Kept(now + delay - old(ev.timer.key)) ==>
        Queue() == old(Queue()) && ev.timer.key == old(ev.timer.key)
      ensures !(old(ev.timerSet) && Kept(now + delay - old(ev.timer.key))) ==>
        ev.timer.key == now + delay && Queue() == Placed(Without(old(Queue()), ev.timer), Item(ev.timer, now + delay))
      // Within 300 ms of the request, unless the timer was set, far away, and looked near once narrowed.
      ensures Close(now + delay - ev.timer.key) <==>
        !old(ev.timerSet) || Close(now + delay - old(ev.timer.key)) || !Kept(now + delay - old(ev.timer.key))
      ensures rbtree.mem.Keys == old(rbtree.mem.Keys) + {ev.timer}
    {
      hide Items, RedBlackTree.Valid, Placed, Without;
      var key := now + delay;
      if ev.timerSet {
        var diff := key - ev.timer.key;
        if CAbs(Narrow(diff)) < LAZY_DELAY {
          return;
        }
        Del(ev);
      } else {
        rbtree.OnceEach();
        WithoutNone(Queue(), ev.timer);
      }
      Enter(ev, key);
    }

    /** An armed event stands in the queue once, under its own key. */
    lemma ArmedOnce(ev: Event)
      requires Valid() && Knows(ev) && ev.timerSet
      ensures exists i :: (0 <= i < |Queue()| && Queue()[i] == Item<Node?>.Item(ev.timer, ev.timer.key)
        && forall j :: 0 <= j < |Queue()| && j != i ==> Queue()[j].x != ev.timer)
    {
      rbtree.OnceEach();
      hide *;
      assert ev.timer in Nodes(Queue());
      var e :| e in Queue() && e.x == ev.timer;
      rbtree.ItemKey(rbtree.tree, e);
      var i :| 0 <= i < |Queue()| && Queue()[i] == e;
    }

    /** event_find_timer: the time to the earliest deadline, never negative; -1 without timers. */
    method FindTimer(now: int) returns (wait: int)
      requires Valid()
      ensures wait == TIMER_INFINITE <==> Queue() == []
      ensures wait != TIMER_INFINITE ==> wait >= 0 && exists e :: e in Queue() && wait == if e.key > now then e.key - now else 0
      ensures wait != TIMER_INFINITE ==> forall e :: e in Queue() ==> wait <= if e.key > now then e.key - now else 0
      ensures wait == 0 <==> exists e :: e in Queue() && e.key <= now
    {
      hide Items, At, RedBlack, TNodes;
      rbtree.RootIs(rbtree.tree);
      if rbtree.root == rbtree.sentinel {
        assert Queue() == [] by { NoItems(rbtree.tree); }
        return TIMER_INFINITE;
      }
      var node := rbtree.First();
      var timer := node.key - now;
      assert Queue()[0] in Queue();
      wait := if timer > 0 then timer else 0;
    }

    // Handlers name events of this loop.
    ghost predicate KnowsAll(acts: seq<Act<Node?>>) {
      forall i :: 0 <= i < |acts| ==> acts[i].x in eventOf
    }

    ghost predicate KnowsTurns(turns: seq<Turn<Node?>>) {
      forall k :: 0 <= k < |turns| ==> KnowsAll(turns[k].acts)
    }

    // The lazy test of event_timer_add, read off the queue.
    lemma LazyTest(ev: Event, key: int)
      requires Valid() && Knows(ev)
      ensures KeptIn(Queue(), ev.timer, key) <==> ev.timerSet && Kept(key - ev.timer.key)
    {
      rbtree.OnceEach();
      if ev.timerSet {
        ArmedOnce(ev);
        hide *;
        KeptInOne(Queue(), Item<Node?>.Item(ev.timer, ev.timer.key), key);
      } else {
        hide *;
        KeptInNone(Queue(), ev.timer, key);
      }
    }

    // One timer operation of a handler.
    method Do(a: Act<Node?>, ev: Event, now: int)
      requires Valid() && Knows(ev) && ev.timer == a.x
      modifies rbtree, rbtree.mem.Keys, ev.timer, ev`timerSet
      ensures Valid() && Queue() == Step(old(Queue()), now, a) && rbtree.mem.Keys <= old(rbtree.mem.Keys) + {a.x}
    {
      hide Items, RedBlackTree.Valid, Placed, Without, KeptIn;
      match a {
        case Arm(_, delay) =>
          LazyTest(ev, now + delay);
          Add(ev, now, delay);
        case Cancel(_) =>
          Del(ev);
      }
    }

    // Runs the timer operations of one handler.
    method Handle(acts: seq<Act<Node?>>, now: int)
      requires Valid() && KnowsAll(acts)
      modifies rbtree, eventOf.Keys, rbtree.sentinel, eventOf.Values`timerSet
      ensures Valid() && Queue() == Steps(old(Queue()), now, acts)
    {
      hide Items, RedBlackTree.Valid, Step;
      ghost var q := Queue();
      var i := 0;
      assert acts[0..] == acts;
      while i < |acts|
        invariant 0 <= i <= |acts| && Valid() && Steps(Queue(), now, acts[i..]) == Steps(q, now, acts)
      {
        assert acts[i..][1..] == acts[i + 1..];
        Do(acts[i], eventOf[acts[i].x], now);
        i := i + 1;
      }
    }

    // Removes the earliest timer and marks its event.
    method Fire(node: Node) returns (ev: Event)
      requires Valid() && Queue() != [] && Queue()[0] == Item<Node?>.Item(node, node.key) && node in rbtree.mem && node != rbtree.sentinel
      modifies rbtree, rbtree.mem.Keys, eventOf[node]
      ensures Valid() && Queue() == old(Queue())[1..] && Knows(ev) && ev.timer == node && ev.timedout
    {
      hide Items, RedBlackTree.Here, Without, Distinct, Ordered, RedBlack, TNodes;
      ev := eventOf[node];
      rbtree.OnceEach();
      ghost var q := Queue();
      assert q == [] + [q[0]] + q[1..];
      WithoutOne([], q[0], q[1..]);
      Del(ev);
      ev.timedout := true;
      assert [] + q[1..] == q[1..];
    }

    method FireAndHandle(node: Node, acts: seq<Act<Node?>>, now: int) returns (ev: Event)
      requires Valid() && Queue() != [] && Queue()[0] == Item<Node?>.Item(node, node.key) && node in rbtree.mem && node != rbtree.sentinel
      requires KnowsAll(acts)
      modifies rbtree, eventOf.Keys, eventOf.Values, rbtree.sentinel
      ensures Valid() && Queue() == Steps(old(Queue())[1..], now, acts) && ev.timer == node
      ensures forall e :: e in eventOf.Values ==> e.timedout == (e == ev || old(e.timedout))
    {
      hide Items, RedBlackTree.Valid, Steps, KnowsAll;
      ev := Fire(node);
      Handle(acts, now);
    }

    // The earliest timer, if there is one and it is due.
    method Earliest(now: int) returns (node: Node?)
      requires Valid()
      ensures node == null <==> Queue() == [] || now < Queue()[0].key
      ensures node != null ==> Queue()[0] == Item<Node?>.Item(node, node.key) && node in rbtree.mem && node != rbtree.sentinel
    {
      hide Items, At, Distinct, Ordered, RedBlack, TNodes;
      rbtree.RootIs(rbtree.tree);
      if rbtree.root == rbtree.sentinel {
        NoItems(rbtree.tree);
        return null;
      }
      var min := rbtree.First();
      node := if min.key <= now then min else null;
    }

    // The fired events are those of the items.
    ghost predicate FiredAre(fired: seq<Event>, items: seq<Item<Node?>>) {
      |fired| == |items| && forall k :: 0 <= k < |fired| ==> fired[k].timer == items[k].x
    }

    /** event_timers_expire, whatever the clock shows at each pass and whatever timers the handlers
        arm and cancel: it fires and leaves what Expired says, and marks the events it fires. */
    method Expire(turns: seq<Turn<Node?>>, now: int) returns (fired: seq<Event>)
      requires Valid() && KnowsTurns(turns)
      modifies rbtree, eventOf.Keys, eventOf.Values, rbtree.sentinel
      ensures Valid() && FiredAre(fired, Expired(old(Queue()), turns, now).0) && Queue() == Expired(old(Queue()), turns, now).1
      ensures forall e :: e in eventOf.Values ==> e.timedout == (e in fired || old(e.timedout))
    {
      hide Items, RedBlackTree.Valid, Steps, Expired, KnowsAll;
      ghost var q := Queue();
      ghost var items := [];
      fired := [];
      var left := turns;
      assert [] + Expired(q, turns, now).0 == Expired(q, turns, now).0;
      while true
        invariant Valid() && KnowsTurns(left) && FiredAre(fired, items)
        invariant Expired(q, turns, now) == (items + Expired(Queue(), left, now).0, Expired(Queue(), left, now).1)
        invariant forall e :: e in eventOf.Values ==> e.timedout == (e in fired || old(e.timedout))
        decreases |left|, |Queue()|
      {
        var turn := Head(left, now);
        NextTurn(Queue(), left, now, items);
        var node := Earliest(turn.now);
        if node == null {
          break;
        }
        items := items + [Queue()[0]];
        assert KnowsAll(turn.acts) by { Silent(left, now); }
        var ev := FireAndHandle(node, turn.acts, turn.now);
        fired := fired + [ev];
        left := Tail(left);
      }
    }

    lemma Silent(left: seq<Turn<Node?>>, now: int)
      requires KnowsTurns(left)
      ensures KnowsAll(Head(left, now).acts)
    {
    }

    /** What the queue of a loop brings to ExpiresExactly. */
    lemma Sorted()
      requires Valid()
      ensures Ordered(Queue()) && Distinct(Queue())
    {
      rbtree.OnceEach();
    }

    /** With the clock standing and timers armed for later: the events fired are those of due timers,
        in order and each once; a due timer fires if and only if no handler before its turn
        cancelled or moved it; none due is left. */
    method ExpireSteady(turns: seq<Turn<Node?>>, now: int) returns (fired: seq<Event>)
      requires Valid() && KnowsTurns(turns) && Steady(turns, now)
      modifies rbtree, eventOf.Keys, eventOf.Values, rbtree.sentinel
      ensures Valid() && Due(Queue(), now) == []
      ensures var due, f := Due(old(Queue()), now), Expired(old(Queue()), turns, now).0;
        && FiredAre(fired, f) && Sub(f, due)
        && forall e :: e in due ==> (e in f <==> !exists k :: Stopped(due, turns, now, e, k))
    {
      hide Items, RedBlackTree.Valid, Due, Distinct, Ordered, Expired, Steady, Sub, Stopped;
      Sorted();
      ghost var q := Queue();
      fired := Expire(turns, now);
      FiredDue(q, turns, now);
      forall e | e in Due(q, now) ensures e in Expired(q, turns, now).0 <==> !exists k :: Stopped(Due(q, now), turns, now, e, k) {
        ExpiresExactly(q, turns, now, e);
      }
    }
  }

  /** A timer that is set is asked for 2^32 milliseconds later, and stays where it is. */
  method FarRearm(t: Timers, ev: Event, now: int, delay: int)
    requires t.Valid() && t.Knows(ev) && !ev.timerSet
    modifies t.rbtree, t.rbtree.mem.Keys, ev.timer, ev
    ensures t.Valid() && ev.timerSet && ev.timer.key == now + delay
  {
    hide Items, RedBlackTree.Valid, Placed, Without, Close;
    KeptThoughFar();
    t.Add(ev, now, delay);
    t.Add(ev, now, delay + UINT32);
  }
}

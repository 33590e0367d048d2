/** Connections lent between per-thread pools through the common pool of
    src/core/dfs_conn_pool.c, as interleaved steps of the threads. */
module ConnPool {

  // Where a thread is inside a call: the steps between which others may run.
  datatype Pc =
    | Idle
    | Pushing(c: int)         // conn_pool_free_connection: used_n is down, the push is to come
    | Pushed                  // the push is done, change_n-- is to come
    | Taking(n: int)          // conn_pool_get_connection: the local list is empty, n may be taken
    | Taken(cs: seq<int>)     // taken, not yet linked into the local list

  // conn_pool_t, with the set of connections its thread has in use.
  datatype Pool = Pool(n: int, change: int, free: seq<int>, freeN: int, used: int, held: multiset<int>, pc: Pc)

  // transit: connections between a conn_pool_out and the conn_pool_in that pairs with it.
  datatype State = State(pools: seq<Pool>, common: seq<int>, commonN: int, transit: multiset<int>)

  // ---- the steps of a thread, on its own pool p ----

  // The local list is not empty.
  predicate CanGetLocal(p: Pool) { p.pc.Idle? && p.free != [] }
  function GetLocal(p: Pool): Pool
    requires CanGetLocal(p)
  {
    p.(free := p.free[1..], freeN := p.freeN - 1, used := p.used + 1, held := p.held + multiset{p.free[0]})
  }

  // The local list is empty and connections are owed to the pool.
  predicate CanGetStart(p: Pool) { p.pc.Idle? && p.free == [] && p.change < 0 }
  function GetStart(p: Pool): Pool {
    p.(pc := Taking(-p.change))
  }

  // get_comm_conn, under the lock: how many connections are taken from the head of the list.
  function TakeCount(n: int, commonN: int): int {
    if n >= commonN then commonN else n
  }

  // The list ends where it ends; that k is never beyond is what Inv says.
  function Within(cs: seq<int>, k: int): nat {
    if k < 0 then 0 else if k > |cs| then |cs| else k
  }

  function GetLink(p: Pool): Pool
    requires p.pc.Taken? && p.pc.cs != []
  {
    var cs := p.pc.cs;
    p.(free := cs[1..], freeN := p.freeN + |cs| - 1, change := p.change + |cs|, used := p.used + 1,
       held := p.held + multiset{cs[0]}, pc := Idle)
  }

  predicate CanFreeLocal(p: Pool, c: int) { p.pc.Idle? && c in p.held && p.change <= 0 }
  function FreeLocal(p: Pool, c: int): Pool {
    p.(free := [c] + p.free, freeN := p.freeN + 1, used := p.used - 1, held := p.held - multiset{c})
  }

  predicate CanFreeStart(p: Pool, c: int) { p.pc.Idle? && c in p.held && p.change > 0 }
  function FreeStart(p: Pool, c: int): Pool {
    p.(used := p.used - 1, held := p.held - multiset{c}, pc := Pushing(c))
  }

  function FreeEnd(p: Pool): Pool {
    p.(change := p.change - 1, pc := Idle)
  }

  function Out(p: Pool, cs: multiset<int>): Pool {
    p.(change := p.change - |cs|, used := p.used - |cs|, held := p.held - cs)
  }

  function In(p: Pool, cs: multiset<int>): Pool {
    p.(change := p.change + |cs|, used := p.used + |cs|, held := p.held + cs)
  }

  datatype Action =
    | DoGetLocal | DoGetStart | DoTake | DoGetLink
    | DoFreeLocal(c: int) | DoFreeStart(c: int) | DoPush | DoFreeEnd
    | DoOut(cs: multiset<int>) | DoIn(cs: multiset<int>)

  /** Thread t may do a in state s. */
  ghost predicate Enabled(s: State, t: int, a: Action) {
    0 <= t < |s.pools| && var p := s.pools[t];
    match a
    case DoGetLocal => CanGetLocal(p)
    case DoGetStart => CanGetStart(p)
    case DoTake => p.pc.Taking?
    case DoGetLink => p.pc.Taken? && p.pc.cs != []
    case DoFreeLocal(c) => CanFreeLocal(p, c)
    case DoFreeStart(c) => CanFreeStart(p, c)
    case DoPush => p.pc.Pushing?
    case DoFreeEnd => p.pc.Pushed?
    case DoOut(cs) => p.pc.Idle? && cs <= p.held
    case DoIn(cs) => p.pc.Idle? && cs <= s.transit
  }

  ghost function Next(s: State, t: int, a: Action): State
    requires Enabled(s, t, a)
  {
    var p := s.pools[t];
    match a
    case DoGetLocal => s.(pools := s.pools[t := GetLocal(p)])
    case DoGetStart => s.(pools := s.pools[t := GetStart(p)])
    case DoTake =>
      var k := TakeCount(p.pc.n, s.commonN);
      if s.commonN == 0 then s.(pools := s.pools[t := p.(pc := Idle)])
      else State(s.pools[t := p.(pc := Taken(s.common[..Within(s.common, k)]))], s.common[Within(s.common, k)..], s.commonN - k, s.transit)
    case DoGetLink => s.(pools := s.pools[t := GetLink(p)])
    case DoFreeLocal(c) => s.(pools := s.pools[t := FreeLocal(p, c)])
    case DoFreeStart(c) => s.(pools := s.pools[t := FreeStart(p, c)])
    case DoPush => State(s.pools[t := p.(pc := Pushed)], [p.pc.c] + s.common, s.commonN + 1, s.transit)
    case DoFreeEnd => s.(pools := s.pools[t := FreeEnd(p)])
    case DoOut(cs) => State(s.pools[t := Out(p, cs)], s.common, s.commonN, s.transit + cs)
    case DoIn(cs) => State(s.pools[t := In(p, cs)], s.common, s.commonN, s.transit - cs)
  }

  // ---- what every step keeps ----

  // A release in progress has taken its connection off used_n but not yet off change_n.
  function Releasing(p: Pool): int {
    if p.pc.Pushing? || p.pc.Pushed? then 1 else 0
  }

  // The counters balance, the local list never outgrows the pool, and what is under way
  // between the pool and the common list goes the way change_n says.
  predicate PoolOk(p: Pool) {
    && p.freeN == |p.free| <= p.n && p.used == |p.held|
    && p.freeN + p.used + Releasing(p) - p.change == p.n
    && (p.pc.Pushing? || p.pc.Pushed? ==> p.change > 0)
    && (p.pc.Taking? ==> p.free == [] && p.pc.n == -p.change > 0)
    && (p.pc.Taken? ==> p.free == [] && 0 < |p.pc.cs| <= -p.change)
  }

  // What the pool owes to the common list, as far as change_n does not show it yet.
  function Pending(p: Pool): int {
    p.change - (if p.pc.Pushed? then 1 else 0) + (if p.pc.Taken? then |p.pc.cs| else 0)
  }

  ghost function SumPending(ps: seq<Pool>): int {
    if ps == [] then 0 else Pending(ps[0]) + SumPending(ps[1..])
  }

  function Times(x: int, s: seq<int>): nat {
    multiset(s)[x]
  }

  // How often connection x occurs in a pool or in the hands of its thread.
  function AtPool(p: Pool, x: int): int {
    Times(x, p.free) + p.held[x] + (match p.pc case Pushing(c) => (if c == x then 1 else 0) case Taken(cs) => Times(x, cs) case _ => 0)
  }

  ghost function AtPools(ps: seq<Pool>, x: int): int {
    if ps == [] then 0 else AtPool(ps[0], x) + AtPools(ps[1..], x)
  }

  // How often connection x occurs anywhere in the system.
  ghost function Places(s: State, x: int): int {
    AtPools(s.pools, x) + Times(x, s.common) + s.transit[x]
  }

  ghost predicate Inv(s: State) {
    && s.commonN == |s.common|
    && (forall t :: 0 <= t < |s.pools| ==> PoolOk(s.pools[t]))
    && |s.common| + |s.transit| + SumPending(s.pools) == 0
  }

  lemma {:induction false} SumPendingUpdate(ps: seq<Pool>, t: int, p: Pool)
    requires 0 <= t < |ps|
    ensures SumPending(ps[t := p]) == SumPending(ps) - Pending(ps[t]) + Pending(p)
  {
    if t == 0 {
      assert ps[t := p][1..] == ps[1..];
    } else {
      assert ps[t := p][1..] == ps[1..][t - 1 := p];
      SumPendingUpdate(ps[1..], t - 1, p);
    }
  }

  lemma {:induction false} AtPoolsUpdate(ps: seq<Pool>, t: int, p: Pool, x: int)
    requires 0 <= t < |ps|
    ensures AtPools(ps[t := p], x) == AtPools(ps, x) - AtPool(ps[t], x) + AtPool(p, x)
  {
    hide AtPool;
    if t == 0 {
      assert ps[t := p][1..] == ps[1..];
    } else {
      assert ps[t := p][1..] == ps[1..][t - 1 := p];
      AtPoolsUpdate(ps[1..], t - 1, p, x);
    }
  }

  // ---- one step, on the pool that moves ----

  // The pool that moves stays in order, and with the common list and the connections in
  // transit it neither loses nor gains any.
  lemma MoveOk(s: State, t: int, a: Action)
    requires Inv(s) && Enabled(s, t, a)
    ensures var s', p := Next(s, t, a), s.pools[t];
      && |s'.pools| == |s.pools| && s'.pools == s.pools[t := s'.pools[t]] && PoolOk(s'.pools[t]) && s'.commonN == |s'.common|
      && |s'.common| + |s'.transit| + Pending(s'.pools[t]) == |s.common| + |s.transit| + Pending(p)
  {
    assert PoolOk(s.pools[t]);
  }

  function Abs(x: int): nat {
    if x < 0 then -x else x
  }

  /** Only lending moves a pool away from its own number of connections: every other step leaves
      change_n or brings it nearer to zero, a release to the common list by exactly one. */
  lemma Nearer(s: State, t: int, a: Action)
    requires Inv(s) && Enabled(s, t, a) && !a.DoOut? && !a.DoIn?
    ensures var c, c' := s.pools[t].change, Next(s, t, a).pools[t].change;
      && Abs(c') <= Abs(c) && (c <= 0 ==> c' <= 0) && (c >= 0 ==> c' >= 0)
      && (a.DoFreeLocal? ==> c <= 0 && c' == c) && (a.DoFreeEnd? ==> c > 0 && c' == c - 1) && (a.DoGetLink? ==> c < c')
  {
    assert PoolOk(s.pools[t]);
  }

  /** What a pool takes is the front of the common list: all it is owed, or all there is. */
  lemma TakesOwed(s: State, t: int)
    requires Inv(s) && Enabled(s, t, DoTake)
    ensures var s', owed := Next(s, t, DoTake), -s.pools[t].change; var p' := s'.pools[t];
      if s.common == [] then s' == s.(pools := s.pools[t := s.pools[t].(pc := Idle)])
      else p'.pc.Taken? && p'.pc.cs + s'.common == s.common && |p'.pc.cs| <= owed && (|p'.pc.cs| == owed || s'.common == [])
  {
    assert PoolOk(s.pools[t]);
  }

  lemma TimesCons(x: int, c: int, s: seq<int>)
    ensures Times(x, [c] + s) == (if c == x then 1 else 0) + Times(x, s)
  {
  }

  lemma TimesCut(x: int, s: seq<int>, k: int)
    requires 0 <= k <= |s|
    ensures Times(x, s) == Times(x, s[..k]) + Times(x, s[k..])
  {
    assert s == s[..k] + s[k..];
  }

  lemma TimesHead(x: int, s: seq<int>)
    requires s != []
    ensures Times(x, s) == (if s[0] == x then 1 else 0) + Times(x, s[1..])
  {
    assert s == [s[0]] + s[1..];
    TimesCons(x, s[0], s[1..]);
  }

  // The pool that moves, the common list and the transit together keep each connection.
  lemma MoveConserves(s: State, t: int, a: Action, x: int)
    requires Inv(s) && Enabled(s, t, a)
    ensures var s' := Next(s, t, a);
      && |s'.pools| == |s.pools|
      && AtPool(s'.pools[t], x) + Times(x, s'.common) + s'.transit[x] == AtPool(s.pools[t], x) + Times(x, s.common) + s.transit[x]
  {
    hide Times;
    var p := s.pools[t];
    assert PoolOk(p);
    match a
    case DoGetLocal => TimesHead(x, p.free);
    case DoGetStart =>
    case DoTake =>
      if s.commonN != 0 {
        TimesCut(x, s.common, TakeCount(p.pc.n, s.commonN));
      }
    case DoGetLink =>
      TimesHead(x, p.pc.cs);
      NoTimes(x);
    case DoFreeLocal(c) => TimesCons(x, c, p.free);
    case DoFreeStart(c) =>
    case DoPush => TimesCons(x, p.pc.c, s.common);
    case DoFreeEnd =>
    case DoOut(cs) =>
    case DoIn(cs) =>
  }

  lemma NoTimes(x: int)
    ensures Times(x, []) == 0
  {
  }

  /** Every step keeps the counters in order and every connection in as many places as before. */
  lemma StepKeeps(s: State, t: int, a: Action, x: int)
    requires Inv(s) && Enabled(s, t, a)
    ensures Inv(Next(s, t, a)) && Places(Next(s, t, a), x) == Places(s, x)
  {
    var s' := Next(s, t, a);
    MoveOk(s, t, a);
    MoveConserves(s, t, a, x);
    hide Next, AtPool, Times, Enabled, PoolOk, Pending;
    SumPendingUpdate(s.pools, t, s'.pools[t]);
    AtPoolsUpdate(s.pools, t, s'.pools[t], x);
  }

  // ---- runs ----

  datatype Event = Event(thread: int, act: Action)

  // conn_pool_init for every pool: its connections are all free.
  ghost predicate Start(s: State) {
    && s.common == [] && s.commonN == 0 && s.transit == multiset{}
    && (forall t :: 0 <= t < |s.pools| ==> var p := s.pools[t];
         p.pc.Idle? && p.change == 0 && p.used == 0 && p.held == multiset{} && p.freeN == |p.free| == p.n > 0)
  }

  ghost predicate Run(s: State, es: seq<Event>, s': State)
    decreases |es|
  {
    if es == [] then s' == s
    else Enabled(s, es[0].thread, es[0].act) && Run(Next(s, es[0].thread, es[0].act), es[1..], s')
  }

  lemma {:induction false} StartBalance(ps: seq<Pool>)
    requires forall t :: 0 <= t < |ps| ==> ps[t].pc.Idle? && ps[t].change == 0
    ensures SumPending(ps) == 0
  {
    if ps != [] {
      StartBalance(ps[1..]);
    }
  }

  lemma StartOk(s: State)
    requires Start(s)
    ensures Inv(s)
  {
    StartBalance(s.pools);
  }

  /** After any interleaving of the threads' steps the counters agree with the lists, and each
      connection is in exactly as many places as at the start: one. */
  lemma {:induction false} RunKeeps(s: State, es: seq<Event>, s': State, x: int)
    requires Inv(s) && Run(s, es, s')
    ensures Inv(s') && Places(s', x) == Places(s, x)
    decreases |es|
  {
    if es != [] {
      StepKeeps(s, es[0].thread, es[0].act, x);
      RunKeeps(Next(s, es[0].thread, es[0].act), es[1..], s', x);
    }
  }

  ghost function SumChange(ps: seq<Pool>): int {
    if ps == [] then 0 else ps[0].change + SumChange(ps[1..])
  }

  lemma {:induction false} QuietBalance(ps: seq<Pool>)
    requires forall t :: 0 <= t < |ps| ==> !ps[t].pc.Pushed? && !ps[t].pc.Taken?
    ensures SumPending(ps) == SumChange(ps)
  {
    if ps != [] {
      QuietBalance(ps[1..]);
    }
  }

  /** Between calls: each pool's counters balance, and the common list is as long as minus the
      sum of all change_n and of the connections in transit. */
  lemma Quiet(s: State, t: int)
    requires Inv(s) && 0 <= t < |s.pools| && forall u :: 0 <= u < |s.pools| ==> s.pools[u].pc.Idle?
    ensures var p := s.pools[t]; p.freeN == |p.free| && p.freeN + p.used - p.change == p.n
    ensures s.commonN == |s.common| == -SumChange(s.pools) - |s.transit|
  {
    assert PoolOk(s.pools[t]);
    QuietBalance(s.pools);
  }

  lemma {:induction false} SumAtMost(ps: seq<Pool>, t: int)
    requires 0 <= t < |ps| && forall u :: 0 <= u < |ps| ==> ps[u].change <= 0
    ensures SumChange(ps) <= ps[t].change
  {
    if t > 0 {
      SumAtMost(ps[1..], t - 1);
    } else if |ps| > 1 {
      SumAtMost(ps[1..], 0);
    }
  }

  /** Once every connection is released, all that a pool is owed is on the common list: no
      thread has kept another pool's connections. */
  lemma AllHome(s: State, t: int)
    requires Inv(s) && s.transit == multiset{} && 0 <= t < |s.pools|
    requires forall u :: 0 <= u < |s.pools| ==> s.pools[u].pc.Idle? && s.pools[u].used == 0
    ensures var p := s.pools[t]; p.change <= 0 && p.freeN - p.change == p.n && -p.change <= s.commonN
  {
    forall u | 0 <= u < |s.pools| ensures s.pools[u].change <= 0 {
      assert PoolOk(s.pools[u]);
    }
    Quiet(s, t);
    SumAtMost(s.pools, t);
  }

  /** So a pool whose own list is empty then gets all its connections back with the next one. */
  lemma GetsBack(s: State, t: int)
    requires Inv(s) && s.transit == multiset{} && 0 <= t < |s.pools| && s.pools[t].free == [] && s.pools[t].n > 0
    requires forall u :: 0 <= u < |s.pools| ==> s.pools[u].pc.Idle? && s.pools[u].used == 0
    ensures Enabled(s, t, DoGetStart) && var s1 := Next(s, t, DoGetStart);
      Enabled(s1, t, DoTake) && var s2 := Next(s1, t, DoTake);
      Enabled(s2, t, DoGetLink) && var p := Next(s2, t, DoGetLink).pools[t];
      p.change == 0 && p.used == 1 && p.freeN == |p.free| == p.n - 1
  {
    AllHome(s, t);
    assert PoolOk(s.pools[t]);
    var s1 := Next(s, t, DoGetStart);
    StepKeeps(s, t, DoGetStart, 0);
    TakesOwed(s1, t);
    StepKeeps(s1, t, DoTake, 0);
    hide Places;
    assert PoolOk(Next(s1, t, DoTake).pools[t]);
  }

  /** A connection that starts in one free list is never in two places. */
  lemma OnePlace(s: State, es: seq<Event>, s': State, x: int, t: int, u: int)
    requires Start(s) && Run(s, es, s') && Places(s, x) <= 1 && 0 <= t < |s'.pools| && 0 <= u < |s'.pools| && t != u
    ensures !(AtPool(s'.pools[t], x) > 0 && AtPool(s'.pools[u], x) > 0)
    ensures AtPool(s'.pools[t], x) > 0 ==> AtPool(s'.pools[t], x) == 1 && Times(x, s'.common) == 0 && s'.transit[x] == 0
    ensures Times(x, s'.common) + s'.transit[x] <= 1
  {
    StartOk(s);
    RunKeeps(s, es, s', x);
    hide Run, AtPool, Times, Inv, Start;
    AtPoolsNat(s'.pools, x);
    if AtPool(s'.pools[t], x) > 0 {
      OneOf(s'.pools, t, x);
    }
    if AtPool(s'.pools[t], x) > 0 && AtPool(s'.pools[u], x) > 0 {
      if t < u {
        SomeOf(s'.pools, t, u, x);
      } else {
        SomeOf(s'.pools, u, t, x);
      }
      assert false;
    }
  }

  lemma {:induction false} AtPoolsNat(ps: seq<Pool>, x: int)
    ensures AtPools(ps, x) >= 0
  {
    if ps != [] {
      AtPoolsNat(ps[1..], x);
    }
  }

  lemma {:induction false} OneOf(ps: seq<Pool>, u: int, x: int)
    requires 0 <= u < |ps| && AtPool(ps[u], x) > 0
    ensures AtPools(ps, x) >= AtPool(ps[u], x)
  {
    AtPoolsNat(ps[1..], x);
    if u > 0 {
      OneOf(ps[1..], u - 1, x);
    }
  }

  lemma {:induction false} SomeOf(ps: seq<Pool>, t: int, u: int, x: int)
    requires 0 <= t < u < |ps| && AtPool(ps[t], x) > 0 && AtPool(ps[u], x) > 0
    ensures AtPools(ps, x) >= 2
  {
    if t > 0 {
      SomeOf(ps[1..], t - 1, u - 1, x);
    } else {
      OneOf(ps[1..], u - 1, x);
    }
  }
}

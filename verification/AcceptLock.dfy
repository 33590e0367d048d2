/** The accept lock of the worker threads: thread_event_process of src/datanode/dn_thread.c over
    the atomic lock of src/core/dfs_lock.c, one read or write of a shared word at a time. */
module AcceptLock {

  const NONE := -1

  // Where event_free_accept_lock returns to.
  datatype Back = ToAdd | ToProcess | ToStart

  datatype Pc =
    | Start                     // top of a pass, before the quit flags are read
    | TryLoad | TryCas          // dfs_atomic_lock_try_on: the load, the compare-and-swap
    | Claim                     // accept_lock_held = thread_id
    | QuitTest | QuitHeld | QuitDel | QuitOff         // accecpt_enable, then accept_lock_held
    | AddTest | AddEvents
    | Process
    | EndTest | EndDel
    | FreeLoad(back: Back) | FreeStore(back: Back)    // event_free_accept_lock
    | OffLoad(back: Back) | OffCas(back: Back)        // dfs_atomic_lock_off

  // One thread: where it is, and which listening sockets its event base watches.
  datatype Thread = Thread(pc: Pc, watched: set<int>)

  /** lock: the lock word is on; held: accept_lock_held; owner: the thread whose swap turned the
      lock on; sockets: how many listening sockets there are. */
  datatype State = State(lock: bool, held: int, enable: bool, owner: int, threads: seq<Thread>, sockets: nat)

  // What a step meets outside: the quit flags, and at which socket event_add or event_delete
  // fails; at or beyond the number of sockets none does.
  datatype Input = Input(quit: bool, added: nat, deleted: nat)

  // The first n listening sockets.
  function First(n: nat): (r: set<int>)
    ensures forall k :: k in r <==> 0 <= k < n
  {
    if n == 0 then {} else First(n - 1) + {n - 1}
  }

  function Return(back: Back): Pc {
    match back
    case ToAdd => AddTest
    case ToProcess => Process
    case ToStart => Start
  }

  // Where a step of thread t goes.
  function Goto(s: State, t: int, i: Input): Pc
    requires 0 <= t < |s.threads|
  {
    match s.threads[t].pc
    case Start => if i.quit then QuitTest else TryLoad
    case TryLoad => if s.lock then QuitTest else TryCas
    case TryCas => if s.lock then QuitTest else Claim
    case Claim => QuitTest
    case QuitTest => if s.enable then QuitHeld else AddTest
    case QuitHeld => if s.held == t && i.quit then QuitDel else AddTest
    case QuitDel => QuitOff
    case QuitOff => FreeLoad(ToAdd)
    case AddTest => if s.held == t then AddEvents else FreeLoad(ToProcess)
    case AddEvents => if i.added >= s.sockets then Process else FreeLoad(ToProcess)
    case Process => EndTest
    case EndTest => if s.held == t then EndDel else Start
    case EndDel => FreeLoad(ToStart)
    case FreeLoad(back) => if s.held == t then FreeStore(back) else Return(back)
    case FreeStore(back) => OffLoad(back)
    case OffLoad(back) => if s.lock then OffCas(back) else Return(back)
    case OffCas(back) => if s.lock then Return(back) else OffCas(back)
  }

  // What thread t watches after the step.
  function Watched(s: State, t: int, i: Input): set<int>
    requires 0 <= t < |s.threads|
  {
    var th := s.threads[t];
    if th.pc.AddEvents? then th.watched + First(if i.added >= s.sockets then s.sockets else i.added)
    else if th.pc.QuitDel? || th.pc.EndDel? then th.watched - First(i.deleted)
    else th.watched
  }

  /** One step of thread t: where it goes, what it watches, and what it writes. */
  function Next(s: State, t: int, i: Input): State
    requires 0 <= t < |s.threads|
  {
    var s' := s.(threads := s.threads[t := Thread(Goto(s, t, i), Watched(s, t, i))]);
    match s.threads[t].pc
    case TryCas => if s.lock then s' else s'.(lock := true, owner := t)
    case Claim => s'.(held := t)
    case QuitOff => s'.(enable := false)
    case FreeStore(_) => s'.(held := NONE)
    case OffCas(_) => if s.lock then s'.(lock := false, owner := NONE) else s'
    case _ => s'
  }

  // ---- what every step keeps ----

  // Points of a pass between adding and deleting the listening events.
  predicate Polling(pc: Pc) {
    pc.Process? || pc.EndTest? || pc.EndDel?
  }

  // Points of a pass at which the lock may be t's with accept_lock_held saying so.
  predicate Holding(pc: Pc) {
    pc.QuitTest? || pc.QuitHeld? || pc.QuitDel? || pc.QuitOff? || pc.AddTest? || pc.AddEvents? || Polling(pc)
    || pc.FreeLoad? || pc.FreeStore?
  }

  // Points reached only with accept_lock_held == t.
  predicate Sure(pc: Pc) {
    pc.QuitDel? || pc.QuitOff? || pc.AddEvents? || pc.EndDel? || pc.FreeStore? || (pc.FreeLoad? && !pc.back.ToProcess?)
  }

  // Points between the swap and the claim, or between giving up the claim and the lock.
  predicate Unclaimed(pc: Pc) {
    pc.Claim? || pc.OffLoad? || pc.OffCas?
  }

  predicate ThreadOk(s: State, t: int)
    requires 0 <= t < |s.threads|
  {
    var pc := s.threads[t].pc;
    && (Unclaimed(pc) <==> s.owner == t && s.held != t)
    && (s.held == t ==> s.owner == t && Holding(pc))
    && (Sure(pc) ==> s.held == t)
  }

  // The shared variables agree with each other.
  predicate SharedOk(s: State) {
    (s.lock <==> s.owner != NONE) && (s.owner == NONE || 0 <= s.owner < |s.threads|) && (s.held == NONE || s.held == s.owner)
  }

  predicate Inv(s: State) {
    && SharedOk(s)
    && forall t :: 0 <= t < |s.threads| ==> ThreadOk(s, t)
  }

  // ---- the listening events ----

  // The holder watches all listening sockets while it polls; nothing else is watched.
  predicate WatchOk(s: State, t: int)
    requires 0 <= t < |s.threads|
  {
    s.threads[t].watched == if s.held == t && Polling(s.threads[t].pc) then First(s.sockets) else {}
  }

  predicate AllWatchOk(s: State) {
    forall t :: 0 <= t < |s.threads| ==> WatchOk(s, t)
  }

  /** The step leaves a socket watched with the lock about to be released: event_add fails behind
      the first socket, or event_delete fails at the end of a pass. */
  predicate Leaves(s: State, t: int, i: Input)
    requires 0 <= t < |s.threads|
  {
    var pc := s.threads[t].pc;
    (pc.AddEvents? && 0 < i.added < s.sockets) || (pc.EndDel? && i.deleted < s.sockets)
  }

  // The thread that moves.
  lemma Mover(s: State, t: int, i: Input)
    requires Inv(s) && 0 <= t < |s.threads|
    ensures var s' := Next(s, t, i);
      |s'.threads| == |s.threads| && s'.sockets == s.sockets && ThreadOk(s', t) && SharedOk(s')
  {
    hide First, Watched;
    assert ThreadOk(s, t);
  }

  lemma FirstFacts(m: nat, n: nat)
    ensures First(n) == {} <==> n == 0
    ensures First(n) - First(m) == {} <==> n <= m
    ensures {} + First(n) == First(n) && {} - First(m) == {}
  {
    if n > 0 {
      assert 0 in First(n);
    }
    if m < n {
      assert m in First(n) - First(m);
    }
  }

  lemma MoverWatch(s: State, t: int, i: Input)
    requires 0 <= t < |s.threads| && SharedOk(s) && ThreadOk(s, t) && WatchOk(s, t)
    ensures |Next(s, t, i).threads| == |s.threads| && (WatchOk(Next(s, t, i), t) <==> !Leaves(s, t, i))
  {
    FirstFacts(i.deleted, s.sockets);
    FirstFacts(0, i.added);
    FirstFacts(0, s.sockets);
    hide First;
  }

  // Another thread.
  lemma Other(s: State, t: int, i: Input, u: int)
    requires Inv(s) && 0 <= t < |s.threads| && 0 <= u < |s.threads| && u != t
    ensures var s' := Next(s, t, i);
      |s'.threads| == |s.threads| && s'.threads[u] == s.threads[u] && ThreadOk(s', u) && (WatchOk(s, u) ==> WatchOk(s', u))
  {
    assert ThreadOk(s, t) && ThreadOk(s, u);
  }

  /** Every step of every thread keeps the lock and its holder in agreement; whatever the number
      of sockets, it keeps the watching to the polling holder exactly if it leaves nothing behind. */
  lemma StepKeeps(s: State, t: int, i: Input)
    requires Inv(s) && 0 <= t < |s.threads|
    ensures Inv(Next(s, t, i)) && |Next(s, t, i).threads| == |s.threads| && Next(s, t, i).sockets == s.sockets
    ensures AllWatchOk(s) ==> (AllWatchOk(Next(s, t, i)) <==> !Leaves(s, t, i))
  {
    var s' := Next(s, t, i);
    Mover(s, t, i);
    forall u | 0 <= u < |s'.threads| && u != t
      ensures ThreadOk(s', u) && (AllWatchOk(s) ==> WatchOk(s', u))
    {
      Other(s, t, i, u);
    }
    if AllWatchOk(s) {
      assert ThreadOk(s, t) && WatchOk(s, t);
      MoverWatch(s, t, i);
    }
  }

  // ---- runs ----

  datatype Move = Move(thread: int, input: Input)

  // accept_lock_init, every thread at the top of its loop.
  predicate Initial(s: State) {
    !s.lock && s.held == NONE && s.owner == NONE && forall t :: 0 <= t < |s.threads| ==> s.threads[t] == Thread(Start, {})
  }

  // A run of single steps; a tidy one has no step that leaves a socket behind.
  ghost predicate Run(s: State, ms: seq<Move>, s': State, tidy: bool)
    decreases |ms|
  {
    if ms == [] then s' == s
    else
      && 0 <= ms[0].thread < |s.threads|
      && (tidy ==> !Leaves(s, ms[0].thread, ms[0].input))
      && Run(Next(s, ms[0].thread, ms[0].input), ms[1..], s', tidy)
  }

  lemma {:induction false} RunKeeps(s: State, ms: seq<Move>, s': State, tidy: bool)
    requires Inv(s) && Run(s, ms, s', tidy)
    ensures Inv(s') && |s'.threads| == |s.threads| && s'.sockets == s.sockets && (tidy && AllWatchOk(s) ==> AllWatchOk(s'))
    decreases |ms|
  {
    hide Next, Leaves;
    if ms != [] {
      StepKeeps(s, ms[0].thread, ms[0].input);
      RunKeeps(Next(s, ms[0].thread, ms[0].input), ms[1..], s', tidy);
    }
  }

  /** In every interleaving: if accept_lock_held names a thread, the lock is on and that thread
      turned it on; and a thread at the top of its loop owns nothing. */
  lemma HolderOwns(s: State, ms: seq<Move>, s': State, t: int)
    requires Initial(s) && Run(s, ms, s', false) && 0 <= t < |s'.threads|
    ensures s'.held == t ==> s'.lock && s'.owner == t
    ensures s'.threads[t].pc.Start? ==> s'.owner != t && s'.held != t
  {
    RunKeeps(s, ms, s', false);
    assert ThreadOk(s', t);
  }

  /** For any number of listening sockets: in every run that leaves none behind, no two threads
      ever watch one; a thread that does holds the lock and is not at the top of its loop. */
  lemma OneWatcher(s: State, ms: seq<Move>, s': State, t: int, u: int)
    requires Initial(s) && Run(s, ms, s', true) && 0 <= t < |s'.threads| && 0 <= u < |s'.threads|
    ensures s'.threads[t].watched != {} && s'.threads[u].watched != {} ==> t == u
    ensures s'.threads[t].watched != {} ==> s'.held == t && s'.lock && !s'.threads[t].pc.Start?
  {
    RunKeeps(s, ms, s', true);
    assert ThreadOk(s', t) && WatchOk(s', t) && WatchOk(s', u);
  }

  // ---- a pass comes to its end ----

  function Base(back: Back): nat {
    match back
    case ToStart => 0
    case ToProcess => 7
    case ToAdd => 13
  }

  function Left(pc: Pc): nat {
    match pc
    case Start => 0
    case OffCas(back) => Base(back) + 1
    case OffLoad(back) => Base(back) + 2
    case FreeStore(back) => Base(back) + 3
    case FreeLoad(back) => Base(back) + 4
    case EndDel => 5
    case EndTest => 6
    case Process => 7
    case AddEvents => 12
    case AddTest => 13
    case QuitOff => 18
    case QuitDel => 19
    case QuitHeld => 20
    case QuitTest => 21
    case Claim => 22
    case TryCas => 23
    case TryLoad => 24
  }

  /** Whatever the other threads do, each own step brings a thread nearer to the end of its pass,
      by when the lock is released; the spinning release never spins. */
  lemma PassEnds(s: State, t: int, i: Input)
    requires Inv(s) && 0 <= t < |s.threads| && !s.threads[t].pc.Start?
    ensures |Next(s, t, i).threads| == |s.threads| && Left(Next(s, t, i).threads[t].pc) < Left(s.threads[t].pc)
  {
    assert ThreadOk(s, t);
    OwnStep(s, t, i);
    hide Goto, Watched, Inv, ThreadOk, Left;
  }

  lemma OwnStep(s: State, t: int, i: Input)
    requires 0 <= t < |s.threads| && SharedOk(s) && ThreadOk(s, t) && !s.threads[t].pc.Start?
    ensures Left(Goto(s, t, i)) < Left(s.threads[t].pc)
  {
  }

  // ---- quitting ----

  // A thread that does not own the lock and is not on the way to it.
  predicate Retired(s: State, t: int)
    requires 0 <= t < |s.threads|
  {
    var pc := s.threads[t].pc;
    s.owner != t && (pc.Start? || pc.QuitTest? || pc.QuitHeld? || pc.AddTest? || pc == FreeLoad(ToProcess) || pc.Process? || pc.EndTest?)
  }

  lemma StaysRetired(s: State, u: int, i: Input, t: int)
    requires Inv(s) && 0 <= u < |s.threads| && i.quit && 0 <= t < |s.threads| && Retired(s, t)
    ensures var s' := Next(s, u, i); |s'.threads| == |s.threads| && Retired(s', t) && s'.threads[t].watched == s.threads[t].watched
  {
    assert ThreadOk(s, t) && ThreadOk(s, u);
  }

  /** Once the quit flags are up, a thread at the top of its loop never tries for the lock again
      and never watches a socket more, whatever the others do. */
  lemma {:induction false} QuitForGood(s: State, ms: seq<Move>, s': State, tidy: bool, t: int)
    requires Inv(s) && Run(s, ms, s', tidy) && 0 <= t < |s.threads| && Retired(s, t)
    requires forall k :: 0 <= k < |ms| ==> ms[k].input.quit
    ensures |s'.threads| == |s.threads| && Retired(s', t) && s'.threads[t].watched == s.threads[t].watched
    decreases |ms|
  {
    if ms != [] {
      var s1 := Next(s, ms[0].thread, ms[0].input);
      StaysRetired(s, ms[0].thread, ms[0].input, t);
      StepKeeps(s, ms[0].thread, ms[0].input);
      hide Next, Leaves, Inv, Retired;
      QuitForGood(s1, ms[1..], s', tidy, t);
    }
  }

  // n steps of thread t alone.
  function Own(s: State, t: int, i: Input, n: nat): (r: State)
    requires 0 <= t < |s.threads|
    ensures |r.threads| == |s.threads|
    decreases n
  {
    if n == 0 then s else Own(Next(s, t, i), t, i, n - 1)
  }

  lemma OwnOnce(s: State, t: int, i: Input, n: nat)
    requires 0 <= t < |s.threads| && n > 0
    ensures |Next(s, t, i).threads| == |s.threads| && Own(s, t, i, n) == Own(Next(s, t, i), t, i, n - 1)
  {
  }

  /** A thread that has just got the lock and finds the quit flags up, accepting not yet switched
      off, deletes its listening events, switches accepting off and releases the lock before it
      polls. */
  lemma QuitReleases(s: State, t: int, i: Input)
    requires Inv(s) && 0 <= t < |s.threads| && s.threads[t].pc.Claim? && s.enable && i.quit
    ensures var s' := Own(s, t, i, 9);
      && s'.threads[t] == Thread(AddTest, s.threads[t].watched - First(i.deleted))
      && !s'.enable && !s'.lock && s'.held == NONE == s'.owner && Retired(s', t)
  {
    assert ThreadOk(s, t);
    OwnOnce(s, t, i, 9);
    StepKeeps(s, t, i);
    var s1 := Next(s, t, i);
    assert s1.threads[t] == Thread(QuitTest, s.threads[t].watched) && s1.held == t && s1.enable;
    hide Own, Next, First, Inv, Retired;
    HolderQuits(s1, t, i);
  }

  // The same from the test on.
  lemma HolderQuits(s: State, t: int, i: Input)
    requires Inv(s) && 0 <= t < |s.threads| && s.threads[t].pc.QuitTest? && s.held == t && s.enable && i.quit
    ensures var s' := Own(s, t, i, 8);
      && s'.threads[t] == Thread(AddTest, s.threads[t].watched - First(i.deleted))
      && !s'.enable && !s'.lock && s'.held == NONE == s'.owner && Retired(s', t)
  {
    assert ThreadOk(s, t);
    QuitDeletes(s, t, i);
    OwnOnce(s, t, i, 8);
    var s1 := Next(s, t, i);
    OwnOnce(s1, t, i, 7);
    var s2 := Next(s1, t, i);
    OwnOnce(s2, t, i, 6);
    var s3 := Next(s2, t, i);
    OwnOnce(s3, t, i, 5);
    var s4 := Next(s3, t, i);
    hide Own;
    QuitFrees(s4, t, i);
  }

  // The first half: to event_free_accept_lock.
  lemma QuitDeletes(s: State, t: int, i: Input)
    requires 0 <= t < |s.threads| && s.threads[t].pc.QuitTest? && s.held == t && s.enable && i.quit
    ensures var s1 := Next(s, t, i); |s1.threads| == |s.threads|
    ensures var s2 := Next(Next(s, t, i), t, i); |s2.threads| == |s.threads|
    ensures var s3 := Next(Next(Next(s, t, i), t, i), t, i); |s3.threads| == |s.threads|
    ensures var s4 := Next(Next(Next(Next(s, t, i), t, i), t, i), t, i);
      && |s4.threads| == |s.threads| && s4.threads[t] == Thread(FreeLoad(ToAdd), s.threads[t].watched - First(i.deleted))
      && s4.held == t && s4.owner == s.owner && s4.lock == s.lock && !s4.enable
  {
    hide First;
  }

  // The second half.
  lemma QuitFrees(s: State, t: int, i: Input)
    requires 0 <= t < |s.threads| && s.threads[t].pc == FreeLoad(ToAdd) && s.held == t == s.owner && s.lock
    ensures var s' := Own(s, t, i, 4);
      s'.threads[t] == Thread(AddTest, s.threads[t].watched) && s'.enable == s.enable && !s'.lock && s'.held == NONE == s'.owner
  {
    hide First;
    OwnOnce(s, t, i, 4);
    var s1 := Next(s, t, i);
    OwnOnce(s1, t, i, 3);
    var s2 := Next(s1, t, i);
    OwnOnce(s2, t, i, 2);
    var s3 := Next(s2, t, i);
    OwnOnce(s3, t, i, 1);
  }

  // ---- what a socket left behind leads to ----

  // Two threads watch the same listening socket.
  ghost predicate Shared(s: State) {
    exists t, u, k :: 0 <= t < u < |s.threads| && k in s.threads[t].watched && k in s.threads[u].watched
  }

  lemma {:induction false} RunJoin(s: State, ms: seq<Move>, s1: State, ns: seq<Move>, s2: State)
    requires Run(s, ms, s1, true) && Run(s1, ns, s2, true)
    ensures Run(s, ms + ns, s2, true)
    decreases |ms|
  {
    hide Next, Leaves;
    if ms == [] {
      assert ms + ns == ns;
    } else {
      assert (ms + ns)[0] == ms[0] && (ms + ns)[1..] == ms[1..] + ns;
      RunJoin(Next(s, ms[0].thread, ms[0].input), ms[1..], s1, ns, s2);
    }
  }

  lemma RunCons(s: State, m: Move, ms: seq<Move>, s': State)
    requires 0 <= m.thread < |s.threads| && !Leaves(s, m.thread, m.input) && Run(Next(s, m.thread, m.input), ms, s', true)
    ensures Run(s, [m] + ms, s', true)
  {
    assert ([m] + ms)[1..] == ms;
  }

  // Only thread t has moved, and it watches what it watched.
  predicate Alone(s: State, s': State, t: int)
    requires 0 <= t < |s.threads|
  {
    |s'.threads| == |s.threads| && s'.sockets == s.sockets && s'.threads == s.threads[t := s'.threads[t]]
    && s'.threads[t].watched == s.threads[t].watched
  }

  // Inside event_free_accept_lock as the holder.
  predicate Releasing(s: State, t: int)
    requires 0 <= t < |s.threads|
  {
    var pc := s.threads[t].pc;
    s.owner == t && (pc.FreeLoad? || pc.FreeStore? || pc.OffLoad? || pc.OffCas?)
  }

  lemma ReleaseStep(s: State, t: int, i: Input)
    requires Inv(s) && 0 <= t < |s.threads| && Releasing(s, t)
    ensures var s' := Next(s, t, i); Alone(s, s', t) && !Leaves(s, t, i) && (s'.owner == NONE || Releasing(s', t))
  {
    assert ThreadOk(s, t);
  }

  // The holder goes on alone until the lock is off.
  lemma {:induction false} Release(s: State, t: int) returns (ms: seq<Move>, s': State)
    requires Inv(s) && 0 <= t < |s.threads| && (s.owner == NONE || Releasing(s, t))
    ensures Run(s, ms, s', true) && Inv(s') && Alone(s, s', t) && s'.owner == NONE
    decreases if s.owner == NONE then 0 else 1 + Left(s.threads[t].pc)
  {
    if s.owner == NONE {
      return [], s;
    }
    var m := Move(t, Input(false, 0, 0));
    var s1 := Next(s, t, m.input);
    ReleaseStep(s, t, m.input);
    StepKeeps(s, t, m.input);
    PassEnds(s, t, m.input);
    hide Next, Leaves, Inv, Left;
    ms, s' := Release(s1, t);
    RunCons(s, m, ms, s');
    ms := [m] + ms;
  }

  // The lock is free, or t's on the way to conn_listening_add_event.
  predicate Gaining(s: State, t: int)
    requires 0 <= t < |s.threads|
  {
    var pc := s.threads[t].pc;
    s.owner == NONE || (s.owner == t && (pc.Claim? || pc.QuitTest? || pc.QuitHeld? || pc.AddTest? || pc.AddEvents?))
  }

  function GainRank(s: State, t: int): nat
    requires 0 <= t < |s.threads|
  {
    var pc := s.threads[t].pc;
    if s.owner == t then Left(pc) else if pc.TryLoad? || pc.TryCas? then 30 + Left(pc) else 60 + Left(pc)
  }

  lemma GainStep(s: State, t: int, i: Input)
    requires Inv(s) && 0 <= t < |s.threads| && Gaining(s, t) && !s.threads[t].pc.AddEvents? && !i.quit
    ensures var s' := Next(s, t, i); Alone(s, s', t) && !Leaves(s, t, i) && Gaining(s', t) && GainRank(s', t) < GainRank(s, t)
  {
    assert ThreadOk(s, t);
  }

  // A thread goes on alone until it holds the lock and is about to add the listening events.
  lemma {:induction false} Gain(s: State, t: int) returns (ms: seq<Move>, s': State)
    requires Inv(s) && 0 <= t < |s.threads| && Gaining(s, t)
    ensures Run(s, ms, s', true) && Inv(s') && Alone(s, s', t) && s'.threads[t].pc.AddEvents?
    decreases GainRank(s, t)
  {
    if s.threads[t].pc.AddEvents? {
      return [], s;
    }
    var m := Move(t, Input(false, 0, 0));
    var s1 := Next(s, t, m.input);
    GainStep(s, t, m.input);
    StepKeeps(s, t, m.input);
    hide Next, Leaves, Inv, GainRank, Gaining;
    ms, s' := Gain(s1, t);
    RunCons(s, m, ms, s');
    ms := [m] + ms;
  }

  // What a leaving step leaves.
  lemma LeftSocket(s: State, t: int, i: Input) returns (k: int)
    requires Inv(s) && 0 <= t < |s.threads| && AllWatchOk(s) && Leaves(s, t, i)
    ensures var s' := Next(s, t, i); |s'.threads| == |s.threads| && Releasing(s', t) && k in s'.threads[t].watched && k in First(s.sockets)
  {
    assert ThreadOk(s, t) && WatchOk(s, t);
    k := if s.threads[t].pc.AddEvents? then 0 else i.deleted;
  }

  lemma AddAll(s: State, t: int) returns (m: Move)
    requires Inv(s) && 0 <= t < |s.threads| && s.threads[t].pc.AddEvents?
    ensures var s' := Next(s, t, m.input);
      && m.thread == t && !Leaves(s, t, m.input) && |s'.threads| == |s.threads|
      && s'.threads == s.threads[t := s'.threads[t]] && First(s.sockets) <= s'.threads[t].watched && s'.threads[t].pc.Process?
      && s'.held == s.held && s'.sockets == s.sockets
  {
    m := Move(t, Input(false, s.sockets, 0));
  }

  /** Once a step leaves a socket behind, any other thread can come to watch the same one, by a
      run in which nothing else goes wrong. */
  lemma LeftBehind(s: State, t: int, i: Input, u: int) returns (ms: seq<Move>, s': State)
    requires Inv(s) && AllWatchOk(s) && 0 <= t < |s.threads| && Leaves(s, t, i) && 0 <= u < |s.threads| && u != t
    ensures Run(Next(s, t, i), ms, s', true) && Shared(s')
  {
    var s1 := Next(s, t, i);
    StepKeeps(s, t, i);
    var k := LeftSocket(s, t, i);
    hide Next, Leaves, Inv, Run, First, Left;
    var m1, s2 := Release(s1, t);
    var m2, s3 := Gain(s2, u);
    var m := AddAll(s3, u);
    s' := Next(s3, u, m.input);
    RunNil(s');
    RunCons(s3, m, [], s');
    RunJoin(s1, m1, s2, m2, s3);
    RunJoin(s1, m1 + m2, s3, [m] + [], s');
    ms := m1 + m2 + ([m] + []);
    assert k in s'.threads[t].watched && k in s'.threads[u].watched;
    assert if t < u then 0 <= t < u < |s'.threads| else 0 <= u < t < |s'.threads|;
  }

  lemma RunNil(s: State)
    ensures Run(s, [], s, true)
  {
  }

  /** The exact condition, for two threads or more and any number of sockets: after a run that
      left nothing behind, a step can lead to two threads on one socket, with nothing else left
      behind, if and only if the step itself leaves one. */
  lemma ExclusionExact(s: State, ms: seq<Move>, s1: State, t: int, i: Input)
    requires Initial(s) && Run(s, ms, s1, true) && 0 <= t < |s1.threads| && |s1.threads| >= 2
    ensures Leaves(s1, t, i) <==> exists ns, s2 :: Run(Next(s1, t, i), ns, s2, true) && Shared(s2)
  {
    RunKeeps(s, ms, s1, true);
    StepKeeps(s1, t, i);
    hide Next, Leaves, Inv, Run;
    if Leaves(s1, t, i) {
      var ns, s2 := LeftBehind(s1, t, i, if t == 0 then 1 else 0);
    } else if exists ns, s2 :: Run(Next(s1, t, i), ns, s2, true) && Shared(s2) {
      var ns, s2 :| Run(Next(s1, t, i), ns, s2, true) && Shared(s2);
      RunKeeps(Next(s1, t, i), ns, s2, true);
      NotShared(s2);
    }
  }

  lemma NotShared(s: State)
    requires AllWatchOk(s)
    ensures !Shared(s)
  {
    forall t, u | 0 <= t < u < |s.threads| ensures s.threads[t].watched == {} || s.threads[u].watched == {} {
      assert WatchOk(s, t) && WatchOk(s, u);
    }
  }

  // ---- both ways of leaving a socket happen ----

  lemma InitialInv(s: State)
    requires Initial(s)
    ensures Inv(s) && AllWatchOk(s)
  {
  }

  // n threads at the top of their loops, and a run after which the first one is to add events.
  lemma Begin(n: nat, sockets: nat) returns (s: State, ms: seq<Move>, s': State)
    requires n >= 1
    ensures Initial(s) && |s.threads| == n && s.sockets == sockets
    ensures Run(s, ms, s', true) && Inv(s') && AllWatchOk(s') && |s'.threads| == n && s'.sockets == sockets && s'.threads[0].pc.AddEvents?
  {
    s := State(false, NONE, true, NONE, seq(n, _ => Thread(Start, {})), sockets);
    InitialInv(s);
    hide Run, Inv;
    ms, s' := Gain(s, 0);
    RunKeeps(s, ms, s', true);
  }

  /** With two sockets or more, an event_add that fails at the second one puts two threads on the
      first. */
  lemma HalfAdded(n: nat, sockets: nat) returns (s: State, ms: seq<Move>, s1: State, ns: seq<Move>, s2: State)
    requires n >= 2 && sockets >= 2
    ensures Initial(s) && |s.threads| == n && s.sockets == sockets && Run(s, ms, s1, true)
    ensures |s1.threads| == n && s1.threads[0].pc.AddEvents?
    ensures Run(Next(s1, 0, Input(false, 1, 0)), ns, s2, true) && Shared(s2)
  {
    s, ms, s1 := Begin(n, sockets);
    ns, s2 := LeftBehind(s1, 0, Input(false, 1, 0), 1);
  }

  lemma PollStep(s: State, t: int, i: Input)
    requires Inv(s) && 0 <= t < |s.threads| && s.held == t && (s.threads[t].pc.Process? || s.threads[t].pc.EndTest?)
    ensures var s' := Next(s, t, i);
      && Alone(s, s', t) && s'.held == t && !Leaves(s, t, i)
      && s'.threads[t].pc == if s.threads[t].pc.Process? then EndTest else EndDel
  {
  }

  /** Already with one socket, an event_delete that fails puts two threads on it. */
  lemma NotDeleted(n: nat, sockets: nat) returns (s: State, ms: seq<Move>, s1: State, ns: seq<Move>, s2: State)
    requires n >= 2 && sockets >= 1
    ensures Initial(s) && |s.threads| == n && s.sockets == sockets && Run(s, ms, s1, true)
    ensures |s1.threads| == n && s1.threads[0].pc.EndDel?
    ensures Run(Next(s1, 0, Input(false, 0, 0)), ns, s2, true) && Shared(s2)
  {
    var s0, m0;
    s, m0, s0 := Begin(n, sockets);
    assert ThreadOk(s0, 0);
    var ma := AddAll(s0, 0);
    var a := Next(s0, 0, ma.input);
    StepKeeps(s0, 0, ma.input);
    var m := Move(0, Input(false, 0, 0));
    hide Next, Inv, Run, Leaves, First, ThreadOk, WatchOk;
    PollStep(a, 0, m.input);
    StepKeeps(a, 0, m.input);
    var b := Next(a, 0, m.input);
    PollStep(b, 0, m.input);
    StepKeeps(b, 0, m.input);
    s1 := Next(b, 0, m.input);
    RunNil(s1);
    RunCons(b, m, [], s1);
    RunCons(a, m, [m] + [], s1);
    RunCons(s0, ma, [m] + ([m] + []), s1);
    RunJoin(s, m0, s0, [ma] + ([m] + ([m] + [])), s1);
    ms := m0 + ([ma] + ([m] + ([m] + [])));
    DeleteLeaves(s1, 0, m.input);
    ns, s2 := LeftBehind(s1, 0, m.input, 1);
  }

  lemma DeleteLeaves(s: State, t: int, i: Input)
    requires 0 <= t < |s.threads| && s.threads[t].pc.EndDel?
    ensures Leaves(s, t, i) <==> i.deleted < s.sockets
  {
  }
}

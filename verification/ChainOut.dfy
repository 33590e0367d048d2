/** Sending a chain with writev: src/core/dfs_sysio.c and src/core/dfs_chain.c, against a kernel
    that may take any part of what it is offered. */
module ChainOut {
  import opened ChainLoss
  import opened ChainSpec

  class Buf {
    const memory: bool
    var pos: int
    var last: int

    constructor (memory: bool, pos: int, last: int)
      ensures this.memory == memory && this.pos == pos && this.last == last
    {
      this.memory, this.pos, this.last := memory, pos, last;
    }
  }

  datatype Reply = Rest(chain: seq<Buf>) | ChainError

  class Conn {
    var sent: int
    var ready: bool
    var script: seq<Outcome>      // what the kernel is going to do; then it is busy
    ghost var stream: seq<int>    // what it has taken

    constructor (script: seq<Outcome>)
      ensures sent == 0 && ready && this.script == script && stream == []
    {
      sent, ready, this.script, stream := 0, true, script, [];
    }
  }

  function SpanOf(b: Buf): Span
    reads b
  {
    Span(b.memory, b.pos, b.last)
  }

  ghost function Spans(chain: seq<Buf>): (ss: seq<Span>)
    reads chain
    ensures |ss| == |chain|
  {
    if chain == [] then [] else [SpanOf(chain[0])] + Spans(chain[1..])
  }

  lemma {:induction false} SpansAt(chain: seq<Buf>, k: int)
    requires 0 <= k <= |chain|
    ensures Spans(chain)[k..] == Spans(chain[k..])
    ensures k < |chain| ==> Spans(chain)[k] == SpanOf(chain[k])
  {
    if k > 0 {
      SpansAt(chain[1..], k - 1);
      assert chain[1..][k - 1..] == chain[k..];
    } else {
      assert chain[0..] == chain;
    }
  }

  ghost predicate Distinct(chain: seq<Buf>) {
    forall i, j :: 0 <= i < j < |chain| ==> chain[i] != chain[j]
  }

  lemma PackNext(ss: seq<Span>, k: int, vs: seq<Iov>, lastPos: int, packed: int, limit: int)
    requires 0 <= k <= |ss|
    ensures Stops(ss[k..], |vs|, packed, limit) ==> Pack(ss[k..], vs, lastPos, packed, limit) == (vs, packed)
    ensures k < |ss| && !Stops(ss[k..], |vs|, packed, limit) ==>
      Pack(ss[k..], vs, lastPos, packed, limit) ==
        if Size(ss[k]) <= 0 then Pack(ss[k + 1..], vs, lastPos, packed, limit)
        else Pack(ss[k + 1..], Grown(vs, lastPos, ss[k].pos, Fit(ss[k], packed, limit)), ss[k].pos, packed + Fit(ss[k], packed, limit), limit)
  {
    if k < |ss| {
      assert ss[k..][1..] == ss[k + 1..];
    }
  }

  method Grow(iovs: array<Iov>, i0: int, lastPos: int, pos: int, b: int) returns (i: int)
    requires 0 <= i0 < iovs.Length && (lastPos == pos ==> i0 > 0)
    modifies iovs
    ensures 0 < i <= iovs.Length && iovs[..i] == Grown(old(iovs[..i0]), lastPos, pos, b)
  {
    i := i0;
    if lastPos != pos {
      iovs[i] := Iov(pos, b);
      i := i + 1;
    } else {
      iovs[i - 1] := iovs[i - 1].(len := iovs[i - 1].len + b);
    }
  }

  lemma {:induction false} SpansAll(chain: seq<Buf>)
    ensures forall k :: 0 <= k < |chain| ==> Spans(chain)[k] == SpanOf(chain[k])
  {
    forall k | 0 <= k < |chain| ensures Spans(chain)[k] == SpanOf(chain[k]) {
      SpansAt(chain, k);
    }
  }

  /** sysio_pack_chain_to_iovs */
  method PackChain(iovs: array<Iov>, chain: seq<Buf>, packed0: int, limit: int) returns (i: int, packed: int)
    requires iovs.Length == IOVS_MAX && AllGood(Spans(chain))
    modifies iovs
    ensures 0 <= i <= IOVS_MAX && (iovs[..i], packed) == Pack(Spans(chain), [], 0, packed0, limit)
  {
    hide Pack, Grown, Spans;
    ghost var ss := Spans(chain);
    SpansAll(chain);
    i, packed := 0, packed0;
    var k, lastPos := 0, 0;
    assert ss[0..] == ss && iovs[..0] == [];
    while k < |chain| && i < IOVS_MAX && packed < limit
      invariant 0 <= k <= |chain| && 0 <= i <= IOVS_MAX && (lastPos != 0 ==> i > 0)
      invariant forall k :: 0 <= k < |chain| ==> ss[k] == SpanOf(chain[k])
      invariant Pack(ss[k..], iovs[..i], lastPos, packed, limit) == Pack(ss, [], 0, packed0, limit)
      decreases |chain| - k
    {
      PackNext(ss, k, iovs[..i], lastPos, packed, limit);
      if !chain[k].memory {
        break;
      }
      var bsize := chain[k].last - chain[k].pos;
      if bsize <= 0 {
        k := k + 1;
        continue;
      }
      if packed + bsize > limit {
        bsize := limit - packed;
      }
      i := Grow(iovs, i, lastPos, chain[k].pos, bsize);
      packed := packed + bsize;
      lastPos := chain[k].pos;
      k := k + 1;
    }
    PackNext(ss, k, iovs[..i], lastPos, packed, limit);
  }

  lemma AdvanceNext(ss: seq<Span>, k: int, n: nat)
    requires 0 <= k <= |ss| && AllGood(ss)
    ensures k == |ss| || n == 0 ==> Advance(ss[k..], n) == ss[k..]
    ensures k < |ss| && 0 < n < Size(ss[k]) ==> Advance(ss[k..], n) == [ss[k].(pos := ss[k].pos + n)] + ss[k + 1..]
    ensures k < |ss| && n > 0 && n >= Size(ss[k]) ==> Advance(ss[k..], n) == Advance(ss[k + 1..], n - Size(ss[k]))
  {
    if k < |ss| {
      assert ss[k..][1..] == ss[k + 1..];
    }
  }

  lemma {:induction false} SpansAre(chain: seq<Buf>, ss: seq<Span>)
    requires |chain| == |ss| && forall k :: 0 <= k < |chain| ==> ss[k] == SpanOf(chain[k])
    ensures Spans(chain) == ss
  {
    if chain != [] {
      SpansAre(chain[1..], ss[1..]);
    }
  }

  /** chain_write_update: the links that are sent whole drop off, the next one starts later. */
  method WriteUpdate(chain: seq<Buf>, size0: nat) returns (rest: seq<Buf>)
    requires AllGood(Spans(chain)) && Distinct(chain)
    modifies chain
    ensures |rest| <= |chain| && rest == chain[|chain| - |rest|..]
    ensures Spans(rest) == Advance(old(Spans(chain)), size0)
  {
    hide Advance, Spans;
    ghost var ss := Spans(chain);
    SpansAll(chain);
    assert ss[0..] == ss;
    var k, size := 0, size0;
    while k < |chain| && size > 0
      invariant 0 <= k <= |chain| && size >= 0
      invariant forall j :: k <= j < |chain| ==> SpanOf(chain[j]) == ss[j]
      invariant Advance(ss[k..], size) == Advance(ss, size0)
    {
      AdvanceNext(ss, k, size);
      var bsize := chain[k].last - chain[k].pos;
      if size < bsize {
        chain[k].pos := chain[k].pos + size;
        rest := chain[k..];
        SpansAre(rest, [ss[k].(pos := ss[k].pos + size)] + ss[k + 1..]);
        return;
      }
      size := size - bsize;
      chain[k].pos := chain[k].last;
      k := k + 1;
    }
    AdvanceNext(ss, k, size);
    rest := chain[k..];
    SpansAre(rest, ss[k..]);
  }

  lemma {:induction false} IovTotalIsLength(w: World, vs: seq<Iov>)
    requires IovsGood(vs)
    ensures |IovBytes(w, vs)| == IovTotal(vs)
  {
    if vs != [] {
      IovTotalIsLength(w, vs[..|vs| - 1]);
      SliceLength(w.mem, vs[|vs| - 1].base, vs[|vs| - 1].len);
    }
  }

  /** sysio_writev_iovs: retries interrupted calls; what is taken is a prefix of what is offered. */
  method WritevIovs(c: Conn, vs: seq<Iov>, ghost w: World) returns (r: Sent)
    requires IovsGood(vs)
    modifies c`script, c`stream
    ensures r.Bytes? ==> 0 < r.n <= |IovBytes(w, vs)| && c.stream == old(c.stream) + IovBytes(w, vs)[..r.n]
    ensures !r.Bytes? ==> c.stream == old(c.stream)
    ensures vs != [] ==> r == Answer(Uninterrupted(old(c.script)), IovTotal(vs)) && c.script == Later(Uninterrupted(old(c.script)))
  {
    IovTotalIsLength(w, vs);
    if vs == [] {
      return Error;
    }
    while true
      invariant c.stream == old(c.stream)
      invariant Uninterrupted(c.script) == Uninterrupted(old(c.script))
      decreases |c.script|
    {
      var what := if c.script == [] then Eagain else c.script[0];
      if c.script != [] {
        c.script := c.script[1..];
      }
      match what {
        case Wrote(n) =>
          var total := IovTotal(vs);
          if total == 0 {
            return Error;
          }
          var rc := 1 + n % total;
          c.stream := c.stream + IovBytes(w, vs)[..rc];
          return Bytes(rc);
        case Eintr =>
        case Eagain =>
          return Again;
        case Failed =>
          return Error;
        case Nothing =>
          return Error;
      }
    }
  }

  // A chain that is packed right at every stage.
  ghost predicate Sendable(ss: seq<Span>, limit: int) {
    AllGood(ss) && Apart(ss, limit)
  }

  // The vector packed from a sendable chain.
  lemma PackedRight(w: World, ss: seq<Span>, packed: int, limit: int)
    requires Sendable(ss, limit) && 0 <= packed < limit
    ensures var r := Pack(ss, [], 0, packed, limit);
      && packed <= r.1 <= limit && IovsGood(r.0) && r.1 - packed <= |ChainSpec.Bytes(w, ss)|
      && IovBytes(w, r.0) == ChainSpec.Bytes(w, ss)[..r.1 - packed]
  {
    ApartNoMerge(ss, 0, 0, 0, packed, limit);
    PackCarries(w, ss, [], 0, packed, limit);
  }

  // What one pass of the loop found.
  datatype Pass = Empty | Took(rest: seq<Buf>) | Wait | Fail

  // Packs, writes and advances once.
  method SendOnce(c: Conn, chain: seq<Buf>, iovs: array<Iov>, packed0: int, limit: int, ghost w: World)
    returns (p: Pass, packed: int, ghost n: nat)
    requires Sendable(Spans(chain), limit) && Distinct(chain) && chain != [] && 0 <= packed0 < limit && iovs.Length == IOVS_MAX
    modifies c`sent, c`script, c`stream, chain, iovs
    ensures packed0 + n <= packed <= limit && n <= |old(ChainSpec.Bytes(w, Spans(chain)))|
    ensures c.stream == old(c.stream) + old(ChainSpec.Bytes(w, Spans(chain)))[..n] && c.sent == old(c.sent) + n
    ensures !p.Took? ==> n == 0 && Spans(chain) == old(Spans(chain))
    ensures p.Took? ==> n > 0 && SuffixOf(p.rest, chain) && Spans(p.rest) == Advance(old(Spans(chain)), n)
    ensures var (vs, q) := Pack(old(Spans(chain)), [], 0, packed0, limit);
      && packed == q && (p.Empty? <==> vs == [])
      && (!p.Empty? ==> c.script == Later(Uninterrupted(old(c.script))) && Told(p, n, Answer(Uninterrupted(old(c.script)), IovTotal(vs))))
  {
    hide Sendable, ChainSpec.Bytes, IovBytes, Pack, Advance, Spans, Answer, Uninterrupted, IovTotal, Later;
    ghost var ss := Spans(chain);
    SendableGood(ss, limit);
    ghost var all := ChainSpec.Bytes(w, ss);
    PackedRight(w, ss, packed0, limit);
    var i;
    n := 0;
    i, packed := PackChain(iovs, chain, packed0, limit);
    if i == 0 {
      return Empty, packed, 0;
    }
    var sent := WritevIovs(c, iovs[..i], w);
    match sent {
      case Bytes(rc) =>
        n := rc;
        assert all[..packed - packed0][..rc] == all[..rc];
        c.sent := c.sent + rc;
        var rest := WriteUpdate(chain, rc);
        p := Took(rest);
      case Again =>
        p := Wait;
      case Error =>
        p := Fail;
    }
  }

  // The pass reports what the kernel answered.
  predicate Told(p: Pass, n: int, a: Sent) {
    match a
    case Bytes(k) => p.Took? && n == k
    case Again => p.Wait?
    case Error => p.Fail?
  }

  lemma SendableGood(ss: seq<Span>, limit: int)
    requires Sendable(ss, limit)
    ensures AllGood(ss)
  {
  }

  function EffectiveLimit(limit: nat): nat {
    if limit == 0 || limit > MAX_LIMIT then MAX_LIMIT else limit
  }

  ghost predicate SuffixOf(rest: seq<Buf>, chain: seq<Buf>) {
    |rest| <= |chain| && rest == chain[|chain| - |rest|..]
  }

  lemma SuffixSelf(chain: seq<Buf>)
    ensures SuffixOf(chain, chain)
  {
  }

  lemma SuffixFacts(rest: seq<Buf>, chain: seq<Buf>)
    requires SuffixOf(rest, chain) && Distinct(chain)
    ensures Distinct(rest) && forall i :: 0 <= i < |rest| ==> rest[i] in chain
  {
  }

  lemma SuffixOn(rest: seq<Buf>, links: seq<Buf>, chain: seq<Buf>)
    requires SuffixOf(rest, links) && SuffixOf(links, chain)
    ensures SuffixOf(rest, chain)
  {
  }

  // taken, then what is left, is the whole.
  ghost predicate Intact(w: World, taken: seq<int>, left: seq<Span>, whole: seq<int>) {
    AllGood(left) && taken + ChainSpec.Bytes(w, left) == whole
  }

  lemma TakeIntact(w: World, taken: seq<int>, ss: seq<Span>, n: nat, whole: seq<int>, limit: int)
    requires Sendable(ss, limit) && Intact(w, taken, ss, whole) && n <= |ChainSpec.Bytes(w, ss)|
    ensures Sendable(Advance(ss, n), limit) && Intact(w, taken + ChainSpec.Bytes(w, ss)[..n], Advance(ss, n), whole)
  {
    AdvanceBytes(w, ss, n);
    AdvanceApart(ss, n, limit);
    hide ChainSpec.Bytes, Advance;
    Moved(taken, ChainSpec.Bytes(w, ss), n);
  }

  // Bytes taken from an intact chain come first; all are taken exactly if none is left.
  lemma IntactPrefix(w: World, taken: seq<int>, ss: seq<Span>, whole: seq<int>)
    requires Intact(w, taken, ss, whole)
    ensures AllGood(ss) && taken <= whole && (Total(ss) == 0 <==> taken == whole)
  {
    TotalIsLength(w, ss);
  }

  // The reply for each way a call may end.
  ghost predicate Ended(e: End, r: Reply, w: World, taken: seq<int>, whole: seq<int>, left: seq<Span>, ready: bool) {
    match e
    case Kept => r.Rest? && Intact(w, taken, left, whole) && ready
    case Busy => r.Rest? && Intact(w, taken, left, whole) && !ready
    case Dropped => r.Rest? && r.chain == [] && taken <= whole && taken != whole && ready
    case Broken => r.ChainError? && taken <= whole && ready
  }

  // The links that are left in a reply.
  ghost function Left(r: Reply): seq<Span>
    reads if r.Rest? then r.chain else []
  {
    if r.Rest? then Spans(r.chain) else []
  }

  // The loop of sysio_writev_chain.
  method SendAll(c: Conn, chain: seq<Buf>, limit: int, ghost w: World, ghost whole: seq<int>) returns (r: Reply, ghost taken: seq<int>)
    requires Sendable(Spans(chain), limit) && Distinct(chain) && limit > 0 && Intact(w, [], Spans(chain), whole) && c.ready
    modifies c, chain
    ensures c.stream == old(c.stream) + taken && |taken| <= limit && c.sent == old(c.sent) + |taken|
    ensures Sendable(Left(r), limit)
    ensures var (n, e) := old(Sending(Spans(chain), 0, limit, c.script)); |taken| == n && Ended(e, r, w, taken, whole, Left(r), c.ready)
    ensures r.Rest? && r.chain != [] && r.chain[0].memory && c.ready ==> taken != []
  {
    hide Sendable, ChainSpec.Bytes, Advance, Spans, Intact, SuffixOf, Distinct, Sending, Pack, Answer, Total, IovTotal, Uninterrupted, Later;
    taken := [];
    SuffixSelf(chain);
    SendableGood(Spans(chain), limit);
    ghost var (n0, e0) := Sending(Spans(chain), 0, limit, c.script);
    var iovs := new Iov[IOVS_MAX](_ => Iov(0, 0));
    var links, packed := chain, 0;
    while links != [] && packed < limit
      invariant SuffixOf(links, chain) && Sendable(Spans(links), limit) && Intact(w, taken, Spans(links), whole)
      invariant |taken| <= packed <= limit && c.ready && c.stream == old(c.stream) + taken && c.sent == old(c.sent) + |taken|
      invariant AllGood(Spans(links)) && (packed >= limit ==> taken != [])
      invariant var (n, e) := Sending(Spans(links), packed, limit, c.script); n0 == |taken| + n && e0 == e
      decreases |c.script|
    {
      SpansAt(links, 0);
      if !links[0].memory {
        break;
      }
      ghost var ss, before := Spans(links), taken;
      SuffixFacts(links, chain);
      IntactPrefix(w, before, ss, whole);
      SendingStep(ss, packed, limit, c.script);
      var p;
      ghost var n;
      p, packed, n := SendOnce(c, links, iovs, packed, limit, w);
      match p {
        case Empty =>
          NothingLeft(w, taken, limit);
          return Rest([]), taken;
        case Took(rest) =>
          TakeIntact(w, before, ss, n, whole, limit);
          taken := before + ChainSpec.Bytes(w, ss)[..n];
          SuffixOn(rest, links, chain);
          links := rest;
        case Wait =>
          c.ready := false;
          return Rest(links), taken;
        case Fail =>
          NothingLeft(w, taken, limit);
          return ChainError, taken;
      }
    }
    SendingDone(Spans(links), packed, limit, c.script);
    SpansAll(links);
    return Rest(links), taken;
  }

  lemma SendingDone(ss: seq<Span>, packed: int, limit: int, script: seq<Outcome>)
    requires AllGood(ss) && (ss == [] || packed >= limit || !ss[0].memory)
    ensures Sending(ss, packed, limit, script) == (0, Kept)
  {
  }

  /** sysio_writev_chain, for any kernel: it ends as Sending says. Unless it drops hidden bytes,
      the bytes taken followed by those of the returned chain are the bytes given; it can drop
      them only from a chain that hides some, so never from a memory chain. Never more than the
      limit is taken, and the returned chain is again packed right. */
  method WritevChain(c: Conn, chain: seq<Buf>, limit0: nat, ghost w: World) returns (r: Reply, ghost taken: seq<int>)
    requires Sendable(Spans(chain), EffectiveLimit(limit0)) && Distinct(chain)
    modifies c, chain
    ensures c.stream == old(c.stream) + taken && |taken| <= EffectiveLimit(limit0) && c.sent == old(c.sent) + |taken|
    ensures Sendable(Left(r), EffectiveLimit(limit0))
    ensures var (n, e) := old(if c.ready then Sending(Spans(chain), 0, EffectiveLimit(limit0), c.script) else (0, Busy));
      |taken| == n && Ended(e, r, w, taken, old(ChainSpec.Bytes(w, Spans(chain))), Left(r), c.ready)
    // The two halves of LossExact that hold for every kernel.
    ensures r.Rest? && !old(Hidden(Spans(chain)) && Lead(Spans(chain)) < EffectiveLimit(limit0)) ==>
      Intact(w, taken, Left(r), old(ChainSpec.Bytes(w, Spans(chain))))
    ensures old(c.ready && Hidden(Spans(chain)) && Lead(Spans(chain)) == 0) ==> r == Rest([]) && taken == []
    ensures r.Rest? && old(AllMemory(Spans(chain))) ==> Intact(w, taken, Left(r), old(ChainSpec.Bytes(w, Spans(chain))))
    // It stops early only at a file link, after taking something, or when the kernel is busy.
    ensures old(c.ready) && r.Rest? && r.chain != [] && r.chain[0].memory && c.ready ==> taken != []
  {
    hide Sendable, ChainSpec.Bytes, Spans, Sending, Hidden, Lead, Intact;
    ghost var ss := Spans(chain);
    var limit := if limit0 == 0 || limit0 > MAX_LIMIT then MAX_LIMIT else limit0;
    SendableGood(ss, limit);
    ghost var whole := ChainSpec.Bytes(w, ss);
    NothingTaken(w, ss);
    CallFacts(ss, limit, c.script);
    if chain == [] || !c.ready {
      return Rest(chain), [];
    }
    r, taken := SendAll(c, chain, limit, w, whole);
  }

  lemma NothingTaken(w: World, ss: seq<Span>)
    requires AllGood(ss)
    ensures Intact(w, [], ss, ChainSpec.Bytes(w, ss))
  {
  }

  // What a call does on a chain that hides nothing, and on one that hides bytes behind nothing.
  lemma CallFacts(ss: seq<Span>, limit: int, script: seq<Outcome>)
    requires AllGood(ss) && limit > 0
    ensures AllMemory(ss) ==> !Hidden(ss)
    ensures !(Hidden(ss) && Lead(ss) < limit) ==> !Sending(ss, 0, limit, script).1.Dropped?
    ensures Hidden(ss) && Lead(ss) == 0 ==> Sending(ss, 0, limit, script) == (0, Dropped)
    ensures ss == [] ==> Sending(ss, 0, limit, script) == (0, Kept)
  {
    if AllMemory(ss) {
      MemoryNotHidden(ss);
    }
    DroppedWasHidden(ss, 0, limit, script);
    if Hidden(ss) && Lead(ss) == 0 {
      HiddenNow(ss);
      DroppedAtOnce(ss, limit, script);
    }
  }

  lemma Moved<T>(a: seq<T>, b: seq<T>, n: nat)
    requires n <= |b|
    ensures (a + b[..n]) + b[n..] == a + b
  {
  }

  lemma NothingLeft(w: World, taken: seq<int>, limit: int)
    ensures Sendable(Spans([]), limit) && Sendable([], limit) && Intact(w, taken, Spans([]), taken)
  {
  }
}

/** A whole call of sysio_writev_chain as a function of the chain and of what the kernel does, and
    which chains lose their file links in it. */
module ChainLoss {
  import opened ChainSpec

  // What one writev call does; a successful one takes 1 + n % offered bytes.
  datatype Outcome = Wrote(n: nat) | Eintr | Eagain | Failed | Nothing

  datatype Sent = Bytes(n: int) | Again | Error

  // How a call ends: with what is left, with what is left and a busy kernel, with nothing
  // although bytes are left, or with an error.
  datatype End = Kept | Busy | Dropped | Broken

  function IovTotal(vs: seq<Iov>): int {
    if vs == [] then 0 else IovTotal(vs[..|vs| - 1]) + vs[|vs| - 1].len
  }

  // The script from the first call that is not interrupted.
  function Uninterrupted(script: seq<Outcome>): (r: seq<Outcome>)
    ensures |r| <= |script|
  {
    if script != [] && script[0].Eintr? then Uninterrupted(script[1..]) else script
  }

  // What the caller is told.
  function Answer(script: seq<Outcome>, total: int): Sent {
    if script == [] || script[0].Eagain? then Again
    else if script[0].Wrote? && total > 0 then Bytes(1 + script[0].n % total)
    else Error
  }

  function Later(script: seq<Outcome>): seq<Outcome> {
    if script == [] then [] else script[1..]
  }

  /** The loop of sysio_writev_chain: how many bytes are taken, and how it ends. */
  function Sending(ss: seq<Span>, packed: int, limit: int, script: seq<Outcome>): (int, End)
    requires AllGood(ss)
    decreases |script|
  {
    if ss == [] || packed >= limit || !ss[0].memory then (0, Kept)
    else
      var (vs, q) := Pack(ss, [], 0, packed, limit);
      var rest := Uninterrupted(script);
      if vs == [] then (0, if Total(ss) == 0 then Kept else Dropped)
      else match Answer(rest, IovTotal(vs))
        case Bytes(n) =>
          var (m, e) := Sending(Advance(ss, n), q, limit, Later(rest));
          (n + m, e)
        case Again => (0, Busy)
        case Error => (0, Broken)
  }

  // One pass of the loop, as the function has it.
  lemma SendingStep(ss: seq<Span>, packed: int, limit: int, script: seq<Outcome>)
    requires AllGood(ss) && ss != [] && ss[0].memory && packed < limit
    ensures var (vs, q) := Pack(ss, [], 0, packed, limit);
      var rest := Uninterrupted(script);
      var a := Answer(rest, IovTotal(vs));
      var r := Sending(ss, packed, limit, script);
      && (vs == [] ==> r == (0, if Total(ss) == 0 then Kept else Dropped))
      && (vs != [] && a.Again? ==> r == (0, Busy)) && (vs != [] && a.Error? ==> r == (0, Broken))
      && (vs != [] && a.Bytes? ==> a.n >= 0 && |Later(rest)| < |script| && var (m, e) := Sending(Advance(ss, a.n), q, limit, Later(rest)); r == (a.n + m, e))
  {
  }

  // ---- the bytes before the first file link ----

  function Total(ss: seq<Span>): int {
    if ss == [] then 0 else Size(ss[0]) + Total(ss[1..])
  }

  function Lead(ss: seq<Span>): int {
    if ss == [] || !ss[0].memory then 0 else Size(ss[0]) + Lead(ss[1..])
  }

  lemma {:induction false} TotalIsLength(w: World, ss: seq<Span>)
    requires AllGood(ss)
    ensures |ChainSpec.Bytes(w, ss)| == Total(ss) >= Lead(ss) >= 0
  {
    if ss != [] {
      SpanLength(w, ss[0]);
      TotalIsLength(w, ss[1..]);
    }
  }

  lemma LeadBelowTotal(ss: seq<Span>)
    requires AllGood(ss)
    ensures 0 <= Lead(ss) <= Total(ss)
  {
    TotalIsLength(Plain(), ss);
  }

  lemma GrownTotal(vs: seq<Iov>, lastPos: int, pos: int, b: int)
    ensures IovTotal(Grown(vs, lastPos, pos, b)) == IovTotal(vs) + b
  {
    var g := Grown(vs, lastPos, pos, b);
    assert g[..|g| - 1] == if lastPos != pos || vs == [] then vs else vs[..|vs| - 1];
  }

  /** The vector holds what is counted, none of it from behind the first file link. */
  lemma {:induction false} PackTotal(ss: seq<Span>, vs: seq<Iov>, lastPos: int, packed: int, limit: int)
    requires AllGood(ss)
    ensures var r := Pack(ss, vs, lastPos, packed, limit);
      IovTotal(r.0) - IovTotal(vs) == r.1 - packed && 0 <= r.1 - packed <= Lead(ss) && |r.0| >= |vs|
    decreases ss
  {
    LeadBelowTotal(ss);
    hide IovTotal, Grown;
    if !Stops(ss, |vs|, packed, limit) {
      LeadBelowTotal(ss[1..]);
      if Size(ss[0]) <= 0 {
        PackTotal(ss[1..], vs, lastPos, packed, limit);
      } else {
        var b := Fit(ss[0], packed, limit);
        GrownTotal(vs, lastPos, ss[0].pos, b);
        GrownLength(vs, lastPos, ss[0].pos, b);
        PackTotal(ss[1..], Grown(vs, lastPos, ss[0].pos, b), ss[0].pos, packed + b, limit);
      }
    }
  }

  /** Packing stops only at the limit, at the last slot, or when every byte before the first file
      link is in. */
  lemma {:induction false} PackFull(ss: seq<Span>, vs: seq<Iov>, lastPos: int, packed: int, limit: int)
    requires AllGood(ss) && packed <= limit
    ensures var r := Pack(ss, vs, lastPos, packed, limit);
      r.1 <= limit && (r.1 == limit || |r.0| >= IOVS_MAX || r.1 - packed == Lead(ss))
    decreases ss
  {
    LeadBelowTotal(ss);
    hide Grown;
    if !Stops(ss, |vs|, packed, limit) {
      if Size(ss[0]) <= 0 {
        PackFull(ss[1..], vs, lastPos, packed, limit);
      } else {
        var b := Fit(ss[0], packed, limit);
        PackFull(ss[1..], Grown(vs, lastPos, ss[0].pos, b), ss[0].pos, packed + b, limit);
        if packed + b == limit {
          FullPack(ss[1..], Grown(vs, lastPos, ss[0].pos, b), ss[0].pos, packed + b, limit);
        }
      }
    }
  }

  lemma GrownLength(vs: seq<Iov>, lastPos: int, pos: int, b: int)
    ensures |Grown(vs, lastPos, pos, b)| >= |vs| && Grown(vs, lastPos, pos, b) != []
  {
  }

  // ---- interruptions ----

  // The outcomes that are not interruptions.
  function Calm(script: seq<Outcome>): seq<Outcome> {
    if script == [] then [] else (if script[0].Eintr? then [] else [script[0]]) + Calm(script[1..])
  }

  // The call that counts is the first that is not interrupted.
  lemma {:induction false} CalmHead(script: seq<Outcome>)
    ensures var u, c := Uninterrupted(script), Calm(script);
      && (u == [] <==> c == []) && (u != [] ==> u[0] == c[0] && !u[0].Eintr?) && Calm(Later(u)) == Later(c)
      && Uninterrupted(c) == c
  {
    if script != [] {
      CalmHead(script[1..]);
      if script[0].Eintr? {
        assert [] + Calm(script[1..]) == Calm(script[1..]);
      } else {
        assert Calm(script)[1..] == Calm(script[1..]);
      }
    }
  }

  lemma CalmAnswer(script: seq<Outcome>, total: int)
    ensures var u, v := Uninterrupted(script), Uninterrupted(Calm(script)); Answer(v, total) == Answer(u, total) && Later(v) == Calm(Later(u))
  {
    hide Uninterrupted, Calm;
    CalmHead(script);
  }

  /** Interruptions change neither how many bytes a call takes nor how it ends. */
  lemma {:induction false} CalmSends(ss: seq<Span>, packed: int, limit: int, script: seq<Outcome>)
    requires AllGood(ss)
    ensures Sending(ss, packed, limit, Calm(script)) == Sending(ss, packed, limit, script)
    decreases |script|
  {
    if ss != [] && packed < limit && ss[0].memory {
      hide Sending, Pack, Calm, Uninterrupted, IovTotal, Total, Answer, Later, Advance, AllGood;
      SendingStep(ss, packed, limit, script);
      SendingStep(ss, packed, limit, Calm(script));
      var (vs, q) := Pack(ss, [], 0, packed, limit);
      CalmAnswer(script, IovTotal(vs));
      var rest := Uninterrupted(script);
      var a := Answer(rest, IovTotal(vs));
      if vs != [] && a.Bytes? {
        CalmSends(Advance(ss, a.n), q, limit, Later(rest));
      }
    }
  }

  /** A call takes bytes exactly if some precede the first file link, the limit is not reached, and
      the first call of the kernel that is not interrupted takes some. */
  lemma TakesSome(ss: seq<Span>, packed: int, limit: int, script: seq<Outcome>)
    requires AllGood(ss)
    ensures Sending(ss, packed, limit, script).0 > 0 <==> Lead(ss) > 0 && packed < limit && Calm(script) != [] && Calm(script)[0].Wrote?
    ensures Lead(ss) > 0 && packed < limit && Calm(script) != [] && (Calm(script)[0].Failed? || Calm(script)[0].Nothing?) ==>
      Sending(ss, packed, limit, script).1.Broken?
  {
    LeadBelowTotal(ss);
    if ss != [] && packed < limit && ss[0].memory {
      hide Sending, Pack, Calm, Uninterrupted, IovTotal, Total, Lead;
      SendingStep(ss, packed, limit, script);
      EmptyPack(ss, packed, limit);
      PackTotal(ss, [], 0, packed, limit);
      CalmHead(script);
      NoIovs();
      var (vs, q) := Pack(ss, [], 0, packed, limit);
      var rest := Uninterrupted(script);
      var a := Answer(rest, IovTotal(vs));
      if vs != [] && a.Bytes? {
        SendingNat(Advance(ss, a.n), q, limit, Later(rest));
      }
    }
  }

  lemma NoIovs()
    ensures IovTotal([]) == 0
  {
  }

  lemma {:induction false} SendingNat(ss: seq<Span>, packed: int, limit: int, script: seq<Outcome>)
    requires AllGood(ss)
    ensures Sending(ss, packed, limit, script).0 >= 0
    decreases |script|
  {
    if ss != [] && packed < limit && ss[0].memory {
      hide Sending, Pack, Uninterrupted, IovTotal, Total;
      SendingStep(ss, packed, limit, script);
      var (vs, q) := Pack(ss, [], 0, packed, limit);
      var rest := Uninterrupted(script);
      var a := Answer(rest, IovTotal(vs));
      if vs != [] && a.Bytes? {
        SendingNat(Advance(ss, a.n), q, limit, Later(rest));
      }
    }
  }

  /** Nothing is packed exactly if no byte precedes the first file link. */
  lemma {:induction false} EmptyPack(ss: seq<Span>, packed: int, limit: int)
    requires AllGood(ss) && packed < limit
    ensures var r := Pack(ss, [], 0, packed, limit);
      (r.0 == [] <==> Lead(ss) == 0) && (r.1 == packed <==> Lead(ss) == 0)
  {
    LeadBelowTotal(ss);
    if ss != [] && ss[0].memory {
      LeadBelowTotal(ss[1..]);
      if Size(ss[0]) <= 0 {
        EmptyPack(ss[1..], packed, limit);
      } else {
        var b := Fit(ss[0], packed, limit);
        PackTotal(ss[1..], Grown([], 0, ss[0].pos, b), ss[0].pos, packed + b, limit);
      }
    }
  }

  // ---- when a call loses bytes ----

  // The last memory link before the first file link is empty, and bytes follow it.
  predicate Hidden(ss: seq<Span>) {
    ss != [] && ss[0].memory &&
    (if ss[1..] != [] && !ss[1].memory then Size(ss[0]) <= 0 && Total(ss[1..]) > 0 else Hidden(ss[1..]))
  }

  // With no byte in front, it is hidden exactly if there is a byte at all.
  lemma {:induction false} HiddenNow(ss: seq<Span>)
    requires AllGood(ss) && ss != [] && ss[0].memory && Lead(ss) == 0
    ensures Hidden(ss) <==> Total(ss) > 0
  {
    LeadBelowTotal(ss[1..]);
    if ss[1..] != [] && ss[1].memory {
      HiddenNow(ss[1..]);
    }
  }

  // Sending memory bytes does not change whether what is behind them is hidden.
  lemma {:induction false} AdvanceHidden(ss: seq<Span>, n: nat)
    requires AllGood(ss) && n <= Lead(ss)
    ensures Hidden(Advance(ss, n)) <==> Hidden(ss)
    ensures Lead(Advance(ss, n)) == Lead(ss) - n
  {
    if ss != [] && n > 0 {
      var s, t := ss[0], ss[1..];
      if n < Size(s) {
        assert Advance(ss, n)[1..] == t;
      } else {
        AdvanceHidden(t, n - Size(s));
      }
    }
  }

  // Whatever the kernel does: a call that drops bytes was given a chain with hidden ones, has
  // taken all before them and has not come to the limit.
  lemma {:induction false} DroppedWasHidden(ss: seq<Span>, packed: int, limit: int, script: seq<Outcome>)
    requires AllGood(ss)
    ensures var (n, e) := Sending(ss, packed, limit, script);
      0 <= n <= Lead(ss) && (e.Dropped? ==> Hidden(ss) && n == Lead(ss) && packed + n < limit)
    decreases |script|
  {
    LeadBelowTotal(ss);
    if ss != [] && packed < limit && ss[0].memory {
      var (vs, q) := Pack(ss, [], 0, packed, limit);
      EmptyPack(ss, packed, limit);
      PackTotal(ss, [], 0, packed, limit);
      var rest := Uninterrupted(script);
      hide Pack, Hidden, Advance, Total, Lead;
      if vs == [] {
        HiddenNow(ss);
      } else if Answer(rest, IovTotal(vs)).Bytes? {
        var n := Answer(rest, IovTotal(vs)).n;
        AdvanceHidden(ss, n);
        DroppedWasHidden(Advance(ss, n), q, limit, Later(rest));
      }
    }
  }

  // A kernel that takes all it is offered comes to the hidden bytes.
  lemma {:induction false} HiddenGetsDropped(ss: seq<Span>, packed: int, limit: int) returns (script: seq<Outcome>)
    requires AllGood(ss) && Hidden(ss) && packed + Lead(ss) < limit
    ensures Sending(ss, packed, limit, script).1.Dropped?
    decreases Lead(ss)
  {
    LeadBelowTotal(ss);
    var (vs, q) := Pack(ss, [], 0, packed, limit);
    EmptyPack(ss, packed, limit);
    PackTotal(ss, [], 0, packed, limit);
    if vs == [] {
      HiddenNow(ss);
      script := [];
    } else {
      var n := q - packed;
      AdvanceHidden(ss, n);
      hide Pack, Hidden, Advance, Total, Lead, Sending, IovTotal;
      var later := HiddenGetsDropped(Advance(ss, n), q, limit);
      script := [Wrote(n - 1)] + later;
      TakesAll(n, later);
      SendingStep(ss, packed, limit, script);
    }
  }

  lemma TakesAll(n: int, later: seq<Outcome>)
    requires n > 0
    ensures var script := [Wrote(n - 1)] + later;
      Uninterrupted(script) == script && Later(script) == later && Answer(script, n) == Sent.Bytes(n)
  {
  }

  /** The exact condition: some kernel makes a call drop bytes if and only if the last memory link
      before the first file link is empty, bytes follow it, and those in front of it stay below the
      limit. */
  lemma LossExact(ss: seq<Span>, limit: int)
    requires AllGood(ss) && limit > 0
    ensures (exists script :: Sending(ss, 0, limit, script).1.Dropped?) <==> Hidden(ss) && Lead(ss) < limit
  {
    if Hidden(ss) && Lead(ss) < limit {
      var script := HiddenGetsDropped(ss, 0, limit);
    } else {
      forall script ensures !Sending(ss, 0, limit, script).1.Dropped? {
        DroppedWasHidden(ss, 0, limit, script);
      }
    }
  }

  /** With no memory byte in front every kernel makes the call drop them at once. */
  lemma DroppedAtOnce(ss: seq<Span>, limit: int, script: seq<Outcome>)
    requires AllGood(ss) && limit > 0 && ss != [] && ss[0].memory && Lead(ss) == 0
    ensures Sending(ss, 0, limit, script) == (0, if Total(ss) > 0 then Dropped else Kept)
  {
    EmptyPack(ss, 0, limit);
    LeadBelowTotal(ss);
  }

  /** An empty memory link in front of a file link: whatever the kernel does, the file is dropped. */
  lemma FileDropped(limit: int, script: seq<Outcome>)
    requires limit > 0
    ensures var ss := [Span(true, 5, 5), Span(false, 0, 10)];
      AllGood(ss) && Hidden(ss) && Total(ss) == 10 && Sending(ss, 0, limit, script) == (0, Dropped)
  {
    var a, b := Span(true, 5, 5), Span(false, 0, 10);
    assert [a, b][1..] == [b] && [b][1..] == [];
    assert Total([b]) == 10;
    DroppedAtOnce([a, b], limit, script);
  }

  lemma {:induction false} MemoryNotHidden(ss: seq<Span>)
    requires AllMemory(ss)
    ensures !Hidden(ss)
  {
    if ss != [] {
      MemoryNotHidden(ss[1..]);
    }
  }

  // ---- over all calls for a chain ----

  // No part of the chain that may be given to a later call hides bytes.
  predicate NoneHidden(ss: seq<Span>) {
    ss == [] || (NoneHidden(ss[1..]) && !Hidden(ss))
  }

  lemma {:induction false} AdvanceNoneHidden(ss: seq<Span>, n: nat)
    requires AllGood(ss) && NoneHidden(ss)
    ensures NoneHidden(Advance(ss, n))
  {
    if ss != [] && n > 0 {
      var s, t := ss[0], ss[1..];
      if n < Size(s) {
        assert Advance(ss, n)[1..] == t;
      } else {
        AdvanceNoneHidden(t, n - Size(s));
      }
    }
  }

  lemma {:induction false} SuffixNoneHidden(ss: seq<Span>, k: int)
    requires 0 <= k <= |ss| && NoneHidden(ss)
    ensures NoneHidden(ss[k..])
  {
    if k > 0 {
      SuffixNoneHidden(ss[1..], k - 1);
      assert ss[1..][k - 1..] == ss[k..];
    } else {
      assert ss[0..] == ss;
    }
  }

  lemma {:induction false} SomeHidden(ss: seq<Span>) returns (k: nat)
    requires !NoneHidden(ss)
    ensures k <= |ss| && Hidden(ss[k..])
  {
    if Hidden(ss) {
      k := 0;
      assert ss[0..] == ss;
    } else {
      k := SomeHidden(ss[1..]);
      assert ss[1..][k..] == ss[k + 1..];
      k := k + 1;
    }
  }

  // What is left after whole links and some bytes are gone is sent without loss by every kernel.
  ghost predicate SafeAt(ss: seq<Span>, k: int, n: nat, limit: int)
    requires AllGood(ss) && 0 <= k <= |ss|
  {
    forall script :: !Sending(Advance(ss[k..], n), 0, limit, script).1.Dropped?
  }

  // The bytes in front of what is hidden can be sent first.
  lemma HiddenBehindNothing(ss: seq<Span>) returns (n: nat)
    requires AllGood(ss) && Hidden(ss)
    ensures Hidden(Advance(ss, n)) && Lead(Advance(ss, n)) == 0
  {
    LeadBelowTotal(ss);
    n := Lead(ss);
    AdvanceHidden(ss, n);
  }

  /** No stage of sending can lose a byte if and only if no part of the chain hides one. */
  lemma NoneHiddenExact(ss: seq<Span>, limit: int)
    requires AllGood(ss) && limit > 0
    ensures (forall k, n: nat :: 0 <= k <= |ss| ==> SafeAt(ss, k, n, limit)) <==> NoneHidden(ss)
  {
    if NoneHidden(ss) {
      forall k, n: nat | 0 <= k <= |ss| ensures SafeAt(ss, k, n, limit) {
        SuffixNoneHidden(ss, k);
        AdvanceNoneHidden(ss[k..], n);
        LossExact(Advance(ss[k..], n), limit);
      }
    } else {
      var k := SomeHidden(ss);
      var n := HiddenBehindNothing(ss[k..]);
      LossExact(Advance(ss[k..], n), limit);
      assert !SafeAt(ss, k, n, limit);
    }
  }
}

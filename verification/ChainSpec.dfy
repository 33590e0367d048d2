/** Buffer chains as values: their bytes, how they are packed into an iovec array, and when the
    packed vector carries the right bytes. */
module ChainSpec {

  const IOVS_MAX := 32
  const MAX_LIMIT := 2147479552

  // One link: an address range, in memory or in the file being sent.
  datatype Span = Span(memory: bool, pos: int, last: int)

  datatype Iov = Iov(base: int, len: int)

  // Contents of memory and of the file, by address and by offset.
  datatype World = World(mem: int -> int, file: int -> int)

  predicate Good(s: Span) {
    s.pos <= s.last && (s.memory ==> s.pos > 0)
  }

  ghost predicate AllGood(ss: seq<Span>) {
    forall i :: 0 <= i < |ss| ==> Good(ss[i])
  }

  function Size(s: Span): int {
    s.last - s.pos
  }

  function Slice(f: int -> int, from: int, len: nat): seq<int> {
    if len == 0 then [] else Slice(f, from, len - 1) + [f(from + len - 1)]
  }

  lemma {:induction false} SliceLength(f: int -> int, from: int, len: nat)
    ensures |Slice(f, from, len)| == len
  {
    if len > 0 {
      SliceLength(f, from, len - 1);
    }
  }

  lemma {:induction false} SliceSplit(f: int -> int, from: int, a: nat, b: nat)
    ensures Slice(f, from, a + b) == Slice(f, from, a) + Slice(f, from + a, b)
  {
    if b > 0 {
      SliceSplit(f, from, a, b - 1);
    }
  }

  function SpanBytes(w: World, s: Span): seq<int>
    requires Good(s)
  {
    Slice(if s.memory then w.mem else w.file, s.pos, s.last - s.pos)
  }

  /** The bytes a chain stands for. */
  function Bytes(w: World, ss: seq<Span>): seq<int>
    requires AllGood(ss)
  {
    if ss == [] then [] else SpanBytes(w, ss[0]) + Bytes(w, ss[1..])
  }

  ghost predicate IovsGood(vs: seq<Iov>) {
    forall i :: 0 <= i < |vs| ==> vs[i].len >= 0
  }

  // The bytes writev takes from a vector.
  function IovBytes(w: World, vs: seq<Iov>): seq<int>
    requires IovsGood(vs)
  {
    if vs == [] then [] else IovBytes(w, vs[..|vs| - 1]) + Slice(w.mem, vs[|vs| - 1].base, vs[|vs| - 1].len)
  }

  // ---- taking bytes off the front: chain_write_update ----

  function Advance(ss: seq<Span>, n: nat): (r: seq<Span>)
    requires AllGood(ss)
    ensures AllGood(r)
  {
    if ss == [] || n == 0 then ss
    else if n < Size(ss[0]) then [ss[0].(pos := ss[0].pos + n)] + ss[1..]
    else Advance(ss[1..], n - Size(ss[0]))
  }

  lemma SpanLength(w: World, s: Span)
    requires Good(s)
    ensures |SpanBytes(w, s)| == Size(s)
  {
    SliceLength(if s.memory then w.mem else w.file, s.pos, Size(s));
  }

  lemma SpanAdvance(w: World, s: Span, n: nat)
    requires Good(s) && n <= Size(s)
    ensures |SpanBytes(w, s)| == Size(s) && Good(s.(pos := s.pos + n))
    ensures SpanBytes(w, s.(pos := s.pos + n)) == SpanBytes(w, s)[n..]
  {
    var f := if s.memory then w.mem else w.file;
    SliceLength(f, s.pos, Size(s));
    SliceLength(f, s.pos, n);
    SliceSplit(f, s.pos, n, Size(s) - n);
  }

  lemma Drop<T>(a: seq<T>, b: seq<T>, n: nat)
    ensures n <= |a| ==> (a + b)[n..] == a[n..] + b
    ensures |a| <= n <= |a| + |b| ==> (a + b)[n..] == b[n - |a|..]
  {
  }

  // Bytes of a chain with a known head.
  lemma BytesCons(w: World, s: Span, t: seq<Span>)
    requires Good(s) && AllGood(t)
    ensures AllGood([s] + t) && Bytes(w, [s] + t) == SpanBytes(w, s) + Bytes(w, t)
  {
    assert ([s] + t)[1..] == t;
  }

  /** What is left after n bytes are the bytes after the first n. */
  lemma {:induction false} AdvanceBytes(w: World, ss: seq<Span>, n: nat)
    requires AllGood(ss) && n <= |Bytes(w, ss)|
    ensures AllGood(Advance(ss, n)) && Bytes(w, Advance(ss, n)) == Bytes(w, ss)[n..]
  {
    hide Slice, SpanBytes;
    if ss != [] && n > 0 {
      var s, t := ss[0], ss[1..];
      SpanLength(w, s);
      Drop(SpanBytes(w, s), Bytes(w, t), n);
      if n < Size(s) {
        SpanAdvance(w, s, n);
        BytesCons(w, s.(pos := s.pos + n), t);
      } else {
        AdvanceBytes(w, t, n - Size(s));
      }
    }
  }

  // ---- packing: sysio_pack_chain_to_iovs ----

  predicate Stops(ss: seq<Span>, k: nat, packed: int, limit: int) {
    ss == [] || k >= IOVS_MAX || packed >= limit || !ss[0].memory
  }

  // How many bytes of the link fit under the limit.
  function Fit(s: Span, packed: int, limit: int): int {
    if packed + Size(s) > limit then limit - packed else Size(s)
  }

  // The vector grown by one link; an equal start address is taken for a continuation.
  function Grown(vs: seq<Iov>, lastPos: int, pos: int, b: int): seq<Iov> {
    if lastPos != pos || vs == [] then vs + [Iov(pos, b)]
    else vs[..|vs| - 1] + [vs[|vs| - 1].(len := vs[|vs| - 1].len + b)]
  }

  function Pack(ss: seq<Span>, vs: seq<Iov>, lastPos: int, packed: int, limit: int): (seq<Iov>, int) {
    if Stops(ss, |vs|, packed, limit) then (vs, packed)
    else if Size(ss[0]) <= 0 then Pack(ss[1..], vs, lastPos, packed, limit)
    else
      var b := Fit(ss[0], packed, limit);
      Pack(ss[1..], Grown(vs, lastPos, ss[0].pos, b), ss[0].pos, packed + b, limit)
  }

  // Packing takes the merging branch somewhere.
  predicate Merges(ss: seq<Span>, k: nat, lastPos: int, packed: int, limit: int) {
    if Stops(ss, k, packed, limit) then false
    else if Size(ss[0]) <= 0 then Merges(ss[1..], k, lastPos, packed, limit)
    else lastPos == ss[0].pos || Merges(ss[1..], k + 1, ss[0].pos, packed + Fit(ss[0], packed, limit), limit)
  }

  lemma IovsSnoc(w: World, vs: seq<Iov>, v: Iov)
    requires IovsGood(vs) && v.len >= 0
    ensures IovsGood(vs + [v]) && IovBytes(w, vs + [v]) == IovBytes(w, vs) + Slice(w.mem, v.base, v.len)
  {
    assert (vs + [v])[..|vs|] == vs;
  }

  // A link's first b bytes, and m of the following ones only if it went whole.
  lemma Join<T>(a: seq<T>, s: seq<T>, t: seq<T>, b: nat, m: nat)
    requires b <= |s| && m <= |t| && (b < |s| ==> m == 0)
    ensures (a + s[..b]) + t[..m] == a + (s + t)[..b + m]
  {
  }

  lemma SpanPrefix(w: World, s: Span, b: nat)
    requires Good(s) && s.memory && b <= Size(s)
    ensures |SpanBytes(w, s)| == Size(s) && Slice(w.mem, s.pos, b) == SpanBytes(w, s)[..b]
  {
    SpanLength(w, s);
    SliceLength(w.mem, s.pos, b);
    SliceSplit(w.mem, s.pos, b, Size(s) - b);
  }

  /** Unless links are merged, the vector carries exactly the next bytes of the chain. */
  lemma {:induction false} PackCarries(w: World, ss: seq<Span>, vs: seq<Iov>, lastPos: int, packed: int, limit: int)
    requires AllGood(ss) && IovsGood(vs) && packed <= limit && !Merges(ss, |vs|, lastPos, packed, limit)
    ensures var r := Pack(ss, vs, lastPos, packed, limit);
      && packed <= r.1 <= limit && IovsGood(r.0) && r.1 - packed <= |Bytes(w, ss)|
      && IovBytes(w, r.0) == IovBytes(w, vs) + Bytes(w, ss)[..r.1 - packed]
    decreases ss
  {
    hide Slice, SpanBytes, IovBytes, Bytes;
    if !Stops(ss, |vs|, packed, limit) {
      var s, t := ss[0], ss[1..];
      assert ss == [s] + t;
      BytesCons(w, s, t);
      SpanLength(w, s);
      if Size(s) <= 0 {
        PackCarries(w, t, vs, lastPos, packed, limit);
      } else {
        PackStep(w, s, t, vs, lastPos, packed, limit);
        var b := Fit(s, packed, limit);
        PackCarries(w, t, vs + [Iov(s.pos, b)], s.pos, packed + b, limit);
        var m := Pack(t, vs + [Iov(s.pos, b)], s.pos, packed + b, limit).1 - packed - b;
        Join(IovBytes(w, vs), SpanBytes(w, s), Bytes(w, t), b, m);
      }
    }
  }

  lemma PackStep(w: World, s: Span, t: seq<Span>, vs: seq<Iov>, lastPos: int, packed: int, limit: int)
    requires Good(s) && s.memory && Size(s) > 0 && IovsGood(vs) && packed < limit && lastPos != s.pos
    ensures var b := Fit(s, packed, limit);
      && 0 < b <= Size(s) && Grown(vs, lastPos, s.pos, b) == vs + [Iov(s.pos, b)] && IovsGood(vs + [Iov(s.pos, b)])
      && |SpanBytes(w, s)| == Size(s) && IovBytes(w, vs + [Iov(s.pos, b)]) == IovBytes(w, vs) + SpanBytes(w, s)[..b]
      && (b < Size(s) ==> Pack(t, vs + [Iov(s.pos, b)], s.pos, packed + b, limit) == (vs + [Iov(s.pos, b)], packed + b))
  {
    var b := Fit(s, packed, limit);
    IovsSnoc(w, vs, Iov(s.pos, b));
    SpanPrefix(w, s, b);
    if b < Size(s) {
      FullPack(t, vs + [Iov(s.pos, b)], s.pos, packed + b, limit);
    }
  }

  // At the limit nothing more is packed.
  lemma FullPack(ss: seq<Span>, vs: seq<Iov>, lastPos: int, packed: int, limit: int)
    requires packed >= limit
    ensures Pack(ss, vs, lastPos, packed, limit) == (vs, packed)
  {
  }

  // ---- when merging goes wrong: always ----

  // The state of packing: lastPos is where the last vector entry starts.
  ghost predicate Tracked(vs: seq<Iov>, lastPos: int) {
    IovsGood(vs) && (lastPos != 0 ==> vs != [] && vs[|vs| - 1].base == lastPos && vs[|vs| - 1].len > 0)
  }

  // A world in which every address holds itself.
  function Plain(): World {
    World(a => a, a => a)
  }

  lemma {:induction false} SliceAt(f: int -> int, from: int, len: nat, i: nat)
    requires i < len
    ensures |Slice(f, from, len)| == len && Slice(f, from, len)[i] == f(from + i)
  {
    SliceLength(f, from, len);
    if i < len - 1 {
      SliceAt(f, from, len - 1, i);
    } else {
      SliceLength(f, from, len - 1);
    }
  }

  lemma GrownBytes(w: World, vs: seq<Iov>, lastPos: int, pos: int, b: nat)
    requires Tracked(vs, lastPos) && b > 0 && pos != 0
    ensures Tracked(Grown(vs, lastPos, pos, b), pos)
    ensures lastPos != pos ==> IovBytes(w, Grown(vs, lastPos, pos, b)) == IovBytes(w, vs) + Slice(w.mem, pos, b)
    ensures lastPos == pos ==> IovBytes(w, Grown(vs, lastPos, pos, b)) == IovBytes(w, vs) + Slice(w.mem, pos + vs[|vs| - 1].len, b)
    ensures lastPos != pos ==> |Grown(vs, lastPos, pos, b)| == |vs| + 1
  {
    hide Slice;
    if lastPos != pos {
      IovsSnoc(w, vs, Iov(pos, b));
    } else {
      var front, v := vs[..|vs| - 1], vs[|vs| - 1];
      IovsSnoc(w, front, v.(len := v.len + b));
      SliceSplit(w.mem, v.base, v.len, b);
      assert vs == front + [v];
      IovsSnoc(w, front, v);
    }
  }

  // What is packed already stays in front.
  lemma {:induction false} PackExtends(w: World, ss: seq<Span>, vs: seq<Iov>, lastPos: int, packed: int, limit: int)
    requires AllGood(ss) && Tracked(vs, lastPos)
    ensures var r := Pack(ss, vs, lastPos, packed, limit); IovsGood(r.0) && IovBytes(w, vs) <= IovBytes(w, r.0)
    decreases ss
  {
    hide Slice, Grown;
    if !Stops(ss, |vs|, packed, limit) {
      var s, t := ss[0], ss[1..];
      if Size(s) <= 0 {
        PackExtends(w, t, vs, lastPos, packed, limit);
      } else {
        var b := Fit(s, packed, limit);
        GrownBytes(w, vs, lastPos, s.pos, b);
        PackExtends(w, t, Grown(vs, lastPos, s.pos, b), s.pos, packed + b, limit);
      }
    }
  }

  /** Merging puts a wrong byte into the vector, in the plain world. */
  lemma {:induction false} MergeIsWrong(ss: seq<Span>, vs: seq<Iov>, lastPos: int, packed: int, limit: int) returns (j: nat)
    requires AllGood(ss) && Tracked(vs, lastPos) && Merges(ss, |vs|, lastPos, packed, limit)
    ensures var r := Pack(ss, vs, lastPos, packed, limit); IovsGood(r.0) && j < |IovBytes(Plain(), r.0)|
    ensures var a, e := IovBytes(Plain(), Pack(ss, vs, lastPos, packed, limit).0), IovBytes(Plain(), vs) + Bytes(Plain(), ss);
      j < |e| && a[j] != e[j]
    decreases ss
  {
    hide Slice, Grown, SpanBytes, IovBytes, Bytes;
    var w, s, t := Plain(), ss[0], ss[1..];
    assert ss == [s] + t;
    BytesCons(w, s, t);
    SpanLength(w, s);
    if Size(s) <= 0 {
      j := MergeIsWrong(t, vs, lastPos, packed, limit);
      assert SpanBytes(w, s) + Bytes(w, t) == Bytes(w, t);
    } else {
      var b := Fit(s, packed, limit);
      GrownBytes(w, vs, lastPos, s.pos, b);
      if lastPos == s.pos {
        j := |IovBytes(w, vs)|;
        PackExtends(w, t, Grown(vs, lastPos, s.pos, b), s.pos, packed + b, limit);
        SliceAt(w.mem, s.pos + vs[|vs| - 1].len, b, 0);
        FirstByte(w, s);
      } else {
        j := MergeIsWrong(t, Grown(vs, lastPos, s.pos, b), s.pos, packed + b, limit);
        SpanPrefix(w, s, b);
        assert b == Size(s) && SpanBytes(w, s)[..b] == SpanBytes(w, s);
        assert IovBytes(w, vs) + SpanBytes(w, s) + Bytes(w, t) == IovBytes(w, vs) + (SpanBytes(w, s) + Bytes(w, t));
      }
    }
  }

  lemma FirstByte(w: World, s: Span)
    requires Good(s) && s.memory && Size(s) > 0
    ensures |SpanBytes(w, s)| == Size(s) && SpanBytes(w, s)[0] == w.mem(s.pos)
  {
    SliceAt(w.mem, s.pos, Size(s), 0);
  }

  ghost predicate Carries(w: World, ss: seq<Span>, packed: int, limit: int)
    requires AllGood(ss)
  {
    var r := Pack(ss, [], 0, packed, limit);
    IovsGood(r.0) && 0 <= r.1 - packed <= |Bytes(w, ss)| && IovBytes(w, r.0) == Bytes(w, ss)[..r.1 - packed]
  }

  /** The vector carries the chain's next bytes whatever memory holds, exactly if no two links
      in a row are merged. */
  lemma PackExact(ss: seq<Span>, packed: int, limit: int)
    requires AllGood(ss) && packed <= limit
    ensures (forall w: World :: Carries(w, ss, packed, limit)) <==> !Merges(ss, 0, 0, packed, limit)
  {
    if Merges(ss, 0, 0, packed, limit) {
      var j := MergeIsWrong(ss, [], 0, packed, limit);
      assert !Carries(Plain(), ss, packed, limit);
    } else {
      forall w: World ensures Carries(w, ss, packed, limit) {
        PackCarries(w, ss, [], 0, packed, limit);
      }
    }
  }

  // ---- which chains never merge, however far they have been sent ----

  /** Where a non-empty memory link starts inside the one before it, at least limit bytes of that
      one follow; lo..hi is the one before ss. */
  predicate ApartFrom(ss: seq<Span>, lo: int, hi: int, limit: int) {
    ss == [] ||
    (if !ss[0].memory then ApartFrom(ss[1..], 0, 0, limit)
     else if Size(ss[0]) <= 0 then ApartFrom(ss[1..], lo, hi, limit)
     else !(lo <= ss[0].pos < hi < ss[0].pos + limit) && ApartFrom(ss[1..], ss[0].pos, ss[0].last, limit))
  }

  predicate Apart(ss: seq<Span>, limit: int) {
    ApartFrom(ss, 0, 0, limit)
  }

  lemma {:induction false} ApartShrink(ss: seq<Span>, lo: int, hi: int, lo': int, hi': int, limit: int)
    requires ApartFrom(ss, lo, hi, limit) && (hi' <= lo' || (lo <= lo' && hi' == hi))
    ensures ApartFrom(ss, lo', hi', limit)
  {
    if ss != [] && ss[0].memory && Size(ss[0]) <= 0 {
      ApartShrink(ss[1..], lo, hi, lo', hi', limit);
    }
  }

  // The link before, lo..hi, is packed whole or up to the limit.
  lemma {:induction false} ApartNoMerge(ss: seq<Span>, lo: int, hi: int, k: nat, packed: int, limit: int)
    requires AllGood(ss) && ApartFrom(ss, lo, hi, limit)
    requires packed >= 0 && (lo == 0 || (lo < hi && (packed >= limit || packed >= hi - lo)))
    ensures !Merges(ss, k, lo, packed, limit)
    decreases ss
  {
    if !Stops(ss, k, packed, limit) {
      if Size(ss[0]) <= 0 {
        ApartNoMerge(ss[1..], lo, hi, k, packed, limit);
      } else {
        ApartNoMerge(ss[1..], ss[0].pos, ss[0].last, k + 1, packed + Fit(ss[0], packed, limit), limit);
      }
    }
  }

  lemma {:induction false} AdvanceApart(ss: seq<Span>, n: nat, limit: int)
    requires AllGood(ss) && Apart(ss, limit)
    ensures Apart(Advance(ss, n), limit)
  {
    if ss != [] && n > 0 {
      var s, t := ss[0], ss[1..];
      if n < Size(s) {
        var s' := s.(pos := s.pos + n);
        assert ([s'] + t)[1..] == t;
        if s.memory {
          ApartShrink(t, s.pos, s.last, s'.pos, s'.last, limit);
        }
      } else {
        TailApart(ss, limit);
        AdvanceApart(t, n - Size(s), limit);
      }
    }
  }

  lemma TailApart(ss: seq<Span>, limit: int)
    requires ss != [] && Apart(ss, limit)
    ensures Apart(ss[1..], limit)
  {
    if ss[0].memory && Size(ss[0]) > 0 {
      ApartShrink(ss[1..], ss[0].pos, ss[0].last, 0, 0, limit);
    }
  }

  lemma {:induction false} SuffixApart(ss: seq<Span>, k: int, limit: int)
    requires 0 <= k <= |ss| && Apart(ss, limit)
    ensures Apart(ss[k..], limit)
  {
    if k > 0 {
      TailApart(ss, limit);
      SuffixApart(ss[1..], k - 1, limit);
      assert ss[1..][k - 1..] == ss[k..];
    } else {
      assert ss[0..] == ss;
    }
  }

  // The first link decides against the range before it, the rest does not depend on it.
  lemma {:induction false} ApartHead(ss: seq<Span>, lo: int, hi: int, limit: int) returns (p: int)
    requires AllGood(ss) && Apart(ss, limit) && !ApartFrom(ss, lo, hi, limit) && lo > 0
    ensures lo <= p < hi < p + limit && Merges(ss, 1, p, hi - p, limit)
  {
    if Size(ss[0]) <= 0 {
      p := ApartHead(ss[1..], lo, hi, limit);
    } else {
      p := ss[0].pos;
    }
  }

  // Otherwise some number of bytes sent lines the two links up, with room left to pack both.
  lemma {:induction false} NotApart(ss: seq<Span>, limit: int) returns (k: nat, n: nat)
    requires AllGood(ss) && !Apart(ss, limit) && limit > 0
    ensures k <= |ss| && Merges(Advance(ss[k..], n), 0, 0, 0, limit) && (AllMemory(ss) ==> k == 0)
  {
    var s, t := ss[0], ss[1..];
    assert ss[0..] == ss;
    if !Apart(t, limit) {
      k, n := NotApart(t, limit);
      assert t[k..] == ss[k + 1..];
      if AllMemory(ss) {
        assert t[0..] == t;
        n := if Size(s) <= 0 && n == 0 then 0 else Size(s) + n;
      } else {
        k := k + 1;
      }
    } else {
      var p := ApartHead(t, s.pos, s.last, limit);
      k, n := 0, p - s.pos;
      var s' := s.(pos := p);
      assert n > 0 ==> Advance(ss, n) == [s'] + t;
      assert ([s'] + t)[1..] == t;
    }
  }

  ghost predicate AllMemory(ss: seq<Span>) {
    forall i :: 0 <= i < |ss| ==> ss[i].memory
  }

  // What is left of a chain after whole links and some bytes are gone is packed right.
  ghost predicate RightAt(ss: seq<Span>, k: int, n: nat, limit: int)
    requires AllGood(ss) && 0 <= k <= |ss|
  {
    forall w: World :: Carries(w, Advance(ss[k..], n), 0, limit)
  }

  /** A chain is packed right at every stage of its sending, whatever memory holds, if and only if
      no link starts inside the one before it less than limit bytes from its end. A memory chain
      has only the stages with k == 0. */
  lemma ApartExact(ss: seq<Span>, limit: int)
    requires AllGood(ss) && limit > 0
    ensures (forall k, n: nat :: 0 <= k <= |ss| ==> RightAt(ss, k, n, limit)) <==> Apart(ss, limit)
    ensures AllMemory(ss) ==> ((forall n: nat :: RightAt(ss, 0, n, limit)) <==> Apart(ss, limit))
  {
    if Apart(ss, limit) {
      forall k, n: nat | 0 <= k <= |ss| ensures RightAt(ss, k, n, limit) {
        SuffixApart(ss, k, limit);
        AdvanceApart(ss[k..], n, limit);
        ApartNoMerge(Advance(ss[k..], n), 0, 0, 0, 0, limit);
        PackExact(Advance(ss[k..], n), 0, limit);
      }
    } else {
      var k, n := NotApart(ss, limit);
      PackExact(Advance(ss[k..], n), 0, limit);
      assert !RightAt(ss, k, n, limit);
    }
  }

  /** Distinct starts are not enough: once five bytes are gone the two links start together and
      the second one's bytes are taken from behind the first. */
  lemma LinesUp()
    ensures var ss := [Span(true, 10, 20), Span(true, 15, 20)];
      AllGood(ss) && !Merges(ss, 0, 0, 0, MAX_LIMIT) && !Apart(ss, MAX_LIMIT) && Merges(Advance(ss, 5), 0, 0, 0, MAX_LIMIT)
  {
    var a, b := Span(true, 10, 20), Span(true, 15, 20);
    assert [a, b][1..] == [b] && [b][1..] == [];
    assert Advance([a, b], 5) == [Span(true, 15, 20)] + [b];
    assert ([Span(true, 15, 20)] + [b])[1..] == [b];
  }
}

/** Specification of the allocator's state: the address-ordered block list, the class
    lists, the list of non-empty classes, and what they must agree on. */
module ShmemState {
  import opened ShmemLevels

  // sizeof(struct storage) on LP64
  const HEADER: nat := 64

  /** A block header. home is the class whose list holds the block, -1 for NULL. */
  datatype Header = Header(alloc: bool, size: nat, act: nat, home: int)

  type Headers = map<int, Header>

  ghost predicate NoDup(s: seq<int>) {
    s == [] || (s[0] !in s[1..] && NoDup(s[1..]))
  }

  function Pos(s: seq<int>, a: int): (p: nat)
    requires a in s
    ensures p < |s| && s[p] == a
  {
    if s[0] == a then 0 else 1 + Pos(s[1..], a)
  }

  // queue_remove on a list without repetitions
  function Without(s: seq<int>, a: int): seq<int>
    requires a in s
  {
    if s[0] == a then s[1..] else [s[0]] + Without(s[1..], a)
  }

  lemma {:induction false} WithoutMembers(s: seq<int>, a: int)
    requires a in s && NoDup(s)
    ensures NoDup(Without(s, a))
    ensures forall x :: x in Without(s, a) <==> x in s && x != a
  {
    assert s == [s[0]] + s[1..];
    if s[0] != a {
      WithoutMembers(s[1..], a);
      var w := Without(s, a);
      assert w[1..] == Without(s[1..], a);
    }
  }

  ghost predicate Increasing(s: seq<int>) {
    |s| <= 1 || (s[0] < s[1] && Increasing(s[1..]))
  }

  lemma {:induction false} IncreasingBounds(s: seq<int>)
    requires Increasing(s) && s != []
    ensures forall x :: x in s ==> s[0] <= x <= s[|s| - 1]
    ensures forall x :: x in s[1..] ==> s[0] < x
  {
    assert s == [s[0]] + s[1..];
    if |s| > 1 {
      var t := s[1..];
      IncreasingBounds(t);
      assert t[|t| - 1] == s[|s| - 1] && t[0] == s[1];
      var y := t[0];
      assert y in t;
    }
  }

  /** The class lists: every free block except the held ones is on exactly the list of
      its clipped class, and nothing else is on any list. */
  ghost predicate FreeOk(c: Config, hdr: Headers, free: seq<seq<int>>, held: set<int>)
    requires GoodConfig(c)
  {
    && |free| == c.freeLen
    && (forall k, a :: 0 <= k < |free| && a in free[k] ==>
          a in hdr && a !in held && !hdr[a].alloc && hdr[a].home == k)
    && (forall a :: a in hdr && a !in held && !hdr[a].alloc ==>
          hdr[a].home == Class(c, hdr[a].size) && a in free[hdr[a].home])
    && (forall k :: 0 <= k < |free| ==> NoDup(free[k]))
  }

  /** available lists the non-empty classes in increasing order; top caches its last. */
  ghost predicate AvailOk(free: seq<seq<int>>, available: seq<int>, top: int) {
    && Increasing(available)
    && (forall k :: k in available ==> 0 <= k < |free| && free[k] != [])
    && (forall k :: 0 <= k < |free| && free[k] != [] ==> k in available)
    && top == (if available == [] then |free| else available[|available| - 1])
  }

  function End(hdr: Headers, a: int): int
    requires a in hdr
  {
    a + HEADER + hdr[a].size
  }

  ghost predicate Lists(c: Config, hdr: Headers, free: seq<seq<int>>, available: seq<int>, top: int, held: set<int>)
    requires GoodConfig(c)
  {
    FreeOk(c, hdr, free, held) && AvailOk(free, available, top)
  }

  ghost predicate HeadersOk(hdr: Headers) {
    forall a :: a in hdr && hdr[a].alloc ==> hdr[a].home == -1 && hdr[a].act <= hdr[a].size
  }

  // ---- the block list ----

  /** The blocks of s follow one another from lo to hi without a gap, and no two
      neighbours are free; prevFree tells whether the block before lo is free. */
  ghost predicate Run(s: seq<int>, hdr: Headers, lo: int, hi: int, prevFree: bool) {
    if s == [] then lo == hi
    else
      && s[0] == lo && lo in hdr
      && (prevFree ==> hdr[lo].alloc)
      && Run(s[1..], hdr, End(hdr, lo), hi, !hdr[lo].alloc)
  }

  ghost predicate Shape(order: seq<int>, hdr: Headers, lo: int, hi: int) {
    && order != [] && Run(order, hdr, lo, hi, false)
    && (forall a :: a in hdr <==> a in order)
    && HeadersOk(hdr)
  }

  // Address where the blocks of s end, and whether the last one is free.
  ghost function RunEnd(s: seq<int>, hdr: Headers, lo: int): int {
    if s == [] || s[|s| - 1] !in hdr then lo else End(hdr, s[|s| - 1])
  }

  ghost function LastFree(s: seq<int>, hdr: Headers, prevFree: bool): bool {
    if s == [] || s[|s| - 1] !in hdr then prevFree else !hdr[s[|s| - 1]].alloc
  }

  lemma {:induction false} RunMembers(s: seq<int>, hdr: Headers, lo: int, hi: int, f: bool)
    requires Run(s, hdr, lo, hi, f)
    ensures lo <= hi
    ensures forall a :: a in s ==> a in hdr && lo <= a && End(hdr, a) <= hi
  {
    if s != [] {
      assert s == [s[0]] + s[1..];
      RunMembers(s[1..], hdr, End(hdr, lo), hi, !hdr[lo].alloc);
    }
  }

  lemma {:induction false} RunSplit(s: seq<int>, t: seq<int>, hdr: Headers, lo: int, hi: int, f: bool)
    requires Run(s + t, hdr, lo, hi, f)
    ensures forall a :: a in s ==> a in hdr
    ensures Run(s, hdr, lo, RunEnd(s, hdr, lo), f)
    ensures Run(t, hdr, RunEnd(s, hdr, lo), hi, LastFree(s, hdr, f))
  {
    if s == [] {
      assert s + t == t;
    } else {
      assert (s + t)[1..] == s[1..] + t;
      RunSplit(s[1..], t, hdr, End(hdr, lo), hi, !hdr[lo].alloc);
    }
  }

  lemma {:induction false} RunJoin(s: seq<int>, t: seq<int>, hdr: Headers, lo: int, mid: int, hi: int, f: bool)
    requires Run(s, hdr, lo, mid, f)
    requires forall a :: a in s ==> a in hdr
    requires Run(t, hdr, mid, hi, LastFree(s, hdr, f))
    ensures Run(s + t, hdr, lo, hi, f)
  {
    if s == [] {
      assert s + t == t;
    } else {
      assert (s + t)[1..] == s[1..] + t;
      RunJoin(s[1..], t, hdr, End(hdr, lo), mid, hi, !hdr[lo].alloc);
    }
  }

  lemma {:induction false} RunFrame(s: seq<int>, hdr: Headers, hdr': Headers, lo: int, hi: int, f: bool)
    requires Run(s, hdr, lo, hi, f)
    requires forall a :: a in s && a in hdr ==> a in hdr' && hdr'[a].size == hdr[a].size && hdr'[a].alloc == hdr[a].alloc
    ensures Run(s, hdr', lo, hi, f)
  {
    if s != [] {
      RunFrame(s[1..], hdr, hdr', End(hdr, lo), hi, !hdr[lo].alloc);
    }
  }

  lemma RunOne(a: int, hdr: Headers, f: bool)
    requires a in hdr && (f ==> hdr[a].alloc)
    ensures Run([a], hdr, a, End(hdr, a), f)
  {
  }

  ghost predicate Mergeable(mid: seq<int>, hdr: Headers) {
    mid != [] && mid[0] in hdr && mid[|mid| - 1] in hdr && mid[0] + HEADER <= End(hdr, mid[|mid| - 1])
  }

  // A stretch of the block list and its two sides occupy separate address ranges.
  lemma ThreeParts(pre: seq<int>, mid: seq<int>, post: seq<int>, hdr: Headers, lo: int, hi: int)
    requires Run(pre + mid + post, hdr, lo, hi, false) && mid != []
    ensures Mergeable(mid, hdr)
    ensures Run(pre, hdr, lo, mid[0], false)
    ensures Run(post, hdr, End(hdr, mid[|mid| - 1]), hi, LastFree(mid, hdr, false))
    ensures forall a :: a in pre ==> a in hdr && a < mid[0]
    ensures forall a :: a in mid ==> a in hdr && mid[0] <= a < End(hdr, mid[|mid| - 1])
    ensures forall a :: a in post ==> a in hdr && End(hdr, mid[|mid| - 1]) <= a
  {
    assert pre + mid + post == pre + (mid + post);
    RunSplit(pre, mid + post, hdr, lo, hi, false);
    var m, f := RunEnd(pre, hdr, lo), LastFree(pre, hdr, false);
    RunSplit(mid, post, hdr, m, hi, f);
    RunMembers(pre, hdr, lo, m, false);
    RunMembers(mid, hdr, m, RunEnd(mid, hdr, m), f);
    RunMembers(post, hdr, RunEnd(mid, hdr, m), hi, LastFree(mid, hdr, f));
    var x, y := mid[0], mid[|mid| - 1];
    assert x in mid && y in mid;
  }

  // ---- sums over the block list ----

  datatype Kind = Used | Free | Requested

  function Weight(h: Header, kind: Kind): nat {
    match kind
    case Used => if h.alloc then h.size else 0
    case Free => if h.alloc then 0 else h.size
    case Requested => if h.alloc then h.act else 0
  }

  // A sum over a list of block addresses; addresses without a header weigh nothing.
  ghost function Sum(order: seq<int>, hdr: Headers, kind: Kind): nat {
    if order == [] then 0
    else (if order[0] in hdr then Weight(hdr[order[0]], kind) else 0) + Sum(order[1..], hdr, kind)
  }

  lemma {:induction false} SumAppend(s: seq<int>, t: seq<int>, hdr: Headers, kind: Kind)
    ensures Sum(s + t, hdr, kind) == Sum(s, hdr, kind) + Sum(t, hdr, kind)
  {
    if s == [] {
      assert s + t == t;
    } else {
      assert (s + t)[1..] == s[1..] + t;
      SumAppend(s[1..], t, hdr, kind);
    }
  }

  lemma {:induction false} SumCongruent(s: seq<int>, hdr: Headers, hdr': Headers, kind: Kind)
    requires forall a :: a in s ==> a in hdr && a in hdr' && Weight(hdr[a], kind) == Weight(hdr'[a], kind)
    ensures Sum(s, hdr, kind) == Sum(s, hdr', kind)
  {
    if s != [] {
      var a := s[0];
      assert a in s;
      SumCongruent(s[1..], hdr, hdr', kind);
    }
  }

  // Replacing a stretch of the block list changes the sum by the difference of the stretches.
  lemma SumSplice(pre: seq<int>, mid: seq<int>, mid': seq<int>, post: seq<int>, hdr: Headers, hdr': Headers, kind: Kind)
    requires forall a :: a in pre ==> a in hdr && a in hdr' && Weight(hdr[a], kind) == Weight(hdr'[a], kind)
    requires forall a :: a in post ==> a in hdr && a in hdr' && Weight(hdr[a], kind) == Weight(hdr'[a], kind)
    ensures Sum(pre + mid' + post, hdr', kind) + Sum(mid, hdr, kind)
         == Sum(pre + mid + post, hdr, kind) + Sum(mid', hdr', kind)
  {
    SumAppend(pre + mid, post, hdr, kind);
    SumAppend(pre, mid, hdr, kind);
    SumAppend(pre + mid', post, hdr', kind);
    SumAppend(pre, mid', hdr', kind);
    SumCongruent(pre, hdr, hdr', kind);
    SumCongruent(post, hdr, hdr', kind);
  }

  // ---- what the block list guarantees ----

  /** The blocks tile [lo, hi): each starts where the one before it ends. */
  lemma {:induction false} RunTiles(s: seq<int>, hdr: Headers, lo: int, hi: int, f: bool, i: nat)
    requires Run(s, hdr, lo, hi, f) && i < |s|
    ensures s[i] in hdr
    ensures s[0] == lo
    ensures i + 1 < |s| ==> s[i + 1] in hdr && s[i + 1] == End(hdr, s[i]) && (hdr[s[i]].alloc || hdr[s[i + 1]].alloc)
    ensures i + 1 == |s| ==> End(hdr, s[i]) == hi
  {
    if i == 0 {
      assert |s| > 1 ==> s[1..][0] == s[1];
    } else {
      RunTiles(s[1..], hdr, End(hdr, lo), hi, !hdr[lo].alloc, i - 1);
    }
  }

  /** Distinct blocks never overlap, headers included, and all lie inside [lo, hi). */
  lemma BlocksDisjoint(order: seq<int>, hdr: Headers, lo: int, hi: int, a: int, b: int)
    requires Shape(order, hdr, lo, hi)
    requires a in hdr && b in hdr && a < b
    ensures lo <= a && End(hdr, a) <= b && End(hdr, b) <= hi
  {
    var i := Pos(order, a);
    var pre, post := order[..i], order[i + 1..];
    assert order == pre + [a] + post;
    ThreeParts(pre, [a], post, hdr, lo, hi);
    RunMembers(order, hdr, lo, hi, false);
  }

  lemma BlockAddress(order: seq<int>, hdr: Headers, lo: int, hi: int, st: int)
    requires Shape(order, hdr, lo, hi) && st in hdr
    ensures lo <= st
  {
    RunMembers(order, hdr, lo, hi, false);
  }

  lemma BlockExtent(order: seq<int>, hdr: Headers, lo: int, hi: int, st: int)
    requires Shape(order, hdr, lo, hi) && st in hdr
    ensures lo <= st && End(hdr, st) <= hi
  {
    RunMembers(order, hdr, lo, hi, false);
  }

  lemma NotListed(order: seq<int>, hdr: Headers, lo: int, hi: int, a: int)
    requires Shape(order, hdr, lo, hi) && a !in hdr
    ensures a !in order
  {
  }

  // No header lies strictly inside a block.
  lemma InsideIsFresh(order: seq<int>, hdr: Headers, lo: int, hi: int, st: int, a: int)
    requires Shape(order, hdr, lo, hi) && st in hdr && st < a < End(hdr, st)
    ensures a !in hdr
  {
    if a in hdr {
      BlocksDisjoint(order, hdr, lo, hi, st, a);
    }
  }

  lemma {:induction false} RunConservation(s: seq<int>, hdr: Headers, lo: int, hi: int, f: bool)
    requires Run(s, hdr, lo, hi, f)
    ensures forall a :: a in s ==> a in hdr
    ensures lo + Sum(s, hdr, Used) + Sum(s, hdr, Free) + |s| * HEADER == hi
  {
    RunMembers(s, hdr, lo, hi, f);
    if s != [] {
      RunConservation(s[1..], hdr, End(hdr, lo), hi, !hdr[lo].alloc);
    }
  }

  /** Bytes are conserved: payloads in use, free payloads, one header per block and the
      system area add up to the whole segment. */
  lemma Conservation(order: seq<int>, hdr: Headers, lo: int, hi: int)
    requires Shape(order, hdr, lo, hi)
    ensures lo + Sum(order, hdr, Used) + Sum(order, hdr, Free) + |order| * HEADER == hi
    ensures Sum(order, hdr, Requested) <= Sum(order, hdr, Used)
  {
    RunConservation(order, hdr, lo, hi, false);
    RequestedBelowUsed(order, hdr);
  }

  /** With nothing allocated, coalescing has left exactly one block spanning everything. */
  lemma AllFreeIsOneBlock(order: seq<int>, hdr: Headers, lo: int, hi: int)
    requires Shape(order, hdr, lo, hi)
    requires forall a :: a in hdr ==> !hdr[a].alloc
    ensures order == [lo] && hdr.Keys == {lo} && hdr[lo].size == hi - lo - HEADER
  {
    RunTiles(order, hdr, lo, hi, false, 0);
    assert order == [lo];
    assert forall a :: a in hdr <==> a == lo;
  }

  lemma {:induction false} RequestedBelowUsed(order: seq<int>, hdr: Headers)
    requires HeadersOk(hdr)
    requires forall a :: a in order ==> a in hdr
    ensures Sum(order, hdr, Requested) <= Sum(order, hdr, Used)
  {
    if order != [] {
      var a := order[0];
      assert a in order;
      RequestedBelowUsed(order[1..], hdr);
    }
  }

  // ---- putting a block on a class list and taking it off ----

  // The list a free block is on, as dfs_shmem_remove_free computes it.
  lemma FiledUnder(c: Config, hdr: Headers, free: seq<seq<int>>, available: seq<int>, top: int, held: set<int>, st: int)
    requires GoodConfig(c) && Lists(c, hdr, free, available, top, held) && st in hdr && st !in held && !hdr[st].alloc
    ensures var k := hdr[st].home;
      && k == (if InsertIndex(c, hdr[st].size) > top then top else InsertIndex(c, hdr[st].size))
      && 0 <= k < |free| == c.freeLen && st in free[k] && k in available
  {
    TopIsLargest(free, available, top, hdr[st].home);
  }

  lemma FiledFacts(c: Config, hdr: Headers, free: seq<seq<int>>, held: set<int>, k: int)
    requires GoodConfig(c) && FreeOk(c, hdr, free, held) && 0 <= k < |free|
    ensures forall a :: a in free[k] ==> a in hdr && !hdr[a].alloc && hdr[a].home == k
  {
  }

  lemma HeldIsNotFiled(c: Config, hdr: Headers, free: seq<seq<int>>, held: set<int>, st: int)
    requires GoodConfig(c) && FreeOk(c, hdr, free, held) && st in held
    ensures |free| == c.freeLen && forall k :: 0 <= k < |free| ==> st !in free[k]
  {
  }

  lemma DetachFree(c: Config, hdr: Headers, free: seq<seq<int>>, held: set<int>, st: int)
    requires GoodConfig(c) && FreeOk(c, hdr, free, held)
    requires st in hdr && st !in held && !hdr[st].alloc
    ensures var k := hdr[st].home;
      FreeOk(c, hdr[st := hdr[st].(home := -1)], free[k := Without(free[k], st)], held + {st})
  {
    var k := hdr[st].home;
    WithoutMembers(free[k], st);
  }

  lemma AttachFree(c: Config, hdr: Headers, free: seq<seq<int>>, held: set<int>, st: int)
    requires GoodConfig(c) && FreeOk(c, hdr, free, held + {st})
    requires st in hdr && st !in held && !hdr[st].alloc
    ensures var k := Class(c, hdr[st].size);
      FreeOk(c, hdr[st := hdr[st].(home := k)], free[k := [st] + free[k]], held)
  {
    var k := Class(c, hdr[st].size);
    var hdr', free' := hdr[st := hdr[st].(home := k)], free[k := [st] + free[k]];
    assert st in free'[k];
    forall a | a in hdr' && a !in held && !hdr'[a].alloc
      ensures hdr'[a].home == Class(c, hdr'[a].size) && a in free'[hdr'[a].home]
    {
      if a != st {
        assert a in free[hdr[a].home];
      }
    }
  }

  // The lists only see the free blocks that are not held.
  ghost predicate SameListed(hdr: Headers, held: set<int>, hdr': Headers, held': set<int>) {
    && (forall a :: a in hdr && a !in held && !hdr[a].alloc ==> a in hdr' && a !in held' && hdr'[a] == hdr[a])
    && (forall a :: a in hdr' && a !in held' && !hdr'[a].alloc ==> a in hdr && a !in held && hdr'[a] == hdr[a])
  }

  lemma ListedSame(c: Config, hdr: Headers, held: set<int>, hdr': Headers, held': set<int>, free: seq<seq<int>>)
    requires GoodConfig(c) && FreeOk(c, hdr, free, held)
    requires SameListed(hdr, held, hdr', held')
    ensures FreeOk(c, hdr', free, held')
  {
  }

  lemma {:induction false} IncreasingFrom(s: seq<int>, q: int)
    requires Increasing(s) && 0 <= q < |s|
    ensures forall i :: q <= i < |s| ==> s[q] <= s[i]
  {
    if q == 0 {
      IncreasingBounds(s);
      assert forall i :: 0 <= i < |s| ==> s[i] in s;
    } else {
      IncreasingFrom(s[1..], q - 1);
      assert forall i :: 0 < i < |s| ==> s[i] == s[1..][i - 1];
    }
  }

  lemma DetachAvailKeep(free: seq<seq<int>>, available: seq<int>, top: int, k: int, list: seq<int>)
    requires AvailOk(free, available, top) && k in available && list != []
    ensures AvailOk(free[k := list], available, top)
  {
  }

  // Dropping k from an increasing list; the last element changes only when k was last.
  lemma {:induction false} IncreasingWithout(s: seq<int>, k: int)
    requires Increasing(s) && k in s
    ensures Increasing(Without(s, k))
    ensures forall x :: x in Without(s, k) <==> x in s && x != k
    ensures k != s[|s| - 1] ==> Without(s, k) != [] && Without(s, k)[|Without(s, k)| - 1] == s[|s| - 1]
    ensures k == s[|s| - 1] ==> Without(s, k) == s[..|s| - 1] && Pos(s, k) == |s| - 1
  {
    IncreasingBounds(s);
    assert s == [s[0]] + s[1..];
    if s[0] != k {
      IncreasingWithout(s[1..], k);
      WithoutHead(s, k);
      LastBehind(s[0], s[1..], Without(s[1..], k), k);
      hide Increasing;
    }
  }

  // The last element behind one more in front.
  lemma LastBehind(x: int, t: seq<int>, w: seq<int>, k: int)
    requires t != [] && k != x
    requires k != t[|t| - 1] ==> w != [] && w[|w| - 1] == t[|t| - 1]
    requires k == t[|t| - 1] ==> w == t[..|t| - 1]
    ensures var s, r := [x] + t, [x] + w;
      (k != s[|s| - 1] ==> r[|r| - 1] == s[|s| - 1]) && (k == s[|s| - 1] ==> r == s[..|s| - 1])
  {
  }

  lemma WithoutHead(s: seq<int>, k: int)
    requires k in s && s[0] != k && Increasing(Without(s[1..], k)) && (forall x :: x in Without(s[1..], k) ==> x in s[1..])
    requires forall x :: x in s[1..] ==> s[0] < x
    ensures Without(s, k) == [s[0]] + Without(s[1..], k) && Increasing(Without(s, k))
  {
    var t, w := Without(s[1..], k), Without(s, k);
    assert w[1..] == t;
    if t != [] {
      var y := t[0];
      assert y in t;
    }
  }

  lemma {:induction false} IncreasingInsert(s: seq<int>, k: int, p: nat)
    requires Increasing(s) && p <= |s|
    requires p > 0 ==> s[p - 1] < k
    requires p < |s| ==> k < s[p]
    ensures Increasing(s[..p] + [k] + s[p..])
  {
    var t := s[..p] + [k] + s[p..];
    if p == 0 {
      assert t[1..] == s;
    } else {
      var s', p' := s[1..], p - 1;
      IncreasingInsert(s', k, p');
      assert t[1..] == s'[..p'] + [k] + s'[p'..];
    }
  }

  lemma InsertMembers(s: seq<int>, k: int, p: nat)
    requires p <= |s|
    ensures forall x :: x in s[..p] + [k] + s[p..] <==> x in s || x == k
  {
    assert s == s[..p] + s[p..];
  }

  lemma DetachAvailLast(free: seq<seq<int>>, available: seq<int>, top: int, k: int)
    requires AvailOk(free, available, top) && k in available
    ensures var p := Pos(available, k);
      AvailOk(free[k := []], Without(available, k),
              if k != top then top else if p == 0 then |free| else available[p - 1])
  {
    IncreasingWithout(available, k);
    LastLeft(available, Without(available, k), k, Pos(available, k), |free|);
    hide Increasing, Without, Pos;
    DetachMembers(free, available, Without(available, k), k);
  }

  // The last of what is left.
  lemma LastLeft(s: seq<int>, rest: seq<int>, k: int, p: nat, none: int)
    requires s != [] && p < |s|
    requires k != s[|s| - 1] ==> rest != [] && rest[|rest| - 1] == s[|s| - 1]
    requires k == s[|s| - 1] ==> rest == s[..|s| - 1] && p == |s| - 1
    ensures (if rest == [] then none else rest[|rest| - 1])
         == (if k != s[|s| - 1] then s[|s| - 1] else if p == 0 then none else s[p - 1])
  {
  }

  lemma DetachMembers(free: seq<seq<int>>, available: seq<int>, rest: seq<int>, k: int)
    requires forall x :: x in available ==> 0 <= x < |free| && free[x] != []
    requires forall x :: 0 <= x < |free| && free[x] != [] ==> x in available
    requires k in available && forall x :: x in rest <==> x in available && x != k
    ensures forall x :: x in rest ==> 0 <= x < |free| && free[k := []][x] != []
    ensures forall x :: 0 <= x < |free| && free[k := []][x] != [] ==> x in rest
  {
  }

  lemma EmptyNotAvailable(free: seq<seq<int>>, available: seq<int>, top: int, k: int)
    requires AvailOk(free, available, top) && 0 <= k < |free| && free[k] == []
    ensures k !in available
  {
  }

  lemma AttachAvailKeep(free: seq<seq<int>>, available: seq<int>, top: int, k: int, list: seq<int>)
    requires AvailOk(free, available, top) && 0 <= k < |free| && free[k] != [] && list != []
    ensures AvailOk(free[k := list], available, top)
  {
  }

  lemma AttachAvailNew(free: seq<seq<int>>, available: seq<int>, top: int, k: int, p: nat, list: seq<int>)
    requires AvailOk(free, available, top) && 0 <= k < |free| && free[k] == [] && list != []
    requires p <= |available|
    requires p > 0 ==> available[p - 1] < k
    requires p < |available| ==> k < available[p]
    ensures AvailOk(free[k := list], available[..p] + [k] + available[p..], if p == |available| then k else top)
  {
    IncreasingInsert(available, k, p);
    InsertMembers(available, k, p);
  }

  lemma TopIsLargest(free: seq<seq<int>>, available: seq<int>, top: int, k: int)
    requires AvailOk(free, available, top) && k in available
    ensures 0 <= k <= top < |free| && top in available && free[top] != []
  {
    IncreasingBounds(available);
    assert available[|available| - 1] == top;
    assert top in available;
  }

  // ---- which requests can be served ----

  /** Some free block is at least this large. */
  ghost predicate Fits(hdr: Headers, size: nat) {
    exists a :: a in hdr && !hdr[a].alloc && hdr[a].size >= size
  }

  ghost predicate ListServes(hdr: Headers, list: seq<int>, size: nat) {
    exists a :: a in list && a in hdr && hdr[a].size >= size
  }

  lemma Serves(hdr: Headers, list: seq<int>, size: nat, a: int)
    requires a in list && a in hdr && hdr[a].size >= size
    ensures ListServes(hdr, list, size)
  {
  }

  lemma NoneServes(hdr: Headers, list: seq<int>, size: nat)
    requires SmallBefore(hdr, list, size, |list|)
    ensures !ListServes(hdr, list, size)
  {
  }

  /** Class 0 is non-empty but no block on it meets a request that class 0 serves. */
  ghost predicate Starved(c: Config, hdr: Headers, free: seq<seq<int>>, size: nat) {
    size <= c.minSize && |free| > 0 && free[0] != [] && !ListServes(hdr, free[0], size)
  }

  // ---- which list, which block ----

  /** The class a request of class index is served from: the least class of a non-empty list at or
      above index, or the greatest one of all if there is none. */
  ghost predicate Chosen(free: seq<seq<int>>, index: int, k: int) {
    && 0 <= k < |free| && free[k] != []
    && (k >= index ==> forall j :: 0 <= j < |free| && index <= j < k ==> free[j] == [])
    && (k < index ==> forall j :: k < j < |free| ==> free[j] == [])
  }

  lemma ChosenOnce(free: seq<seq<int>>, index: int, j: int, k: int)
    requires Chosen(free, index, j) && Chosen(free, index, k)
    ensures j == k
  {
  }

  lemma ChosenFrom(free: seq<seq<int>>, available: seq<int>, top: int, index: int, k: int)
    requires AvailOk(free, available, top) && k in available
    requires k == index || k == top <= index || (k > index >= 0 && free[index] == [] && forall c :: c in available && c > index ==> k <= c)
    ensures Chosen(free, index, k)
  {
    forall j | 0 <= j < |free| && free[j] != [] ensures j in available && j <= top {
      TopIsLargest(free, available, top, j);
    }
  }

  // The first block of the list that is large enough.
  ghost predicate FirstServing(hdr: Headers, list: seq<int>, size: nat, st: int) {
    exists i :: 0 <= i < |list| && list[i] == st && st in hdr && hdr[st].size >= size && SmallBefore(hdr, list, size, i)
  }

  ghost predicate SmallBefore(hdr: Headers, list: seq<int>, size: int, i: int) {
    forall j :: 0 <= j < i && j < |list| ==> list[j] in hdr && hdr[list[j]].size < size
  }

  // The first of the largest blocks of the list.
  ghost predicate FirstLargest(hdr: Headers, list: seq<int>, st: int) {
    st in hdr && (forall a :: a in list && a in hdr ==> hdr[a].size <= hdr[st].size) && FirstServing(hdr, list, hdr[st].size, st)
  }

  // The class lists without a block, and with one in front.
  ghost function Unfiled(free: seq<seq<int>>, k: int, a: int): seq<seq<int>> {
    if 0 <= k < |free| && a in free[k] then free[k := Without(free[k], a)] else free
  }

  ghost function Filed(free: seq<seq<int>>, k: int, a: int): seq<seq<int>> {
    if 0 <= k < |free| then free[k := [a] + free[k]] else free
  }

  lemma ExhaustedMeansAllocated(c: Config, hdr: Headers, free: seq<seq<int>>, available: seq<int>, top: int)
    requires GoodConfig(c) && Lists(c, hdr, free, available, top, {})
    ensures top == c.freeLen <==> forall a :: a in hdr ==> hdr[a].alloc
  {
    if available != [] {
      TopIsLargest(free, available, top, available[0]);
      var a := free[top][0];
      assert a in free[top];
      assert a in hdr && !hdr[a].alloc;
    } else {
      forall a | a in hdr && !hdr[a].alloc ensures false {
        TopIsLargest(free, available, top, hdr[a].home);
      }
    }
  }

  // Only the top class has to be searched for a largest free block.
  lemma TopHoldsLargest(c: Config, hdr: Headers, free: seq<seq<int>>, available: seq<int>, top: int, best: int)
    requires GoodConfig(c) && Lists(c, hdr, free, available, top, {}) && available != []
    requires 0 <= top < |free| && best in free[top]
    requires forall a :: a in free[top] && a in hdr ==> hdr[a].size <= hdr[best].size
    ensures forall a :: a in hdr && !hdr[a].alloc ==> hdr[a].size <= hdr[best].size
  {
    forall a | a in hdr && !hdr[a].alloc ensures hdr[a].size <= hdr[best].size {
      TopIsLargest(free, available, top, hdr[a].home);
      if hdr[a].home < top {
        LowClassSmaller(c, hdr[a].size, hdr[best].size);
      }
    }
  }

  lemma ServeAtOrAbove(c: Config, hdr: Headers, free: seq<seq<int>>, size: nat, k: int)
    requires GoodConfig(c) && FreeOk(c, hdr, free, {})
    requires 0 <= k < |free| && free[k] != [] && k >= AllocIndex(c, size)
    ensures !Starved(c, hdr, free, size) ==> ListServes(hdr, free[k], size)
  {
    if size > c.minSize || k >= 1 {
      var a := free[k][0];
      assert a in free[k];
      HighClassFits(c, size, hdr[a].size);
    }
  }

  lemma ServeTop(c: Config, hdr: Headers, free: seq<seq<int>>, available: seq<int>, top: int, size: nat)
    requires GoodConfig(c) && Lists(c, hdr, free, available, top, {})
    requires available != [] && AllocIndex(c, size) >= top
    ensures 0 <= top < |free|
    ensures Fits(hdr, size) && !Starved(c, hdr, free, size) ==> ListServes(hdr, free[top], size)
  {
    TopIsLargest(free, available, top, available[0]);
    if Fits(hdr, size) && !Starved(c, hdr, free, size) {
      var w :| w in hdr && !hdr[w].alloc && hdr[w].size >= size;
      TopIsLargest(free, available, top, hdr[w].home);
      if AllocIndex(c, size) == top {
        ServeAtOrAbove(c, hdr, free, size, top);
      } else if hdr[w].home < top {
        LowClassTooSmall(c, size, hdr[w].size);
      }
    }
  }

  // ---- splitting a block ----

  predicate Splits(threshold: nat, block: nat, size: nat) {
    block >= size && block - size >= HEADER + threshold
  }

  /** The headers after `size` bytes are taken from free block st: the block is handed out
      whole, or its tail becomes a new free block. */
  function Carved(c: Config, hdr: Headers, threshold: nat, st: int, size: nat): Headers
    requires GoodConfig(c) && st in hdr
  {
    var h := hdr[st];
    if !Splits(threshold, h.size, size) then
      hdr[st := Header(true, h.size, size, -1)]
    else
      var rest := h.size - (size + HEADER);
      hdr[st + HEADER + size := Header(false, rest, h.act, Class(c, rest))][st := Header(true, size, size, -1)]
  }

  function CarvedOrder(order: seq<int>, hdr: Headers, threshold: nat, st: int, size: nat): seq<int>
    requires st in hdr && st in order
  {
    if !Splits(threshold, hdr[st].size, size) then order
    else var i := Pos(order, st); order[..i] + [st, st + HEADER + size] + order[i + 1..]
  }

  /** What is taken is exactly as large as the request, with a free block of at least the threshold
      behind it, or it is the whole block and the rest would be smaller than that. */
  lemma CarvedExact(c: Config, hdr: Headers, threshold: nat, st: int, size: nat)
    requires GoodConfig(c) && st in hdr && hdr[st].size >= size
    ensures var h, rest := Carved(c, hdr, threshold, st, size), hdr[st].size - size - HEADER;
      && st in h && h[st].alloc && h[st].act == size && h[st].size - size < HEADER + threshold
      && (rest >= threshold ==> h[st].size == size && st + HEADER + size in h && !h[st + HEADER + size].alloc && h[st + HEADER + size].size == rest)
      && (rest < threshold ==> h[st].size == hdr[st].size && h.Keys == hdr.Keys)
  {
  }

  /** The class lists after the same: the block leaves its list, and the rest comes first on its. */
  ghost function CarvedLists(c: Config, hdr: Headers, free: seq<seq<int>>, threshold: nat, st: int, size: nat): seq<seq<int>>
    requires GoodConfig(c) && st in hdr
  {
    var f, stNew := Unfiled(free, hdr[st].home, st), st + HEADER + size;
    if Splits(threshold, hdr[st].size, size) then Filed(f, Class(c, hdr[st].size - (size + HEADER)), stNew) else f
  }

  // The block a request takes: the first that is large enough on the list of the chosen class.
  ghost predicate Picked(c: Config, hdr: Headers, free: seq<seq<int>>, size: nat, st: int)
    requires GoodConfig(c)
  {
    && st > 0 && st in hdr && !hdr[st].alloc && hdr[st].size >= size
    && Chosen(free, AllocIndex(c, size), hdr[st].home) && FirstServing(hdr, free[hdr[st].home], size, st)
  }

  // What handing out size bytes of block st does to the block list, the headers and the class lists.
  ghost predicate Handed(c: Config, order: seq<int>, hdr: Headers, free: seq<seq<int>>, threshold: nat, size: nat, st: int,
                         order': seq<int>, hdr': Headers, free': seq<seq<int>>)
    requires GoodConfig(c)
  {
    && st in hdr && st in order && hdr' == Carved(c, hdr, threshold, st, size) && order' == CarvedOrder(order, hdr, threshold, st, size)
    && free' == CarvedLists(c, hdr, free, threshold, st, size)
    && st in hdr' && hdr'[st].size - size < HEADER + threshold
  }

  lemma HandedMeans(c: Config, order: seq<int>, hdr: Headers, free: seq<seq<int>>, threshold: nat, size: nat, st: int,
                    order': seq<int>, hdr': Headers, free': seq<seq<int>>)
    requires GoodConfig(c) && Handed(c, order, hdr, free, threshold, size, st, order', hdr', free')
    ensures st in hdr && st in order && hdr' == Carved(c, hdr, threshold, st, size) && order' == CarvedOrder(order, hdr, threshold, st, size) && st in hdr'
  {
  }

  // Replacing one block by a stretch of blocks that spans the same addresses.
  lemma ReplaceRun(pre: seq<int>, mid: seq<int>, post: seq<int>, hdr: Headers, hdr': Headers,
                   lo: int, a: int, b: int, hi: int, g: bool)
    requires Run(pre, hdr, lo, a, false) && Run(post, hdr, b, hi, g)
    requires forall x :: (x in pre || x in post) && x in hdr ==> x in hdr' && hdr'[x].size == hdr[x].size && hdr'[x].alloc == hdr[x].alloc
    requires forall x :: x in pre ==> x in hdr
    requires mid != [] && forall x :: x in mid ==> x in hdr'
    requires Run(mid, hdr', a, b, LastFree(pre, hdr, false))
    requires LastFree(mid, hdr', false) ==> g
    ensures Run(pre + mid + post, hdr', lo, hi, false)
  {
    var x := mid[|mid| - 1];
    assert x in mid;
    if pre != [] {
      var y := pre[|pre| - 1];
      assert y in pre;
    }
    RunFrame(pre, hdr, hdr', lo, a, false);
    RunFrame(post, hdr, hdr', b, hi, g);
    assert Run(post, hdr', b, hi, LastFree(mid, hdr', LastFree(pre, hdr, false)));
    RunJoin(mid, post, hdr', a, b, hi, LastFree(pre, hdr, false));
    RunJoin(pre, mid + post, hdr', lo, a, hi, false);
    assert pre + mid + post == pre + (mid + post);
  }

  lemma RunPair(a: int, b: int, hdr: Headers, f: bool)
    requires a in hdr && b in hdr && b == End(hdr, a) && hdr[a].alloc
    ensures Run([a, b], hdr, a, End(hdr, b), f)
  {
    assert [a, b][1..] == [b];
    RunOne(b, hdr, false);
  }

  lemma SumPair(a: int, b: int, hdr: Headers, kind: Kind)
    requires a in hdr && b in hdr
    ensures Sum([a, b], hdr, kind) == Weight(hdr[a], kind) + Weight(hdr[b], kind)
  {
    assert [a, b][1..] == [b];
    assert Sum([b], hdr, kind) == Weight(hdr[b], kind);
  }

  lemma SameMembers(pre: seq<int>, mid: seq<int>, mid': seq<int>, post: seq<int>, hdr: Headers, hdr': Headers)
    requires forall a :: a in hdr <==> a in pre + mid + post
    requires forall a :: a in hdr' <==> a in mid' || (a in hdr && a !in mid)
    requires forall a :: a in pre || a in post ==> a !in mid
    ensures forall a :: a in hdr' <==> a in pre + mid' + post
  {
  }

  lemma CarveShape(c: Config, pre: seq<int>, post: seq<int>, hdr: Headers, lo: int, hi: int, threshold: nat, st: int, size: nat)
    requires GoodConfig(c) && Shape(pre + [st] + post, hdr, lo, hi)
    requires st in hdr && !hdr[st].alloc && size <= hdr[st].size
    ensures var hdr' := Carved(c, hdr, threshold, st, size);
      if Splits(threshold, hdr[st].size, size)
      then Shape(pre + [st, st + HEADER + size] + post, hdr', lo, hi)
      else Shape(pre + [st] + post, hdr', lo, hi)
  {
    ThreeParts(pre, [st], post, hdr, lo, hi);
    var hdr' := Carved(c, hdr, threshold, st, size);
    if Splits(threshold, hdr[st].size, size) {
      var nu := st + HEADER + size;
      RunPair(st, nu, hdr', LastFree(pre, hdr, false));
      ReplaceRun(pre, [st, nu], post, hdr, hdr', lo, st, End(hdr, st), hi, true);
      SameMembers(pre, [st], [st, nu], post, hdr, hdr');
    } else {
      RunOne(st, hdr', LastFree(pre, hdr, false));
      ReplaceRun(pre, [st], post, hdr, hdr', lo, st, End(hdr, st), hi, true);
    }
  }

  lemma CarveSum(c: Config, pre: seq<int>, post: seq<int>, hdr: Headers, lo: int, hi: int, threshold: nat, st: int, size: nat, kind: Kind)
    requires GoodConfig(c) && Run(pre + [st] + post, hdr, lo, hi, false)
    requires st in hdr && !hdr[st].alloc && size <= hdr[st].size && !kind.Free?
    ensures var hdr' := Carved(c, hdr, threshold, st, size);
      var mid := if Splits(threshold, hdr[st].size, size) then [st, st + HEADER + size] else [st];
      Sum(pre + mid + post, hdr', kind) == Sum(pre + [st] + post, hdr, kind) + Weight(hdr'[st], kind)
  {
    ThreeParts(pre, [st], post, hdr, lo, hi);
    var hdr' := Carved(c, hdr, threshold, st, size);
    assert Sum([st], hdr, kind) == 0;
    if Splits(threshold, hdr[st].size, size) {
      var nu := st + HEADER + size;
      SumPair(st, nu, hdr', kind);
      SumSplice(pre, [st], [st, nu], post, hdr, hdr', kind);
    } else {
      assert Sum([st], hdr', kind) == Weight(hdr'[st], kind);
      SumSplice(pre, [st], [st], post, hdr, hdr', kind);
    }
  }

  /** Taking `size` bytes out of a free block keeps the tiling and the no-two-free-
      neighbours rule, and moves the statistics by exactly what the code adds. */
  lemma CarveKeepsShape(c: Config, order: seq<int>, hdr: Headers, lo: int, hi: int, threshold: nat, st: int, size: nat)
    requires GoodConfig(c) && Shape(order, hdr, lo, hi)
    requires st in hdr && !hdr[st].alloc && size <= hdr[st].size
    ensures var hdr' := Carved(c, hdr, threshold, st, size);
      var order' := CarvedOrder(order, hdr, threshold, st, size);
      && Shape(order', hdr', lo, hi)
      && Sum(order', hdr', Used) == Sum(order, hdr, Used) + hdr'[st].size
      && Sum(order', hdr', Requested) == Sum(order, hdr, Requested) + size
  {
    var i := Pos(order, st);
    var pre, post := order[..i], order[i + 1..];
    assert order == pre + [st] + post;
    CarveShape(c, pre, post, hdr, lo, hi, threshold, st, size);
    CarveSum(c, pre, post, hdr, lo, hi, threshold, st, size, Used);
    CarveSum(c, pre, post, hdr, lo, hi, threshold, st, size, Requested);
  }

  // ---- freeing a block ----

  predicate NextFree(order: seq<int>, hdr: Headers, i: nat) {
    i + 1 < |order| && order[i + 1] in hdr && !hdr[order[i + 1]].alloc
  }

  predicate PrevFree(order: seq<int>, hdr: Headers, i: nat) {
    0 < i <= |order| && order[i - 1] in hdr && !hdr[order[i - 1]].alloc
  }

  /** The blocks that become one when block i is freed: positions [FreedFrom, FreedTo). */
  function FreedFrom(order: seq<int>, hdr: Headers, i: nat): nat {
    if PrevFree(order, hdr, i) then i - 1 else i
  }

  function FreedTo(order: seq<int>, hdr: Headers, i: nat): nat {
    if NextFree(order, hdr, i) then i + 2 else i + 1
  }

  /** The headers after a stretch of blocks has become one free block. */
  ghost function Merged(c: Config, hdr: Headers, mid: seq<int>): Headers
    requires GoodConfig(c) && Mergeable(mid, hdr)
  {
    var r := mid[0];
    var size := End(hdr, mid[|mid| - 1]) - r - HEADER;
    (hdr - (set a | a in mid))[r := Header(false, size, hdr[r].act, Class(c, size))]
  }

  /** The class lists after block i is freed: its free neighbours leave theirs, and the merged block
      comes first on its own. */
  ghost function FreedLists(c: Config, order: seq<int>, hdr: Headers, free: seq<seq<int>>, i: nat): seq<seq<int>>
    requires GoodConfig(c) && i < |order| && FreedTo(order, hdr, i) <= |order|
    requires Mergeable(order[FreedFrom(order, hdr, i)..FreedTo(order, hdr, i)], hdr)
  {
    var j, k := FreedFrom(order, hdr, i), FreedTo(order, hdr, i);
    var f1 := if NextFree(order, hdr, i) then Unfiled(free, hdr[order[i + 1]].home, order[i + 1]) else free;
    var f2 := if PrevFree(order, hdr, i) then Unfiled(f1, hdr[order[i - 1]].home, order[i - 1]) else f1;
    Filed(f2, Merged(c, hdr, order[j..k])[order[j]].home, order[j])
  }

  /** Merging a stretch whose outer neighbours are allocated keeps the block list sound. */
  lemma MergeShape(c: Config, pre: seq<int>, mid: seq<int>, post: seq<int>, hdr: Headers, lo: int, hi: int)
    requires GoodConfig(c) && Shape(pre + mid + post, hdr, lo, hi) && mid != []
    requires !LastFree(pre, hdr, false)
    requires post != [] ==> post[0] in hdr && hdr[post[0]].alloc
    ensures Mergeable(mid, hdr)
    ensures Shape(pre + [mid[0]] + post, Merged(c, hdr, mid), lo, hi)
  {
    ThreeParts(pre, mid, post, hdr, lo, hi);
    var hdr', r, end := Merged(c, hdr, mid), mid[0], End(hdr, mid[|mid| - 1]);
    assert r in mid;
    RunOne(r, hdr', false);
    assert Run(post, hdr, end, hi, true);
    ReplaceRun(pre, [r], post, hdr, hdr', lo, r, end, hi, true);
    SameMembers(pre, mid, [r], post, hdr, hdr');
  }

  lemma MergeSum(c: Config, pre: seq<int>, mid: seq<int>, post: seq<int>, hdr: Headers, lo: int, hi: int, kind: Kind)
    requires GoodConfig(c) && Run(pre + mid + post, hdr, lo, hi, false) && mid != [] && !kind.Free?
    ensures Mergeable(mid, hdr)
    ensures Sum(pre + [mid[0]] + post, Merged(c, hdr, mid), kind) + Sum(mid, hdr, kind)
         == Sum(pre + mid + post, hdr, kind)
  {
    ThreeParts(pre, mid, post, hdr, lo, hi);
    var hdr', r := Merged(c, hdr, mid), mid[0];
    assert r in mid;
    SumSplice(pre, mid, [r], post, hdr, hdr', kind);
    assert Sum([r], hdr', kind) == 0;
  }

  // Of the merged blocks only the freed one weighs anything.
  lemma MiddleSum(order: seq<int>, hdr: Headers, i: nat, kind: Kind)
    requires i < |order| && order[i] in hdr && !kind.Free?
    ensures var j, k := FreedFrom(order, hdr, i), FreedTo(order, hdr, i);
      k <= |order| && Sum(order[j..k], hdr, kind) == Weight(hdr[order[i]], kind)
  {
    var j, k := FreedFrom(order, hdr, i), FreedTo(order, hdr, i);
    assert order[j..k] == order[j..i] + ([order[i]] + order[i + 1..k]);
    SumAppend(order[j..i], [order[i]] + order[i + 1..k], hdr, kind);
    SumAppend([order[i]], order[i + 1..k], hdr, kind);
    assert j < i ==> order[j..i] == [order[j]];
    assert i + 1 < k ==> order[i + 1..k] == [order[i + 1]];
  }

  /** Freeing block i merges it with both free neighbours; tiling, the neighbour rule and
      the statistics survive. */
  lemma FreeKeepsShape(c: Config, order: seq<int>, hdr: Headers, lo: int, hi: int, i: nat)
    requires GoodConfig(c) && Shape(order, hdr, lo, hi)
    requires i < |order| && order[i] in hdr && hdr[order[i]].alloc
    ensures var j, k := FreedFrom(order, hdr, i), FreedTo(order, hdr, i);
      && k <= |order| && Mergeable(order[j..k], hdr)
      && var order', hdr' := order[..j] + [order[j]] + order[k..], Merged(c, hdr, order[j..k]);
      && Shape(order', hdr', lo, hi)
      && Sum(order', hdr', Used) + hdr[order[i]].size == Sum(order, hdr, Used)
      && Sum(order', hdr', Requested) + hdr[order[i]].act == Sum(order, hdr, Requested)
  {
    var j, k := FreedFrom(order, hdr, i), FreedTo(order, hdr, i);
    var pre, mid, post := order[..j], order[j..k], order[k..];
    assert order == pre + mid + post && mid != [] && mid[0] == order[j];
    FreedBetween(order, hdr, lo, hi, i);
    hide *;
    MergeShape(c, pre, mid, post, hdr, lo, hi);
    MergeSum(c, pre, mid, post, hdr, lo, hi, Used);
    MergeSum(c, pre, mid, post, hdr, lo, hi, Requested);
    MiddleSum(order, hdr, i, Used);
    MiddleSum(order, hdr, i, Requested);
    Weights(hdr[order[i]]);
  }

  lemma Weights(h: Header)
    requires h.alloc
    ensures Weight(h, Used) == h.size && Weight(h, Requested) == h.act
  {
  }

  // The blocks on both sides of the merged ones are allocated.
  lemma FreedBetween(order: seq<int>, hdr: Headers, lo: int, hi: int, i: nat)
    requires Shape(order, hdr, lo, hi) && i < |order| && order[i] in hdr && hdr[order[i]].alloc
    ensures var j, k := FreedFrom(order, hdr, i), FreedTo(order, hdr, i);
      && k <= |order| && !LastFree(order[..j], hdr, false)
      && (k < |order| ==> order[k..][0] in hdr && hdr[order[k..][0]].alloc)
  {
    var j, k := FreedFrom(order, hdr, i), FreedTo(order, hdr, i);
    if j > 0 {
      RunTiles(order, hdr, lo, hi, false, j - 1);
      assert order[..j][j - 1] == order[j - 1];
    }
    if k < |order| {
      RunTiles(order, hdr, lo, hi, false, k - 1);
      assert order[k..][0] == order[k];
    }
  }

  // ---- the two coalescing steps ----

  function NextAbsorbed(order: seq<int>, hdr: Headers, i: nat): Headers
    requires i < |order| && order[i] in hdr
  {
    if !NextFree(order, hdr, i) then hdr
    else
      var st, nx := order[i], order[i + 1];
      (hdr - {nx})[st := hdr[st].(size := hdr[st].size + hdr[nx].size + HEADER)]
  }

  function NextDropped(order: seq<int>, hdr: Headers, i: nat): seq<int>
    requires i < |order|
  {
    if NextFree(order, hdr, i) then order[..i + 1] + order[i + 2..] else order
  }

  function PrevAbsorbed(order: seq<int>, hdr: Headers, i: nat): Headers
    requires i < |order| && order[i] in hdr
  {
    if !PrevFree(order, hdr, i) then hdr
    else
      var st, pv := order[i], order[i - 1];
      (hdr - {st})[pv := hdr[pv].(size := hdr[pv].size + hdr[st].size + HEADER, home := -1)]
  }

  function PrevDropped(order: seq<int>, hdr: Headers, i: nat): seq<int>
    requires i < |order|
  {
    if PrevFree(order, hdr, i) then order[..i] + order[i + 1..] else order
  }

  // Absorbing the next block leaves everything up to block i as it was.
  lemma NextStep(order: seq<int>, hdr: Headers, i: nat)
    requires i < |order| && order[i] in hdr
    requires i + 1 < |order| ==> order[i] != order[i + 1]
    requires i > 0 ==> order[i - 1] != order[i]
    requires i > 0 && i + 1 < |order| ==> order[i - 1] != order[i + 1]
    ensures var o, h := NextDropped(order, hdr, i), NextAbsorbed(order, hdr, i);
      && i < |o| && o[i] == order[i] && order[i] in h
      && (i > 0 ==> o[i - 1] == order[i - 1] && (order[i - 1] in hdr ==> order[i - 1] in h && h[order[i - 1]] == hdr[order[i - 1]]))
      && (PrevFree(o, h, i) <==> PrevFree(order, hdr, i))
  {
  }

  // The merged header map for each combination of free neighbours.
  lemma MergedAlone(c: Config, hdr: Headers, st: int)
    requires GoodConfig(c) && st in hdr
    ensures Mergeable([st], hdr)
    ensures Merged(c, hdr, [st]) == hdr[st := Header(false, hdr[st].size, hdr[st].act, Class(c, hdr[st].size))]
  {
  }

  lemma MergedTwo(c: Config, hdr: Headers, a: int, b: int)
    requires GoodConfig(c) && a in hdr && b in hdr && b == End(hdr, a)
    ensures Mergeable([a, b], hdr)
    ensures var size := hdr[a].size + hdr[b].size + HEADER;
      Merged(c, hdr, [a, b]) == (hdr - {b})[a := Header(false, size, hdr[a].act, Class(c, size))]
  {
    assert (set x | x in [a, b]) == {a, b};
  }

  lemma MergedThree(c: Config, hdr: Headers, a: int, b: int, d: int)
    requires GoodConfig(c) && a in hdr && b in hdr && d in hdr && b == End(hdr, a) && d == End(hdr, b)
    ensures Mergeable([a, b, d], hdr)
    ensures var size := hdr[a].size + hdr[b].size + hdr[d].size + 2 * HEADER;
      Merged(c, hdr, [a, b, d]) == (hdr - {b, d})[a := Header(false, size, hdr[a].act, Class(c, size))]
  {
    assert (set x | x in [a, b, d]) == {a, b, d};
  }

  lemma DroppedOrder(order: seq<int>, i: nat, prev: bool, next: bool)
    requires i < |order| && (prev ==> i > 0) && (next ==> i + 1 < |order|)
    ensures var o2 := if next then order[..i + 1] + order[i + 2..] else order;
      var j, k := if prev then i - 1 else i, if next then i + 2 else i + 1;
      (if prev then o2[..i] + o2[i + 1..] else o2) == order[..j] + [order[j]] + order[k..]
  {
  }

  lemma MidCases(order: seq<int>, hdr: Headers, i: nat)
    requires i < |order|
    ensures var j, k := FreedFrom(order, hdr, i), FreedTo(order, hdr, i);
      && k <= |order|
      && order[j..k] == (if j < i then [order[i - 1]] else []) + [order[i]] + (if i + 1 < k then [order[i + 1]] else [])
  {
  }

  // The header map after both absorption steps, before the block is filed.
  ghost function BothAbsorbed(order: seq<int>, hdr: Headers, i: nat): Headers
    requires i < |order| && order[i] in hdr
  {
    var h1 := hdr[order[i] := hdr[order[i]].(alloc := false)];
    var o2, h2 := NextDropped(order, h1, i), NextAbsorbed(order, h1, i);
    if i < |o2| && o2[i] in h2 then PrevAbsorbed(o2, h2, i) else h2
  }

  lemma FiledAlone(c: Config, order: seq<int>, hdr: Headers, i: nat)
    requires GoodConfig(c) && i < |order| && order[i] in hdr
    requires !PrevFree(order, hdr, i) && !NextFree(order, hdr, i)
    requires i > 0 ==> order[i - 1] != order[i]
    requires i + 1 < |order| ==> order[i] != order[i + 1]
    ensures var h3, st := BothAbsorbed(order, hdr, i), order[i];
      st in h3 && !h3[st].alloc && Mergeable([st], hdr)
      && h3[st := h3[st].(home := Class(c, h3[st].size))] == Merged(c, hdr, [st])
  {
    hide Class;
    MergedAlone(c, hdr, order[i]);
  }

  lemma FiledNext(c: Config, order: seq<int>, hdr: Headers, i: nat)
    requires GoodConfig(c) && i + 1 < |order| && order[i] in hdr && order[i + 1] in hdr
    requires !PrevFree(order, hdr, i) && NextFree(order, hdr, i)
    requires i > 0 ==> order[i - 1] < order[i]
    requires order[i + 1] == End(hdr, order[i])
    ensures var h3, st := BothAbsorbed(order, hdr, i), order[i];
      st in h3 && !h3[st].alloc && Mergeable([st, order[i + 1]], hdr)
      && h3[st := h3[st].(home := Class(c, h3[st].size))] == Merged(c, hdr, [st, order[i + 1]])
  {
    hide Class, Merged, Mergeable;
    var h1 := hdr[order[i] := hdr[order[i]].(alloc := false)];
    NextStep(order, h1, i);
    MergedTwo(c, hdr, order[i], order[i + 1]);
  }

  lemma FiledPrev(c: Config, order: seq<int>, hdr: Headers, i: nat)
    requires GoodConfig(c) && 0 < i < |order| && order[i] in hdr && order[i - 1] in hdr
    requires PrevFree(order, hdr, i) && !NextFree(order, hdr, i)
    requires i + 1 < |order| ==> order[i] < order[i + 1]
    requires order[i] == End(hdr, order[i - 1])
    ensures var h3, pv := BothAbsorbed(order, hdr, i), order[i - 1];
      pv in h3 && !h3[pv].alloc && Mergeable([pv, order[i]], hdr)
      && h3[pv := h3[pv].(home := Class(c, h3[pv].size))] == Merged(c, hdr, [pv, order[i]])
  {
    hide Class, Merged, Mergeable;
    var h1 := hdr[order[i] := hdr[order[i]].(alloc := false)];
    NextStep(order, h1, i);
    MergedTwo(c, hdr, order[i - 1], order[i]);
  }

  lemma FiledBoth(c: Config, order: seq<int>, hdr: Headers, i: nat)
    requires GoodConfig(c) && 0 < i && i + 1 < |order|
    requires order[i - 1] in hdr && order[i] in hdr && order[i + 1] in hdr
    requires PrevFree(order, hdr, i) && NextFree(order, hdr, i)
    requires order[i] == End(hdr, order[i - 1]) && order[i + 1] == End(hdr, order[i])
    ensures var h3, pv := BothAbsorbed(order, hdr, i), order[i - 1];
      pv in h3 && !h3[pv].alloc && Mergeable([pv, order[i], order[i + 1]], hdr)
      && h3[pv := h3[pv].(home := Class(c, h3[pv].size))] == Merged(c, hdr, [pv, order[i], order[i + 1]])
  {
    hide Class, Merged, Mergeable;
    var h1 := hdr[order[i] := hdr[order[i]].(alloc := false)];
    NextStep(order, h1, i);
    MergedThree(c, hdr, order[i - 1], order[i], order[i + 1]);
  }

  lemma StepsOrder(order: seq<int>, hdr: Headers, lo: int, hi: int, i: nat)
    requires Run(order, hdr, lo, hi, false)
    requires i < |order| && order[i] in hdr && hdr[order[i]].alloc
    ensures var j, k := FreedFrom(order, hdr, i), FreedTo(order, hdr, i);
      var h1 := hdr[order[i] := hdr[order[i]].(alloc := false)];
      var o2, h2 := NextDropped(order, h1, i), NextAbsorbed(order, h1, i);
      && j <= i && k <= |order|
      && i < |o2| && o2[i] == order[i] && o2[i] in h2
      && PrevDropped(o2, h2, i) == order[..j] + [order[j]] + order[k..]
      && (PrevFree(o2, h2, i) <==> j < i)
      && BothAbsorbed(order, hdr, i) == PrevAbsorbed(o2, h2, i)
  {
    hide Run;
    RunTiles(order, hdr, lo, hi, false, i);
    if i > 0 { RunTiles(order, hdr, lo, hi, false, i - 1); }
    NextStep(order, hdr[order[i] := hdr[order[i]].(alloc := false)], i);
    DroppedOrder(order, i, PrevFree(order, hdr, i), NextFree(order, hdr, i));
  }

  /** The two steps of dfs_shmem_free followed by filing the block amount to Merged. */
  lemma StepsMerge(c: Config, order: seq<int>, hdr: Headers, lo: int, hi: int, i: nat)
    requires GoodConfig(c) && Run(order, hdr, lo, hi, false)
    requires i < |order| && order[i] in hdr && hdr[order[i]].alloc
    ensures var j, k := FreedFrom(order, hdr, i), FreedTo(order, hdr, i);
      var h3 := BothAbsorbed(order, hdr, i);
      && k <= |order| && Mergeable(order[j..k], hdr)
      && order[j] in h3 && !h3[order[j]].alloc
      && h3[order[j] := h3[order[j]].(home := Class(c, h3[order[j]].size))] == Merged(c, hdr, order[j..k])
  {
    hide Run, Class, Merged, Mergeable, BothAbsorbed;
    RunTiles(order, hdr, lo, hi, false, i);
    if i > 0 { RunTiles(order, hdr, lo, hi, false, i - 1); }
    MidCases(order, hdr, i);
    var j, k := FreedFrom(order, hdr, i), FreedTo(order, hdr, i);
    var mid := order[j..k];
    if j < i && i + 1 < k {
      assert mid == [order[i - 1], order[i], order[i + 1]];
      FiledBoth(c, order, hdr, i);
    } else if j < i {
      assert mid == [order[i - 1], order[i]];
      FiledPrev(c, order, hdr, i);
    } else if i + 1 < k {
      assert mid == [order[i], order[i + 1]];
      FiledNext(c, order, hdr, i);
    } else {
      assert mid == [order[i]];
      FiledAlone(c, order, hdr, i);
    }
  }

  // Freeing a block changes the set of allocated blocks by exactly that block.
  lemma FreedIsGone(c: Config, order: seq<int>, hdr: Headers, lo: int, hi: int, st: int)
    requires GoodConfig(c) && Shape(order, hdr, lo, hi) && st in hdr && hdr[st].alloc
    ensures var i := Pos(order, st); var j, k := FreedFrom(order, hdr, i), FreedTo(order, hdr, i);
      && k <= |order| && Mergeable(order[j..k], hdr)
      && var hdr' := Merged(c, hdr, order[j..k]);
      && (forall a :: Live(hdr', a) <==> Live(hdr, a) && a != st)
      && (forall a :: Live(hdr', a) ==> hdr'[a] == hdr[a])
  {
    hide Run, HeadersOk, Sum, Class;
    var i := Pos(order, st);
    FreeKeepsShape(c, order, hdr, lo, hi, i);
    MidCases(order, hdr, i);
    var j, k := FreedFrom(order, hdr, i), FreedTo(order, hdr, i);
    assert order[j] == order[j..k][0];
  }

  lemma InitialState(c: Config, lo: int, size: nat, free: seq<seq<int>>)
    requires GoodConfig(c) && |free| == c.freeLen
    requires forall k :: 0 <= k < |free| ==> free[k] == if k == Class(c, size) then [lo] else []
    ensures var i := Class(c, size); var hdr := map[lo := Header(false, size, 0, i)];
      && Shape([lo], hdr, lo, lo + HEADER + size)
      && Lists(c, hdr, free, [i], i, {})
      && Sum([lo], hdr, Used) == 0 && Sum([lo], hdr, Requested) == 0
  {
    var i := Class(c, size);
    var hdr := map[lo := Header(false, size, 0, i)];
    RunOne(lo, hdr, false);
  }

  lemma SumOfFree(a: int, hdr: Headers)
    requires a in hdr && !hdr[a].alloc
    ensures Sum([a], hdr, Used) == 0 && Sum([a], hdr, Requested) == 0
  {
  }

  ghost predicate Live(hdr: Headers, a: int) {
    a in hdr && hdr[a].alloc
  }

  // addr is the payload address of an allocated block.
  ghost predicate LiveAddr(hdr: Headers, addr: int) {
    Live(hdr, addr - HEADER)
  }

  // Taking bytes from a free block adds exactly that block to the allocated ones.
  lemma CarvedIsLive(c: Config, order: seq<int>, hdr: Headers, lo: int, hi: int, threshold: nat, st: int, size: nat)
    requires GoodConfig(c) && Shape(order, hdr, lo, hi)
    requires st in hdr && !hdr[st].alloc && size <= hdr[st].size
    ensures var hdr' := Carved(c, hdr, threshold, st, size);
      && (forall a :: Live(hdr', a) <==> Live(hdr, a) || a == st)
      && (forall a :: Live(hdr, a) ==> hdr'[a] == hdr[a])
  {
    if Splits(threshold, hdr[st].size, size) {
      InsideIsFresh(order, hdr, lo, hi, st, st + HEADER + size);
    }
  }
}

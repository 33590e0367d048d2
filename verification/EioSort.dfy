/** eio_dent_sort of src/cfs/cfs_eio.c: an MSD radix pass down to small partitions, then an
    insertion sort without a bounds check. */
module EioSort {
  import opened EioOrder
  import opened EioBits
  import opened Log2

  const SLOTS := 73

  // ---- preparing the bits to test ----

  /** The bit list of eio_dent_radix_sort; nb is the index of the last entry. */
  method ListBits(bits: array<int>, scoreBits: nat, inodeBits: nat) returns (nb: int)
    requires bits.Length == SLOTS
    modifies bits
    ensures 0 <= nb < SLOTS && bits[..nb + 1] == [0] + Selected(scoreBits, inodeBits, KEY_BITS)
  {
    bits[0] := 0;
    nb := 0;
    var i := 0;
    while i < 8
      invariant 0 <= i <= 8 && 0 <= nb <= i * 8
      invariant bits[..nb + 1] == [0] + Selected(scoreBits, inodeBits, i * 8)
    {
      var j := 0;
      while j < 8
        invariant 0 <= j <= 8 && 0 <= nb <= i * 8 + j
        invariant bits[..nb + 1] == [0] + Selected(scoreBits, inodeBits, i * 8 + j)
      {
        if Bit(inodeBits, i * 8 + j) {
          nb := nb + 1;
          bits[nb] := i * 8 + j + 1;
        }
        j := j + 1;
      }
      i := i + 1;
    }
    var j := 0;
    while j < 8
      invariant 0 <= j <= 8 && 0 <= nb <= 64 + j
      invariant bits[..nb + 1] == [0] + Selected(scoreBits, inodeBits, 64 + j)
    {
      if Bit(scoreBits, j) {
        nb := nb + 1;
        bits[nb] := 64 + j + 1;
      }
      j := j + 1;
    }
  }

  // ---- partitioning on one bit ----

  lemma SwapShuffled(s0: seq<Dirent>, s: seq<Dirent>, lo: int, hi: int, i: int, j: int)
    requires Shuffled(s0, s, lo, hi) && lo <= i < j < hi
    ensures Shuffled(s0, s[i := s[j]][j := s[i]], lo, hi)
  {
    var s' := s[i := s[j]][j := s[i]];
    var m := s[lo..hi];
    assert s'[lo..hi] == m[i - lo := m[j - lo]][j - lo := m[i - lo]];
    assert s'[..lo] == s[..lo] && s'[hi..] == s[hi..];
  }

  method Swap(d: array<Dirent>, i: int, j: int, ghost s0: seq<Dirent>, ghost lo: int, ghost hi: int)
    requires Shuffled(s0, d[..], lo, hi) && lo <= i < j < hi && AllInRange(d[..]) && 0 <= lo && hi <= d.Length
    modifies d
    ensures d[..] == old(d[..][i := d[j]][j := d[i]]) && Shuffled(s0, d[..], lo, hi) && AllInRange(d[..])
  {
    SwapShuffled(s0, d[..], lo, hi, i, j);
    d[i], d[j] := d[j], d[i];
    assert d[..] == old(d[..][i := d[j]][j := d[i]]);
  }

  /** The partition loop: entries whose bit q is clear come first. */
  method Partition(d: array<Dirent>, base: int, end: int, q: nat) returns (a: int)
    requires 0 <= base < end <= d.Length && AllInRange(d[..])
    modifies d
    ensures base <= a <= end && Shuffled(old(d[..]), d[..], base, end) && AllInRange(d[..])
    ensures Split(d[..], base, a, end, q)
  {
    hide Bit, Shuffled;
    a := base;
    assert Shuffled(d[..], d[..], base, end) by { ShuffledSelf(d[..], base, end); }
    var b := end;
    while b > a
      invariant base <= a <= b <= end && Shuffled(old(d[..]), d[..], base, end) && AllInRange(d[..])
      invariant Split(d[..], base, a, a, q) && Split(d[..], b, b, end, q)
    {
      assert InRange(d[..][a]) && InRange(d[..][b - 1]);
      if !Bit(Key(d[a]), q) {
        a := a + 1;
      } else {
        b := b - 1;
        if !Bit(Key(d[b]), q) {
          Swap(d, a, b, old(d[..]), base, end);
          a := a + 1;
        }
      }
    }
  }

  // ---- the radix pass ----

  // What the array is like while base..end is being split: everything before base is done,
  // and the stack, top first, tiles the rest.
  ghost predicate Stacked(s: seq<Dirent>, bits: seq<int>, bs: seq<int>, es: seq<int>, ks: seq<int>, end: int) {
    && AllInRange(s) && |bs| == |es| == |ks|
    && end == (if |bs| == 0 then |s| else bs[|bs| - 1])
    && forall k :: 0 <= k < |bs| ==> Frame(s, bits, bs, es, ks, k)
  }

  ghost predicate Frame(s: seq<Dirent>, bits: seq<int>, bs: seq<int>, es: seq<int>, ks: seq<int>, k: int)
    requires AllInRange(s) && |bs| == |es| == |ks| && 0 <= k < |bs|
  {
    && 0 <= bs[k] <= es[k] <= |s| && es[k] == (if k == 0 then |s| else bs[k - 1])
    && 1 <= ks[k] && k + ks[k] < |bits| && bits[ks[k]] >= 1
    && Cut(s, bs[k]) && Same(s, bs[k], es[k], bits[ks[k]])
  }

  // The segment base..end in hand, open from bit index bit downwards.
  ghost predicate Open(s: seq<Dirent>, bits: seq<int>, base: int, end: int, bit: int) {
    && 0 <= base <= end <= |s| && AllInRange(s) && 1 <= bit < |bits| && bits[bit] >= 1
    && Cut(s, base) && Cut(s, end) && Same(s, base, end, bits[bit]) && Coarse(s, base)
  }

  // A short segment needs no splitting.
  lemma CoarseShort(s: seq<Dirent>, base: int, end: int)
    requires 0 <= base <= end <= |s| && Cut(s, base) && Coarse(s, base) && end - base < CUTOFF
    ensures Coarse(s, end)
  {
  }

  // A segment split on its last bit is in order.
  lemma CoarseSplit(s: seq<Dirent>, base: int, a: int, end: int)
    requires 0 <= base <= a <= end <= |s| && AllInRange(s) && Cut(s, base) && Coarse(s, base)
    requires Cut(s, a) && Same(s, base, a, 0) && Same(s, a, end, 0)
    ensures Coarse(s, end)
  {
    forall i, j | base <= i && i + CUTOFF <= j < end
      ensures Key(s[i]) <= Key(s[j])
    {
      assert Shift(Key(s[i]), 0) == Key(s[i]) && Shift(Key(s[j]), 0) == Key(s[j]);
    }
  }

  // From one listed bit down to the next.
  lemma SameDown(s: seq<Dirent>, lo: int, hi: int, q: nat, p: nat)
    requires 0 <= lo <= hi <= |s| && AllInRange(s) && Same(s, lo, hi, q) && p <= q
    requires forall k: nat :: p <= k < q ==> Agreed(s, k)
    ensures Same(s, lo, hi, p)
  {
    forall i, j | lo <= i < hi && lo <= j < hi
      ensures Shift(Key(s[i]), p) == Shift(Key(s[j]), p)
    {
      forall k: nat | p <= k < q
        ensures Bit(Key(s[i]), k) == Bit(Key(s[j]), k)
      {
        assert Agreed(s, k);
      }
      AgreeDown(Key(s[i]), Key(s[j]), q, p);
    }
  }

  lemma GapAgreed(s: seq<Dirent>, bits: seq<int>, scoreBits: nat, inodeBits: nat, bit: int)
    requires AllInRange(s) && bits == [0] + Selected(scoreBits, inodeBits, KEY_BITS) && 1 <= bit <= |bits|
    requires AgreedBut(s, Selected(scoreBits, inodeBits, KEY_BITS))
    ensures var top := if bit == |bits| then KEY_BITS else bits[bit] - 1;
      0 <= bits[bit - 1] <= top && forall q: nat :: bits[bit - 1] <= q < top ==> Agreed(s, q)
    ensures bit < |bits| ==> bits[bit] >= 1
  {
    var sel := Selected(scoreBits, inodeBits, KEY_BITS);
    SelectedExactly(scoreBits, inodeBits, KEY_BITS);
    var top := if bit == |bits| then KEY_BITS else bits[bit] - 1;
    assert forall k :: 1 <= k < |bits| ==> bits[k] == sel[k - 1];
    forall q: nat | bits[bit - 1] <= q < top
      ensures Agreed(s, q)
    {
      forall k | 0 <= k < |sel|
        ensures sel[k] != q + 1
      {
        assert sel[k] == bits[k + 1];
      }
    }
  }

  lemma AgreedKept(s: seq<Dirent>, s': seq<Dirent>, lo: int, hi: int, sel: seq<int>)
    requires AllInRange(s) && AllInRange(s') && Shuffled(s, s', lo, hi) && AgreedBut(s, sel)
    ensures AgreedBut(s', sel)
  {
    forall q: nat, i, j | q < KEY_BITS && q + 1 !in sel && 0 <= i < |s'| && 0 <= j < |s'|
      ensures Bit(Key(s'[i]), q) == Bit(Key(s'[j]), q)
    {
      var k := From(s, s', lo, hi, i);
      var l := From(s, s', lo, hi, j);
      assert Agreed(s, q);
    }
  }

  // The segments on the stack do not notice a permutation left of them.
  lemma StackedKept(s: seq<Dirent>, s': seq<Dirent>, bits: seq<int>, bs: seq<int>, es: seq<int>, ks: seq<int>, base: int, end: int)
    requires Stacked(s, bits, bs, es, ks, end) && AllInRange(s') && Shuffled(s, s', base, end)
    ensures Stacked(s', bits, bs, es, ks, end)
  {
    forall k | 0 <= k < |bs|
      ensures Frame(s', bits, bs, es, ks, k)
    {
      RightOf(s, bits, bs, es, ks, end, k);
      assert Frame(s, bits, bs, es, ks, k);
      CutKept(s, s', base, end, bs[k]);
      SameKept(s, s', base, end, bs[k], es[k], bits[ks[k]]);
    }
  }

  lemma {:induction false} RightOf(s: seq<Dirent>, bits: seq<int>, bs: seq<int>, es: seq<int>, ks: seq<int>, end: int, k: int)
    requires Stacked(s, bits, bs, es, ks, end) && 0 <= k < |bs|
    ensures end <= bs[k]
    decreases |bs| - k
  {
    if k < |bs| - 1 {
      RightOf(s, bits, bs, es, ks, end, k + 1);
      assert Frame(s, bits, bs, es, ks, k + 1);
    }
  }

  // Pushing the right half.
  lemma Push(s: seq<Dirent>, bits: seq<int>, bs: seq<int>, es: seq<int>, ks: seq<int>, a: int, end: int, bit: int)
    requires Stacked(s, bits, bs, es, ks, end) && 0 <= a <= end <= |s| && 1 <= bit && |bs| + bit < |bits| && bits[bit] >= 1
    requires Cut(s, a) && Same(s, a, end, bits[bit])
    ensures Stacked(s, bits, bs + [a], es + [end], ks + [bit], a)
  {
    forall k | 0 <= k < |bs + [a]|
      ensures Frame(s, bits, bs + [a], es + [end], ks + [bit], k)
    {
      if k < |bs| {
        assert Frame(s, bits, bs, es, ks, k);
      }
    }
  }

  // One split, seen from the array: either the segment is done or both halves go on with the
  // next lower listed bit.
  lemma SplitStep(s: seq<Dirent>, s': seq<Dirent>, bits: seq<int>, scoreBits: nat, inodeBits: nat, base: int, a: int, end: int, bit: int)
    requires bits == [0] + Selected(scoreBits, inodeBits, KEY_BITS) && AllInRange(s) && AllInRange(s')
    requires Open(s, bits, base, end, bit) && AgreedBut(s, Selected(scoreBits, inodeBits, KEY_BITS))
    requires base <= a <= end && Shuffled(s, s', base, end) && Split(s', base, a, end, bits[bit] - 1)
    ensures AgreedBut(s', Selected(scoreBits, inodeBits, KEY_BITS)) && Cut(s', a) && Cut(s', end)
    ensures bit > 1 ==> Open(s', bits, base, a, bit - 1) && Same(s', a, end, bits[bit - 1])
    ensures bit == 1 ==> Coarse(s', end)
  {
    hide Shuffled, Split, Same, Cut, Coarse, Bit, Shift, Selected, AgreedBut;
    AgreedKept(s, s', base, end, Selected(scoreBits, inodeBits, KEY_BITS));
    CutKept(s, s', base, end, base);
    CutKept(s, s', base, end, end);
    CoarseKept(s, s', base, end, base);
    assert 0 <= base <= end <= |s'| by { LengthKept(s, s', base, end); }
    SameKept(s, s', base, end, base, end, bits[bit]);
    SplitCuts(s', base, a, end, bits[bit] - 1);
    GapAgreed(s', bits, scoreBits, inodeBits, bit);
    SameDown(s', base, a, bits[bit] - 1, bits[bit - 1]);
    SameDown(s', a, end, bits[bit] - 1, bits[bit - 1]);
    if bit == 1 {
      CoarseSplit(s', base, a, end);
    } else {
      GapAgreed(s', bits, scoreBits, inodeBits, bit - 1);
    }
  }

  lemma LengthKept(s: seq<Dirent>, s': seq<Dirent>, lo: int, hi: int)
    requires Shuffled(s, s', lo, hi)
    ensures |s| == |s'|
  {
  }

  // Bound on the segments still to come from one open at bit index b.
  function Work(b: nat): nat {
    if b == 0 then 1 else 1 + 2 * Work(b - 1)
  }

  ghost function StackWork(ks: seq<int>): nat {
    if ks == [] then 0 else StackWork(ks[..|ks| - 1]) + Work(if ks[|ks| - 1] < 0 then 0 else ks[|ks| - 1])
  }

  lemma StackWorkPush(ks: seq<int>, b: nat)
    ensures StackWork(ks + [b]) == StackWork(ks) + Work(b)
  {
    assert (ks + [b])[..|ks|] == ks;
  }

  lemma OpenFacts(s: seq<Dirent>, bits: seq<int>, base: int, end: int, bit: int)
    requires Open(s, bits, base, end, bit)
    ensures 0 <= base <= end <= |s| && AllInRange(s) && 1 <= bit < |bits| && bits[bit] >= 1
    ensures Cut(s, base) && Cut(s, end) && Coarse(s, base)
  {
  }

  class Stack {
    const base: array<int>
    const end: array<int>
    const bit: array<int>

    constructor ()
      ensures base.Length == end.Length == bit.Length == SLOTS && base != end && base != bit && end != bit
      ensures fresh(base) && fresh(end) && fresh(bit)
    {
      base, end, bit := new int[SLOTS], new int[SLOTS], new int[SLOTS];
    }

    ghost predicate Shape() {
      base.Length == end.Length == bit.Length == SLOTS && base != end && base != bit && end != bit
    }

    ghost predicate Holds(s: seq<Dirent>, bits: seq<int>, n: int, hi: int)
      reads base, end, bit
    {
      Shape() && 0 <= n <= SLOTS && Stacked(s, bits, base[..n], end[..n], bit[..n], hi)
    }

    method Set(i: int, b: int, e: int, k: int)
      requires Shape() && 0 <= i < SLOTS
      modifies base, end, bit
      ensures base[..i + 1] == old(base[..i]) + [b] && end[..i + 1] == old(end[..i]) + [e] && bit[..i + 1] == old(bit[..i]) + [k]
    {
      base[i], end[i], bit[i] := b, e, k;
    }
  }

  // The inner loop: halves the segment until it is short or its bits are used up, leaving the
  // right halves on the stack.
  method SplitLeft(d: array<Dirent>, bits: array<int>, stk: Stack, base: int, end0: int, bit0: nat, n0: int,
                   ghost nb: int, ghost scoreBits: nat, ghost inodeBits: nat) returns (end: int, n: int)
    requires bits.Length == SLOTS && 0 <= nb < SLOTS && bits[..nb + 1] == [0] + Selected(scoreBits, inodeBits, KEY_BITS)
    requires stk.Holds(d[..], bits[..nb + 1], n0, end0) && Open(d[..], bits[..nb + 1], base, end0, bit0) && n0 + bit0 <= nb
    requires AgreedBut(d[..], Selected(scoreBits, inodeBits, KEY_BITS))
    requires bits != stk.base && bits != stk.end && bits != stk.bit
    modifies d, stk.base, stk.end, stk.bit
    ensures multiset(d[..]) == multiset(old(d[..])) && base <= end <= d.Length && AllInRange(d[..])
    ensures stk.Holds(d[..], bits[..nb + 1], n, end) && AgreedBut(d[..], Selected(scoreBits, inodeBits, KEY_BITS))
    ensures Cut(d[..], end) && Coarse(d[..], end)
    ensures StackWork(stk.bit[..n]) < StackWork(old(stk.bit[..n0])) + Work(bit0)
  {
    hide Open, Stacked, AgreedBut, Selected, Coarse, Cut, StackWork, Shuffled, Split;
    end, n := end0, n0;
    var bit := bit0;
    ghost var list := bits[..nb + 1];
    OpenFacts(d[..], list, base, end, bit);
    while true
      invariant 1 <= bit && bits[..nb + 1] == list && stk.Holds(d[..], list, n, end) && Open(d[..], list, base, end, bit) && n + bit <= nb
      invariant AllInRange(d[..]) && AgreedBut(d[..], Selected(scoreBits, inodeBits, KEY_BITS)) && multiset(d[..]) == multiset(old(d[..]))
      invariant StackWork(stk.bit[..n]) + Work(bit) <= StackWork(old(stk.bit[..n0])) + Work(bit0)
      decreases bit
    {
      ghost var s := d[..];
      OpenFacts(s, list, base, end, bit);
      assert bits[bit] == list[bit] && bits[bit - 1] == list[bit - 1];
      if end - base < CUTOFF {
        CoarseShort(s, base, end);
        break;
      }
      var a := Partition(d, base, end, bits[bit] - 1);
      ShuffledAll(s, d[..], base, end);
      StackedKept(s, d[..], list, stk.base[..n], stk.end[..n], stk.bit[..n], base, end);
      SplitStep(s, d[..], list, scoreBits, inodeBits, base, a, end, bit);
      bit := bit - 1;
      if bits[bit] == 0 {
        if bit > 0 {
          OpenFacts(d[..], list, base, a, bit);
          assert false; // bit index 0 is the only zero entry
        }
        break;
      }
      OpenFacts(d[..], list, base, a, bit);
      Push(d[..], list, stk.base[..n], stk.end[..n], stk.bit[..n], a, end, bit);
      StackWorkPush(stk.bit[..n], bit);
      stk.Set(n, a, end, bit);
      n := n + 1;
      end := a;
    }
  }

  // Taking the top segment off the stack.
  lemma Pop(s: seq<Dirent>, bits: seq<int>, bs: seq<int>, es: seq<int>, ks: seq<int>, end: int)
    requires Stacked(s, bits, bs, es, ks, end) && |bs| > 0 && 0 <= end <= |s| && Coarse(s, end)
    ensures var n := |bs| - 1; Stacked(s, bits, bs[..n], es[..n], ks[..n], es[n]) && Open(s, bits, bs[n], es[n], ks[n]) && n + ks[n] < |bits|
    ensures bs[|bs| - 1] == end
  {
    var n := |bs| - 1;
    assert Frame(s, bits, bs, es, ks, n);
    forall k | 0 <= k < n
      ensures Frame(s, bits, bs[..n], es[..n], ks[..n], k)
    {
      assert Frame(s, bits, bs, es, ks, k);
    }
    if n > 0 {
      assert Frame(s, bits, bs, es, ks, n - 1);
    }
  }

  // The whole array as the first segment.
  lemma Start(s: seq<Dirent>, bits: seq<int>, scoreBits: nat, inodeBits: nat)
    requires AllInRange(s) && bits == [0] + Selected(scoreBits, inodeBits, KEY_BITS) && |bits| >= 2
    requires AgreedBut(s, Selected(scoreBits, inodeBits, KEY_BITS))
    ensures Stacked(s, bits, [0], [|s|], [|bits| - 1], 0) && Coarse(s, 0)
  {
    GapAgreed(s, bits, scoreBits, inodeBits, |bits|);
    GapAgreed(s, bits, scoreBits, inodeBits, |bits| - 1);
    assert Same(s, 0, |s|, KEY_BITS) by {
      forall i | 0 <= i < |s| ensures Shift(Key(s[i]), KEY_BITS) == 0 {
        KeyShift(s[i]);
      }
    }
    SameDown(s, 0, |s|, KEY_BITS, bits[|bits| - 1]);
    assert Frame(s, bits, [0], [|s|], [|bits| - 1], 0);
  }

  // A mask with a bit among the first n selects something.
  lemma {:induction false} SomeSelected(scoreBits: nat, inodeBits: nat, n: nat, q: nat)
    requires q < n && Listed(scoreBits, inodeBits, q)
    ensures |Selected(scoreBits, inodeBits, n)| > 0
  {
    SelectedExactly(scoreBits, inodeBits, n);
    assert q + 1 in Selected(scoreBits, inodeBits, n);
  }

  /** eio_dent_radix_sort: afterwards entries CUTOFF or more apart are in order. The stack
      arrays are never indexed outside their SLOTS entries. */
  method RadixSort(d: array<Dirent>, scoreBits: nat, inodeBits: nat)
    requires AllInRange(d[..]) && (d.Length > FAST ==> Covered(d[..], scoreBits, inodeBits))
    requires d.Length > FAST ==> exists q: nat :: q < KEY_BITS && Listed(scoreBits, inodeBits, q)
    modifies d
    ensures multiset(d[..]) == multiset(old(d[..])) && AllInRange(d[..])
    ensures d.Length > FAST ==> Coarse(d[..], d.Length)
    ensures d.Length <= FAST ==> d[..] == old(d[..])
  {
    if d.Length <= FAST {
      return;
    }
    hide Open, Stacked, AgreedBut, Selected, Coarse, Cut, StackWork, Covered, Listed, AllInRange;
    var bits := new int[SLOTS];
    var nb := ListBits(bits, scoreBits, inodeBits);
    ghost var q: nat :| q < KEY_BITS && Listed(scoreBits, inodeBits, q);
    SomeSelected(scoreBits, inodeBits, KEY_BITS, q);
    CoveredAgrees(d[..], scoreBits, inodeBits);
    Start(d[..], bits[..nb + 1], scoreBits, inodeBits);
    var stk := new Stack();
    stk.Set(0, 0, d.Length, nb);
    assert stk.base[..1] == [0] && stk.end[..1] == [d.Length] && stk.bit[..1] == [nb];
    SplitAll(d, bits, stk, nb, scoreBits, inodeBits);
  }

  // The outer loop: pops segments until the stack is empty.
  method SplitAll(d: array<Dirent>, bits: array<int>, stk: Stack, ghost nb: int, ghost scoreBits: nat, ghost inodeBits: nat)
    requires bits.Length == SLOTS && 0 <= nb < SLOTS && bits[..nb + 1] == [0] + Selected(scoreBits, inodeBits, KEY_BITS)
    requires stk.Holds(d[..], bits[..nb + 1], 1, 0) && Coarse(d[..], 0)
    requires AllInRange(d[..]) && AgreedBut(d[..], Selected(scoreBits, inodeBits, KEY_BITS))
    requires bits != stk.base && bits != stk.end && bits != stk.bit
    modifies d, stk.base, stk.end, stk.bit
    ensures multiset(d[..]) == multiset(old(d[..])) && AllInRange(d[..]) && Coarse(d[..], d.Length)
  {
    hide Open, Stacked, AgreedBut, Selected, Coarse, Cut, StackWork, AllInRange;
    var n := 1;
    ghost var list, done := bits[..nb + 1], 0;
    while n > 0
      invariant 0 <= n <= SLOTS && bits[..nb + 1] == list && stk.Holds(d[..], list, n, done)
      invariant AllInRange(d[..]) && AgreedBut(d[..], Selected(scoreBits, inodeBits, KEY_BITS)) && multiset(d[..]) == multiset(old(d[..]))
      invariant 0 <= done <= d.Length && Coarse(d[..], done)
      decreases StackWork(stk.bit[..n])
    {
      Pop(d[..], list, stk.base[..n], stk.end[..n], stk.bit[..n], done);
      Tops(stk.base, stk.end, stk.bit, n);
      n := n - 1;
      var base, end, bit := stk.base[n], stk.end[n], stk.bit[n];
      OpenFacts(d[..], list, base, end, bit);
      StackWorkPush(stk.bit[..n], bit);
      end, n := SplitLeft(d, bits, stk, base, end, bit, n, nb, scoreBits, inodeBits);
      done := end;
    }
    AllDone(d[..], list, stk.base[..n], stk.end[..n], stk.bit[..n], done);
  }

  lemma Tops(b: array<int>, e: array<int>, k: array<int>, n: int)
    requires 1 <= n <= b.Length && n <= e.Length && n <= k.Length
    ensures b[..n][..n - 1] == b[..n - 1] && b[..n][n - 1] == b[n - 1]
    ensures e[..n][..n - 1] == e[..n - 1] && e[..n][n - 1] == e[n - 1]
    ensures k[..n][..n - 1] == k[..n - 1] && k[..n][n - 1] == k[n - 1] && k[..n] == k[..n - 1] + [k[n - 1]]
  {
  }

  lemma AllDone(s: seq<Dirent>, bits: seq<int>, bs: seq<int>, es: seq<int>, ks: seq<int>, end: int)
    requires Stacked(s, bits, bs, es, ks, end) && |bs| == 0
    ensures end == |s|
  {
  }

  // ---- insertion sort ----

  ghost predicate SortedUpTo(s: seq<Dirent>, n: int)
    requires n <= |s|
  {
    forall i, j :: 0 <= i < j < n ==> Key(s[i]) <= Key(s[j])
  }

  // Entry m bounds every entry of s.
  ghost predicate Least(s: seq<Dirent>, m: int)
    requires 0 <= m < |s|
  {
    forall j :: 0 <= j < |s| ==> Key(s[m]) <= Key(s[j])
  }

  /** In a coarsely ordered array the least of the first CUTOFF + 1 entries is the least of all. */
  lemma {:induction false} CoarseLeast(s: seq<Dirent>, m: int, j: int)
    requires 0 <= m < |s| && 0 <= j < |s| && Coarse(s, |s|)
    requires forall i :: 0 <= i < |s| && i <= CUTOFF ==> Key(s[m]) <= Key(s[i])
    ensures Key(s[m]) <= Key(s[j])
  {
    if j > CUTOFF {
      CoarseLeast(s, m, j - CUTOFF);
    }
  }

  /** A smallest entry, looking only at the first CUTOFF + 1 of a large array. */
  method FindMin(d: array<Dirent>) returns (min: int)
    requires d.Length >= 1 && AllInRange(d[..]) && (d.Length > FAST ==> Coarse(d[..], d.Length))
    ensures 0 <= min < d.Length && Least(d[..], min)
  {
    hide Coarse, Key;
    var size := if d.Length > FAST then CUTOFF + 1 else d.Length;
    var i := size - 1;
    min := 0;
    while i > 0
      invariant 0 <= i <= size - 1 && 0 <= min < size
      invariant forall k :: i < k < size ==> Key(d[min]) <= Key(d[k])
      invariant Key(d[min]) <= Key(d[0])
    {
      assert InRange(d[..][i]) && InRange(d[..][min]);
      CmpIsKeyOrder(d[i], d[min]);
      if Cmp(d[i], d[min]) < 0 {
        min := i;
      }
      i := i - 1;
    }
    forall j | 0 <= j < d.Length ensures Key(d[..][min]) <= Key(d[..][j]) {
      if d.Length > FAST {
        CoarseLeast(d[..], min, j);
      }
    }
  }

  lemma SwapFront(s: seq<Dirent>, min: int)
    requires 0 <= min < |s| && AllInRange(s) && Least(s, min)
    ensures var s' := s[0 := s[min]][min := s[0]]; multiset(s') == multiset(s) && AllInRange(s') && Least(s', 0)
  {
    hide Key;
  }

  /** Brings a smallest entry to the front. */
  method MinToFront(d: array<Dirent>)
    requires d.Length >= 1 && AllInRange(d[..]) && (d.Length > FAST ==> Coarse(d[..], d.Length))
    modifies d
    ensures multiset(d[..]) == multiset(old(d[..])) && AllInRange(d[..]) && Least(d[..], 0)
  {
    hide Coarse, Key, Least, AllInRange;
    var min := FindMin(d);
    SwapFront(d[..], min);
    d[0], d[min] := d[min], d[0];
    assert d[..] == old(d[..][0 := d[min]][min := d[0]]);
  }

  // s with entry i moved down to position j + 1.
  ghost function MovedDown(s: seq<Dirent>, j: int, i: int): seq<Dirent>
    requires 0 <= j + 1 <= i < |s|
  {
    s[..j + 1] + [s[i]] + s[j + 1..i] + s[i + 1..]
  }

  lemma MovedAt(s: seq<Dirent>, j: int, i: int, k: int)
    requires 0 <= j + 1 <= i < |s| && 0 <= k < |s|
    ensures |MovedDown(s, j, i)| == |s|
    ensures MovedDown(s, j, i)[k] == if k <= j || i < k then s[k] else if k == j + 1 then s[i] else s[k - 1]
  {
  }

  lemma MovedSame(s: seq<Dirent>, j: int, i: int)
    requires 0 <= j + 1 <= i < |s|
    ensures multiset(MovedDown(s, j, i)) == multiset(s)
  {
    assert s == s[..j + 1] + s[j + 1..i] + [s[i]] + s[i + 1..];
  }

  lemma MovedSorted(s: seq<Dirent>, j: int, i: int)
    requires 0 <= j < i < |s| && SortedUpTo(s, i)
    requires Key(s[j]) <= Key(s[i]) && forall k :: j < k < i ==> Key(s[i]) < Key(s[k])
    ensures |MovedDown(s, j, i)| == |s| && SortedUpTo(MovedDown(s, j, i), i + 1) && MovedDown(s, j, i)[0] == s[0]
  {
    hide Key, MovedDown;
    MovedAt(s, j, i, 0);
    forall k, l | 0 <= k < l < i + 1
      ensures Key(MovedDown(s, j, i)[k]) <= Key(MovedDown(s, j, i)[l])
    {
      MovedAt(s, j, i, k);
      MovedAt(s, j, i, l);
    }
  }

  // s while entry i is in hand: the entries from j + 1 to i - 1 have moved up by one.
  ghost function Shifted(s: seq<Dirent>, j: int, i: int): seq<Dirent>
    requires 0 <= j + 1 <= i < |s|
  {
    s[..j + 2] + s[j + 1..i] + s[i + 1..]
  }

  lemma ShiftStep(s: seq<Dirent>, j: int, i: int)
    requires 0 <= j < i < |s|
    ensures |Shifted(s, j, i)| == |s| && Shifted(s, j, i)[j] == s[j]
    ensures Shifted(s, j, i)[j + 1 := s[j]] == Shifted(s, j - 1, i)
    ensures Shifted(s, j, i)[j + 1 := s[i]] == MovedDown(s, j, i)
  {
  }

  // The inner loop: moves greater entries up; nothing but the least entry in front stops it.
  method ShiftUp(d: array<Dirent>, i: int) returns (j: int)
    requires 1 <= i < d.Length && AllInRange(d[..]) && Least(d[..], 0)
    modifies d
    ensures 0 <= j < i && d[..] == Shifted(old(d[..]), j, i)
    ensures Key(old(d[..])[j]) <= Key(old(d[i])) && forall k :: j < k < i ==> Key(old(d[i])) < Key(old(d[..])[k])
  {
    hide Key, Shifted, MovedDown;
    var value := d[i];
    j := i - 1;
    ghost var s := d[..];
    assert Key(s[0]) <= Key(s[i]);
    assert s == Shifted(s, i - 1, i) by { ShiftNone(s, i); }
    ShiftStep(s, j, i);
    CmpIsKeyOrder(s[j], s[i]);
    while Cmp(d[j], value) > 0
      invariant 0 <= j < i && d[..] == Shifted(s, j, i) && d[..][j] == s[j]
      invariant Cmp(s[j], s[i]) > 0 <==> Key(s[j]) > Key(s[i])
      invariant forall k :: j < k < i ==> Key(s[i]) < Key(s[k])
      decreases j
    {
      ShiftStep(s, j, i);
      d[j + 1] := d[j];
      assert d[..] == Shifted(s, j, i)[j + 1 := s[j]];
      j := j - 1;
      ShiftStep(s, j, i);
      CmpIsKeyOrder(s[j], s[i]);
    }
  }

  lemma ShiftNone(s: seq<Dirent>, i: int)
    requires 1 <= i < |s|
    ensures Shifted(s, i - 1, i) == s
  {
  }

  /** Moves entry i down to its place. */
  method InsertOne(d: array<Dirent>, i: int)
    requires 1 <= i < d.Length && AllInRange(d[..]) && SortedUpTo(d[..], i) && Least(d[..], 0)
    modifies d
    ensures multiset(d[..]) == multiset(old(d[..])) && SortedUpTo(d[..], i + 1) && d[0] == old(d[0])
  {
    hide Key, SortedUpTo, MovedDown, Shifted, AllInRange, Least;
    ghost var s := d[..];
    var value := d[i];
    var j := ShiftUp(d, i);
    ShiftStep(s, j, i);
    d[j + 1] := value;
    assert d[..] == Shifted(s, j, i)[j + 1 := s[i]];
    MovedSame(s, j, i);
    MovedSorted(s, j, i);
    assert d[..][0] == s[0];
  }

  /** eio_dent_insertion_sort */
  method InsertionSort(d: array<Dirent>)
    requires d.Length >= 1 && AllInRange(d[..]) && (d.Length > FAST ==> Coarse(d[..], d.Length))
    modifies d
    ensures multiset(d[..]) == multiset(old(d[..])) && AllInRange(d[..]) && SortedUpTo(d[..], d.Length)
  {
    hide Key, Coarse;
    MinToFront(d);
    var i := 1;
    while i < d.Length
      invariant 1 <= i <= d.Length && AllInRange(d[..]) && SortedUpTo(d[..], i) && Least(d[..], 0)
      invariant multiset(d[..]) == multiset(old(d[..]))
    {
      ghost var s := d[..];
      InsertOne(d, i);
      SamePopulation(s, d[..]);
      i := i + 1;
    }
  }

  lemma SamePopulation(s: seq<Dirent>, s': seq<Dirent>)
    requires multiset(s) == multiset(s') && |s| == |s'| > 0 && s[0] == s'[0] && AllInRange(s) && Least(s, 0)
    ensures AllInRange(s') && Least(s', 0)
  {
    forall j | 0 <= j < |s'| ensures s'[j] in s {
      assert s'[j] in multiset(s');
    }
  }

  ghost predicate SortedEntries(s: seq<Dirent>) {
    forall i, j :: 0 <= i < j < |s| ==> Cmp(s[i], s[j]) <= 0
  }

  /** eio_dent_sort: a permutation in order of score, then inode. */
  method Sort(d: array<Dirent>, scoreBits: nat, inodeBits: nat)
    requires AllInRange(d[..]) && (d.Length > FAST ==> Covered(d[..], scoreBits, inodeBits))
    requires d.Length > FAST ==> exists q: nat :: q < KEY_BITS && Listed(scoreBits, inodeBits, q)
    modifies d
    ensures multiset(d[..]) == multiset(old(d[..])) && SortedEntries(d[..])
  {
    hide Key, Coarse, Covered, Listed;
    if d.Length <= 1 {
      return;
    }
    RadixSort(d, scoreBits, inodeBits);
    InsertionSort(d);
    forall i, j | 0 <= i < j < d.Length ensures Cmp(d[..][i], d[..][j]) <= 0 {
      CmpIsKeyOrder(d[..][i], d[..][j]);
    }
  }
}

/** Directory entries, their order, and what a radix pass over selected key bits achieves. */
module EioOrder {
  import opened Log2

  const CUTOFF := 30
  const FAST := 60
  const INODE_RANGE := 0x1_0000_0000_0000_0000

  /** eio_dirent; the fields the sort does not look at are kept as one payload. */
  datatype Dirent = Dirent(score: int, inode: int, payload: int)

  // The values the field types hold; scores are never negative.
  predicate InRange(x: Dirent) {
    0 <= x.score < 128 && 0 <= x.inode < INODE_RANGE
  }

  ghost predicate AllInRange(s: seq<Dirent>) {
    forall i :: 0 <= i < |s| ==> InRange(s[i])
  }

  /** eio_dent_cmp */
  function Cmp(a: Dirent, b: Dirent): int {
    if a.score - b.score != 0 then a.score - b.score
    else if a.inode < b.inode then -1
    else if a.inode > b.inode then 1
    else 0
  }

  // Score and inode as one number.
  function Key(x: Dirent): int {
    x.score * INODE_RANGE + x.inode
  }

  lemma CmpIsKeyOrder(a: Dirent, b: Dirent)
    requires InRange(a) && InRange(b)
    ensures Cmp(a, b) < 0 <==> Key(a) < Key(b)
    ensures Cmp(a, b) > 0 <==> Key(a) > Key(b)
    ensures -128 <= Cmp(a, b) <= 127
  {
  }

  predicate Bit(v: nat, q: nat) {
    Shift(v, q) % 2 == 1
  }

  lemma ShiftStep(v: nat, q: nat)
    ensures Shift(v, q) == 2 * Shift(v, q + 1) + (if Bit(v, q) then 1 else 0)
  {
  }

  lemma {:induction false} ShiftMonotone(v: nat, w: nat, q: nat)
    requires Shift(v, q) < Shift(w, q)
    ensures v < w
  {
    if q > 0 {
      ShiftMonotone(v, w, q - 1);
    }
  }

  // Equal above hi and equal in every bit from lo up to hi: equal above lo.
  lemma {:induction false} AgreeDown(v: nat, w: nat, hi: nat, lo: nat)
    requires lo <= hi && Shift(v, hi) == Shift(w, hi)
    requires forall q: nat :: lo <= q < hi ==> Bit(v, q) == Bit(w, q)
    ensures Shift(v, lo) == Shift(w, lo)
    decreases hi - lo
  {
    if lo < hi {
      ShiftStep(v, hi - 1);
      ShiftStep(w, hi - 1);
      AgreeDown(v, w, hi - 1, lo);
    }
  }

  // ---- positions in a sequence of entries ----

  ghost predicate Same(s: seq<Dirent>, lo: int, hi: int, q: nat)
    requires 0 <= lo <= hi <= |s| && AllInRange(s)
  {
    forall i, j :: lo <= i < hi && lo <= j < hi ==> Shift(Key(s[i]), q) == Shift(Key(s[j]), q)
  }

  // Nothing before b is above anything from b on.
  ghost predicate Cut(s: seq<Dirent>, b: int) {
    forall i, j :: 0 <= i < b <= j < |s| ==> Key(s[i]) <= Key(s[j])
  }

  /** Entries CUTOFF or more apart are in order. */
  ghost predicate Coarse(s: seq<Dirent>, hi: int)
    requires hi <= |s|
  {
    forall i, j :: 0 <= i && i + CUTOFF <= j < hi ==> Key(s[i]) <= Key(s[j])
  }

  // s' is s with the entries from lo to hi permuted.
  ghost predicate Shuffled(s: seq<Dirent>, s': seq<Dirent>, lo: int, hi: int) {
    && 0 <= lo <= hi <= |s| == |s'| && s'[..lo] == s[..lo] && s'[hi..] == s[hi..]
    && multiset(s'[lo..hi]) == multiset(s[lo..hi])
  }

  lemma ShuffledSelf(s: seq<Dirent>, lo: int, hi: int)
    requires 0 <= lo <= hi <= |s|
    ensures Shuffled(s, s, lo, hi)
  {
  }

  // Every entry of the permuted part comes from it.
  lemma From(s: seq<Dirent>, s': seq<Dirent>, lo: int, hi: int, i: int) returns (k: int)
    requires Shuffled(s, s', lo, hi) && 0 <= i < |s|
    ensures 0 <= k < |s| && s'[i] == s[k] && (lo <= i < hi <==> lo <= k < hi) && (i < lo ==> k == i) && (i >= hi ==> k == i)
  {
    if lo <= i < hi {
      assert s'[lo..hi][i - lo] in multiset(s'[lo..hi]);
      assert s'[i] in s[lo..hi];
      k :| lo <= k < hi && s[k] == s'[i];
    } else {
      k := i;
      if i < lo {
        assert s'[..lo][i] == s[..lo][i];
      } else {
        assert s'[hi..][i - hi] == s[hi..][i - hi];
      }
    }
  }

  lemma ShuffledAll(s: seq<Dirent>, s': seq<Dirent>, lo: int, hi: int)
    requires Shuffled(s, s', lo, hi)
    ensures multiset(s') == multiset(s) && (AllInRange(s) ==> AllInRange(s'))
  {
    assert s == s[..lo] + s[lo..hi] + s[hi..] && s' == s'[..lo] + s'[lo..hi] + s'[hi..];
    forall i | AllInRange(s) && 0 <= i < |s'| ensures InRange(s'[i]) {
      var k := From(s, s', lo, hi, i);
    }
  }

  lemma CutKept(s: seq<Dirent>, s': seq<Dirent>, lo: int, hi: int, b: int)
    requires Shuffled(s, s', lo, hi) && Cut(s, b) && (b <= lo || hi <= b)
    ensures Cut(s', b)
  {
    forall i, j | 0 <= i < b <= j < |s'| ensures Key(s'[i]) <= Key(s'[j]) {
      var k := From(s, s', lo, hi, i);
      var l := From(s, s', lo, hi, j);
    }
  }

  lemma SameKept(s: seq<Dirent>, s': seq<Dirent>, lo: int, hi: int, a: int, b: int, q: nat)
    requires Shuffled(s, s', lo, hi) && AllInRange(s) && AllInRange(s') && 0 <= a <= b <= |s| && Same(s, a, b, q)
    requires (a <= lo && hi <= b) || b <= lo || hi <= a
    ensures Same(s', a, b, q)
  {
    forall i, j | a <= i < b && a <= j < b ensures Shift(Key(s'[i]), q) == Shift(Key(s'[j]), q) {
      var k := From(s, s', lo, hi, i);
      var l := From(s, s', lo, hi, j);
    }
  }

  lemma CoarseKept(s: seq<Dirent>, s': seq<Dirent>, lo: int, hi: int, b: int)
    requires Shuffled(s, s', lo, hi) && b <= lo && Coarse(s, b)
    ensures Coarse(s', b)
  {
    assert forall i :: 0 <= i < b ==> s'[i] == s'[..lo][i] && s[i] == s[..lo][i];
  }

  // ---- a partitioned segment ----

  ghost predicate Split(s: seq<Dirent>, lo: int, a: int, hi: int, q: nat)
    requires 0 <= lo <= a <= hi <= |s| && AllInRange(s)
  {
    (forall i :: lo <= i < a ==> !Bit(Key(s[i]), q)) && (forall i :: a <= i < hi ==> Bit(Key(s[i]), q))
  }

  // Splitting a segment on its highest open bit cuts the whole array there.
  lemma SplitCuts(s: seq<Dirent>, lo: int, a: int, hi: int, q: nat)
    requires 0 <= lo <= a <= hi <= |s| && AllInRange(s) && Cut(s, lo) && Cut(s, hi)
    requires Same(s, lo, hi, q + 1) && Split(s, lo, a, hi, q)
    ensures Cut(s, a) && Same(s, lo, a, q) && Same(s, a, hi, q)
  {
    forall i, j | lo <= i < hi && lo <= j < hi
      ensures Shift(Key(s[i]), q + 1) == Shift(Key(s[j]), q + 1) && (i < a <= j ==> Key(s[i]) < Key(s[j]))
      ensures (i < a <==> j < a) ==> Shift(Key(s[i]), q) == Shift(Key(s[j]), q)
    {
      ShiftStep(Key(s[i]), q);
      ShiftStep(Key(s[j]), q);
      if i < a <= j {
        ShiftMonotone(Key(s[i]), Key(s[j]), q);
      }
    }
  }
}

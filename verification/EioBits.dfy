/** Which key bits the radix pass looks at, and why the others do not matter. */
module EioBits {
  import opened Log2
  import opened EioOrder

  const KEY_BITS := 72

  predicate Listed(scoreBits: nat, inodeBits: nat, q: nat) {
    if q < 64 then Bit(inodeBits, q) else q < KEY_BITS && Bit(scoreBits, q - 64)
  }

  // The listed bits below n, lowest first, each as its position plus one (zero marks the end).
  function Selected(scoreBits: nat, inodeBits: nat, n: nat): seq<int> {
    if n == 0 then []
    else Selected(scoreBits, inodeBits, n - 1) + (if Listed(scoreBits, inodeBits, n - 1) then [n] else [])
  }

  lemma {:induction false} SelectedExactly(scoreBits: nat, inodeBits: nat, n: nat)
    ensures var s := Selected(scoreBits, inodeBits, n);
      && |s| <= n
      && (forall k :: 0 <= k < |s| ==> 1 <= s[k] <= n)
      && (forall k, l :: 0 <= k < l < |s| ==> s[k] < s[l])
      && (forall q: nat :: q < n ==> (q + 1 in s <==> Listed(scoreBits, inodeBits, q)))
  {
    if n > 0 {
      SelectedExactly(scoreBits, inodeBits, n - 1);
    }
  }

  /** inode_bits holds all inodes ORed together; scores differ only in bits of score_bits. */
  ghost predicate Covered(s: seq<Dirent>, scoreBits: nat, inodeBits: nat)
    requires AllInRange(s)
  {
    && (forall i, q: nat :: 0 <= i < |s| && q < 64 && Bit(s[i].inode, q) ==> Bit(inodeBits, q))
    && (forall i, j, q: nat :: 0 <= i < |s| && 0 <= j < |s| && q < 8 && Bit(s[i].score, q) != Bit(s[j].score, q) ==> Bit(scoreBits, q))
  }

  // All keys have the same bit q.
  ghost predicate Agreed(s: seq<Dirent>, q: nat)
    requires AllInRange(s)
  {
    forall i, j :: 0 <= i < |s| && 0 <= j < |s| ==> Bit(Key(s[i]), q) == Bit(Key(s[j]), q)
  }

  ghost predicate AgreedBut(s: seq<Dirent>, sel: seq<int>)
    requires AllInRange(s)
  {
    forall q: nat :: q < KEY_BITS && q + 1 !in sel ==> Agreed(s, q)
  }

  // ---- the bits of the combined key ----

  lemma {:induction false} ShiftBound(v: nat, q: nat, k: nat)
    requires v < Pow2(q + k)
    ensures Shift(v, q) < Pow2(k)
  {
    if q > 0 {
      ShiftBound(v, q - 1, k + 1);
    }
  }

  lemma {:induction false} ShiftOfSum(hi: nat, p: nat, lo: nat, q: nat)
    requires q <= p
    ensures Shift(hi * Pow2(p) + lo, q) == hi * Pow2(p - q) + Shift(lo, q)
  {
    if q > 0 {
      ShiftOfSum(hi, p, lo, q - 1);
      assert hi * Pow2(p - (q - 1)) == 2 * (hi * Pow2(p - q)) by {
        assert Pow2(p - (q - 1)) == 2 * Pow2(p - q);
        Double(hi, Pow2(p - q));
      }
    }
  }

  lemma Double(h: nat, p: nat)
    ensures h * (2 * p) == 2 * (h * p)
  {
  }

  lemma Word64()
    ensures Pow2(64) == INODE_RANGE && Pow2(8) == 256
  {
    assert Pow2(4) == 16;
    hide Pow2;
    Pow2Sum(4, 4);
    Pow2Sum(8, 8);
    Pow2Sum(16, 16);
    Pow2Sum(32, 32);
  }

  lemma {:induction false} Pow2Sum(a: nat, b: nat)
    ensures Pow2(a + b) == Pow2(a) * Pow2(b)
  {
    if b > 0 {
      Pow2Sum(a, b - 1);
      Double(Pow2(a), Pow2(b - 1));
    }
  }

  lemma KeyShift(x: Dirent)
    requires InRange(x)
    ensures Shift(Key(x), 64) == x.score && Shift(Key(x), KEY_BITS) == 0
  {
    Word64();
    ShiftOfSum(x.score, 64, x.inode, 64);
    ShiftBound(x.inode, 64, 0);
    ShiftMore(Key(x), 64, 8);
    ShiftBound(x.score, 8, 0);
  }

  lemma ShiftedHalf(h: nat, p: nat) returns (z: nat)
    requires p >= 1
    ensures h * Pow2(p) == 2 * z
  {
    z := h * Pow2(p - 1);
    Double(h, Pow2(p - 1));
  }

  lemma InodeBit(x: Dirent, q: nat)
    requires InRange(x) && q < 64
    ensures Bit(Key(x), q) == Bit(x.inode, q)
  {
    hide Pow2, Shift, Key;
    Word64();
    ShiftOfSum(x.score, 64, x.inode, q);
    assert Key(x) == x.score * Pow2(64) + x.inode by { KeyIs(x); }
    var z := ShiftedHalf(x.score, 64 - q);
  }

  lemma KeyIs(x: Dirent)
    ensures Key(x) == x.score * INODE_RANGE + x.inode
  {
  }

  lemma KeyBit(x: Dirent, q: nat)
    requires InRange(x) && q < KEY_BITS
    ensures Bit(Key(x), q) == if q < 64 then Bit(x.inode, q) else Bit(x.score, q - 64)
  {
    if q < 64 {
      InodeBit(x, q);
    } else {
      hide Pow2, Shift;
      KeyShift(x);
      ShiftMore(Key(x), 64, q - 64);
    }
  }

  lemma CoveredAgrees(s: seq<Dirent>, scoreBits: nat, inodeBits: nat)
    requires AllInRange(s) && Covered(s, scoreBits, inodeBits)
    ensures AgreedBut(s, Selected(scoreBits, inodeBits, KEY_BITS))
  {
    SelectedExactly(scoreBits, inodeBits, KEY_BITS);
    forall q: nat | q < KEY_BITS && q + 1 !in Selected(scoreBits, inodeBits, KEY_BITS)
      ensures Agreed(s, q)
    {
      assert !Listed(scoreBits, inodeBits, q);
      forall i, j | 0 <= i < |s| && 0 <= j < |s|
        ensures Bit(Key(s[i]), q) == Bit(Key(s[j]), q)
      {
        hide Bit, Key, Selected;
        KeyBit(s[i], q);
        KeyBit(s[j], q);
        if q >= 64 {
          var p: nat := q - 64;
          assert !Bit(scoreBits, p);
        }
      }
    }
  }
}

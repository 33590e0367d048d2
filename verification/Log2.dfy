/** Powers of two, the rounding base-2 logarithm of src/core/dfs_math.c, and DFS_MATH_ALIGNMENT. */
module Log2 {

  // Rounded up to the size of a pointer.
  function Align(x: nat): (r: nat)
    ensures x <= r < x + 8 && r % 8 == 0
  {
    if x % 8 != 0 then x + (8 - x % 8) else x
  }

  function Pow2(n: nat): (r: nat)
    ensures r >= 1
  {
    if n == 0 then 1 else 2 * Pow2(n - 1)
  }

  lemma Pow2Monotone(a: nat, b: nat)
    requires a <= b
    ensures Pow2(a) <= Pow2(b)
    decreases b - a
  {
    if a < b {
      Pow2Monotone(a, b - 1);
    }
  }

  // Largest i with Pow2(i) <= x; zero for x == 0.
  function FloorLog2(x: nat): nat {
    if x <= 1 then 0 else 1 + FloorLog2(x / 2)
  }

  ghost predicate IsPow2(x: nat) {
    exists k: nat :: x == Pow2(k)
  }

  // The C operator &, written out on naturals.
  function BitAnd(x: nat, y: nat): nat {
    if x == 0 || y == 0 then 0
    else 2 * BitAnd(x / 2, y / 2) + (if x % 2 == 1 && y % 2 == 1 then 1 else 0)
  }

  lemma {:induction false} FloorLog2Sandwich(x: nat)
    requires x >= 1
    ensures Pow2(FloorLog2(x)) <= x < Pow2(FloorLog2(x) + 1)
  {
    if x > 1 {
      FloorLog2Sandwich(x / 2);
      assert Pow2(FloorLog2(x)) == 2 * Pow2(FloorLog2(x / 2));
      assert Pow2(FloorLog2(x) + 1) == 2 * Pow2(FloorLog2(x / 2) + 1);
    }
  }

  lemma FloorLog2Greatest(x: nat, i: nat)
    requires Pow2(i) <= x
    ensures i <= FloorLog2(x)
  {
    FloorLog2Sandwich(x);
    if FloorLog2(x) < i {
      Pow2Monotone(FloorLog2(x) + 1, i);
    }
  }

  lemma {:induction false} BitAndSelf(x: nat)
    ensures BitAnd(x, x) == x
  {
    if x > 0 {
      BitAndSelf(x / 2);
    }
  }

  lemma HalfOfPow2(x: nat)
    requires x >= 2
    ensures IsPow2(x) <==> x % 2 == 0 && IsPow2(x / 2)
  {
    if IsPow2(x) {
      var k: nat :| x == Pow2(k);
      assert k > 0;
      assert x / 2 == Pow2(k - 1);
    }
    if x % 2 == 0 && IsPow2(x / 2) {
      var k: nat :| x / 2 == Pow2(k);
      assert x == Pow2(k + 1);
    }
  }

  // The bit trick of dfs_math_dfslog2: x & (x - 1) vanishes exactly on powers of two.
  lemma {:induction false} BitTrick(x: nat)
    requires x >= 1
    ensures BitAnd(x, x - 1) == 0 <==> IsPow2(x)
  {
    if x == 1 {
      assert x == Pow2(0);
    } else {
      HalfOfPow2(x);
      if x % 2 == 0 {
        BitTrick(x / 2);
        assert (x - 1) / 2 == x / 2 - 1;
      } else {
        assert (x - 1) / 2 == x / 2;
        BitAndSelf(x / 2);
      }
    }
  }

  /** dfs_math_dfslog2: the number of halvings, plus one when rounding up a non-power. */
  method DfsLog2(x: nat, up: bool) returns (i: nat)
    ensures x == 0 ==> i == 0
    ensures x >= 1 && !up ==> Pow2(i) <= x < Pow2(i + 1)
    ensures x >= 1 && up ==> x <= Pow2(i) && (i > 0 ==> Pow2(i - 1) < x)
    ensures i == (if up then CeilLog2(x) else FloorLog2(x))
  {
    i := 0;
    if up && x >= 1 && BitAnd(x, x - 1) != 0 {
      i := i + 1;
    }
    var y := x;
    ghost var bump := i;
    while y > 1
      invariant i + FloorLog2(y) == bump + FloorLog2(x)
      invariant x == 0 ==> y == 0
    {
      i := i + 1;
      y := y / 2;
    }
    Rounding(x);
  }

  // Rounding up adds one to the floor exactly off the powers of two.
  lemma Rounding(x: nat)
    ensures x >= 1 ==> Pow2(FloorLog2(x)) <= x < Pow2(FloorLog2(x) + 1)
    ensures x >= 1 ==> x <= Pow2(CeilLog2(x)) && (CeilLog2(x) > 0 ==> Pow2(CeilLog2(x) - 1) < x)
    ensures x >= 1 ==> CeilLog2(x) == FloorLog2(x) + (if BitAnd(x, x - 1) != 0 then 1 else 0)
    ensures x == 0 ==> CeilLog2(x) == 0 == FloorLog2(x)
  {
    if x >= 1 {
      FloorLog2Sandwich(x);
      CeilLog2Sandwich(x);
      BitTrick(x);
      CeilOverFloor(x, FloorLog2(x), CeilLog2(x));
    }
  }

  lemma CeilOverFloor(x: nat, f: nat, c: nat)
    requires Pow2(f) <= x < Pow2(f + 1)
    requires x <= Pow2(c) && (c > 0 ==> Pow2(c - 1) < x)
    ensures c == f + (if IsPow2(x) then 0 else 1)
  {
    if IsPow2(x) {
      var k: nat :| x == Pow2(k);
      CeilUnique(x, k, c);
      if k < f {
        Pow2Monotone(k + 1, f);
      } else if k > f {
        Pow2Monotone(f + 1, k);
      }
    } else {
      CeilUnique(x, f + 1, c);
    }
  }

  // Least i with x <= Pow2(i); zero for x == 0.
  function CeilLog2(x: nat): nat {
    if x <= 1 then 0 else 1 + CeilLog2((x + 1) / 2)
  }

  lemma {:induction false} CeilLog2Sandwich(x: nat)
    requires x >= 1
    ensures x <= Pow2(CeilLog2(x))
    ensures x >= 2 ==> CeilLog2(x) >= 1 && Pow2(CeilLog2(x) - 1) < x
  {
    if x >= 2 {
      var h := (x + 1) / 2;
      CeilLog2Sandwich(h);
      assert Pow2(CeilLog2(x)) == 2 * Pow2(CeilLog2(h));
      if h >= 2 {
        assert Pow2(CeilLog2(h)) == 2 * Pow2(CeilLog2(h) - 1);
      }
    }
  }

  lemma CeilUnique(x: nat, i: nat, j: nat)
    requires x >= 1
    requires x <= Pow2(i) && (i > 0 ==> Pow2(i - 1) < x)
    requires x <= Pow2(j) && (j > 0 ==> Pow2(j - 1) < x)
    ensures i == j
  {
    if i < j {
      Pow2Monotone(i, j - 1);
    } else if j < i {
      Pow2Monotone(j, i - 1);
    }
  }

  // ---- words ----

  const UINT32 := 0x1_0000_0000

  // v shifted right by k.
  function Shift(v: nat, k: nat): nat {
    if k == 0 then v else Shift(v, k - 1) / 2
  }

  lemma {:induction false} ShiftMore(v: nat, a: nat, b: nat)
    ensures Shift(v, a + b) == Shift(Shift(v, a), b)
  {
    if b > 0 {
      ShiftMore(v, a, b - 1);
    }
  }
}

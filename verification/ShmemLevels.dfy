/** Size classes of the shared-memory allocator (src/core/dfs_shmem.c:70-124). */
module ShmemLevels {
  import opened Log2

  datatype Level = Linear | Exp

  /** The creation-time parameters a dfs_shmem_t keeps. */
  datatype Config = Config(level: Level, minSize: nat, maxSize: nat, factor: nat, freeLen: nat)

  ghost predicate GoodConfig(c: Config) {
    c.minSize > 0 && c.freeLen >= 2 && (c.level.Linear? ==> c.factor > 0)
  }

  function CeilDiv(a: nat, b: nat): nat
    requires b > 0
  {
    a / b + (if a % b != 0 then 1 else 0)
  }

  // dfs_shmem_get_alloc_index: the class where a request starts looking.
  function AllocIndex(c: Config, size: nat): nat
    requires GoodConfig(c)
  {
    if size <= c.minSize then 0
    else if c.level.Linear? then CeilDiv(size - c.minSize, c.factor)
    else CeilLog2(CeilDiv(size, c.minSize))
  }

  // dfs_shmem_get_insert_index: the class a free block of this size belongs to.
  function InsertIndex(c: Config, size: nat): nat
    requires GoodConfig(c)
  {
    if size <= c.minSize then 0
    else if c.level.Linear? then (size - c.minSize) / c.factor
    else FloorLog2(size / c.minSize)
  }

  // The class list a free block is really put on: the last one takes everything larger.
  function Class(c: Config, size: nat): (k: nat)
    requires GoodConfig(c)
    ensures k < c.freeLen
  {
    if InsertIndex(c, size) > c.freeLen - 1 then c.freeLen - 1 else InsertIndex(c, size)
  }

  // Lower size bound of class k.
  function Bound(c: Config, k: nat): nat {
    if c.level.Linear? then c.minSize + k * c.factor else c.minSize * Pow2(k)
  }

  lemma BoundMonotone(c: Config, j: nat, k: nat)
    requires j <= k
    ensures Bound(c, j) <= Bound(c, k)
  {
    if c.level.Linear? {
      assert (k - j) * c.factor >= 0;
      assert k * c.factor == j * c.factor + (k - j) * c.factor;
    } else {
      Pow2Monotone(j, k);
      assert c.minSize * Pow2(k) == c.minSize * Pow2(j) + c.minSize * (Pow2(k) - Pow2(j));
    }
  }

  lemma DivBounds(a: nat, b: nat)
    requires b > 0
    ensures (a / b) * b <= a < (a / b + 1) * b
  {
    assert a == (a / b) * b + a % b;
  }

  lemma CeilDivBounds(a: nat, b: nat)
    requires b > 0 && a > 0
    ensures CeilDiv(a, b) >= 1
    ensures (CeilDiv(a, b) - 1) * b < a <= CeilDiv(a, b) * b
  {
    assert a == (a / b) * b + a % b;
    if a % b == 0 {
      assert a / b != 0;
    }
  }

  lemma MulMono(a: nat, b: nat, m: nat)
    requires a <= b
    ensures a * m <= b * m
  {
    assert b * m == a * m + (b - a) * m;
  }

  lemma InsertIndexBounds(c: Config, size: nat)
    requires GoodConfig(c)
    ensures size <= c.minSize ==> InsertIndex(c, size) == 0
    ensures size < Bound(c, InsertIndex(c, size) + 1)
    ensures size > c.minSize ==> Bound(c, InsertIndex(c, size)) <= size
  {
    if size <= c.minSize {
      assert Pow2(1) == 2;
    } else if c.level.Linear? {
      DivBounds(size - c.minSize, c.factor);
    } else {
      ExpFloorBounds(c.minSize, size);
    }
  }

  lemma ExpFloorBounds(m: nat, size: nat)
    requires 0 < m < size
    ensures m * Pow2(FloorLog2(size / m)) <= size < m * Pow2(FloorLog2(size / m) + 1)
  {
    hide Pow2, FloorLog2;
    var p := size / m;
    DivBounds(size, m);
    assert p != 0;
    FloorLog2Sandwich(p);
    var k := FloorLog2(p);
    MulMono(Pow2(k), p, m);
    MulMono(p + 1, Pow2(k + 1), m);
  }

  lemma AllocIndexBounds(c: Config, size: nat)
    requires GoodConfig(c) && size > c.minSize
    ensures AllocIndex(c, size) >= 1
    ensures Bound(c, AllocIndex(c, size) - 1) < size <= Bound(c, AllocIndex(c, size))
  {
    if c.level.Linear? {
      CeilDivBounds(size - c.minSize, c.factor);
    } else {
      ExpBounds(c.minSize, size);
    }
  }

  lemma ExpBounds(m: nat, size: nat)
    requires 0 < m < size
    ensures CeilLog2(CeilDiv(size, m)) >= 1
    ensures m * Pow2(CeilLog2(CeilDiv(size, m)) - 1) < size <= m * Pow2(CeilLog2(CeilDiv(size, m)))
  {
    hide Pow2, CeilLog2, CeilDiv;
    var p := CeilDiv(size, m);
    CeilDivBounds(size, m);
    assert p != 1;
    CeilLog2Sandwich(p);
    var k := CeilLog2(p);
    MulMono(p, Pow2(k), m);
    MulMono(Pow2(k - 1), p - 1, m);
  }

  // Every block on a class list at or above the request's class is large enough.
  lemma HighClassFits(c: Config, size: nat, block: nat)
    requires GoodConfig(c)
    requires size > c.minSize ==> Class(c, block) >= AllocIndex(c, size)
    requires size <= c.minSize ==> Class(c, block) >= 1
    ensures block >= size
  {
    InsertIndexBounds(c, block);
    if size > c.minSize {
      AllocIndexBounds(c, size);
      BoundMonotone(c, AllocIndex(c, size), InsertIndex(c, block));
    }
  }

  // Blocks on lower class lists are smaller than blocks on higher ones.
  lemma LowClassSmaller(c: Config, low: nat, high: nat)
    requires GoodConfig(c)
    requires Class(c, low) < Class(c, high)
    ensures low < high
  {
    InsertIndexBounds(c, low);
    InsertIndexBounds(c, high);
    BoundMonotone(c, InsertIndex(c, low) + 1, InsertIndex(c, high));
  }

  // A request whose class lies above the block's cannot be met by that block.
  lemma LowClassTooSmall(c: Config, size: nat, block: nat)
    requires GoodConfig(c) && size > c.minSize
    requires Class(c, block) + 1 < AllocIndex(c, size) && Class(c, block) + 1 < c.freeLen
    ensures block < size
  {
    InsertIndexBounds(c, block);
    AllocIndexBounds(c, size);
    BoundMonotone(c, InsertIndex(c, block) + 1, AllocIndex(c, size) - 1);
  }

  // How many classes above the first one reach from lo to hi.
  function LevelCount(level: Level, lo: nat, hi: nat, factor: nat): nat
    requires 0 < lo < hi && (level.Linear? ==> factor > 0)
  {
    if level.Linear? then CeilDiv(hi - lo, factor) else CeilLog2(CeilDiv(hi, lo))
  }

  lemma LevelBounds(level: Level, lo: nat, hi: nat, factor: nat)
    requires 0 < lo < hi && (level.Linear? ==> factor > 0)
    ensures var n := LevelCount(level, lo, hi, factor);
      && n >= 1 && (level.Linear? ==> lo + (n - 1) * factor < hi <= lo + n * factor)
      && (level.Exp? ==> lo * Pow2(n - 1) < hi <= lo * Pow2(n))
  {
    if level.Linear? {
      CeilDivBounds(hi - lo, factor);
    } else {
      ExpBounds(lo, hi);
    }
  }
}

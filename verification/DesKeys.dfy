/** The subkey arrays of the DES contexts in src/core/dfs_math.c, over any type of word. */
module DesKeys {

  // Subkey pairs in reverse order.
  function PairReverse<T>(ks: seq<T>): (r: seq<T>)
    ensures |ks| % 2 == 0 ==> |r| == |ks|
  {
    if |ks| < 2 then [] else PairReverse(ks[2..]) + ks[..2]
  }

  lemma {:induction false} ReverseConcat<T>(a: seq<T>, b: seq<T>)
    requires |a| % 2 == 0 && |b| % 2 == 0
    ensures PairReverse(a + b) == PairReverse(b) + PairReverse(a)
  {
    if a == [] {
      assert a + b == b;
    } else {
      assert (a + b)[2..] == a[2..] + b && (a + b)[..2] == a[..2];
      ReverseConcat(a[2..], b);
    }
  }

  lemma {:induction false} ReverseTwice<T>(a: seq<T>)
    requires |a| % 2 == 0
    ensures PairReverse(PairReverse(a)) == a
  {
    if a != [] {
      ReverseTwice(a[2..]);
      ReverseConcat(PairReverse(a[2..]), a[..2]);
      assert a[..2][2..] == [] && a[..2][..2] == a[..2];
      assert PairReverse(a[..2]) == a[..2];
    }
  }

  // ---- subkey arrays ----

  // Where the reversed order takes its k-th word from.
  function Back(n: int, k: int): int {
    if k % 2 == 0 then n - 2 - k else n - k
  }

  lemma {:induction false} PairReverseAt<T>(ks: seq<T>, k: int)
    requires |ks| % 2 == 0 && 0 <= k < |ks|
    ensures 0 <= Back(|ks|, k) < |ks| && |PairReverse(ks)| == |ks| && PairReverse(ks)[k] == ks[Back(|ks|, k)]
  {
    if k < |ks| - 2 {
      PairReverseAt(ks[2..], k);
    }
  }

  // The key schedule's output, stored from position off on.
  method Store<T>(a: array<T>, off: int, ks: seq<T>)
    requires 0 <= off && off + |ks| <= a.Length
    modifies a
    ensures forall k :: 0 <= k < a.Length ==> a[k] == if off <= k < off + |ks| then ks[k - off] else old(a[k])
  {
    forall k | off <= k < off + |ks| {
      a[k] := ks[k - off];
    }
  }

  // The n words from lo on are the first n of r.
  ghost predicate Filled<T>(a: seq<T>, lo: int, n: int, r: seq<T>) {
    0 <= lo && 0 <= n <= |r| && lo + n <= |a| && forall k :: lo <= k < lo + n ==> a[k] == r[k - lo]
  }

  // Writing the pair at j leaves other parts alone and may extend one.
  lemma FilledPut<T>(a: seq<T>, lo: int, n: int, r: seq<T>, j: int, x: T, y: T)
    requires Filled(a, lo, n, r) && 0 <= j && j + 1 < |a|
    ensures j + 2 <= lo || lo + n <= j ==> Filled(a[j := x][j + 1 := y], lo, n, r)
    ensures j == lo + n && n + 2 <= |r| && x == r[n] && y == r[n + 1] ==> Filled(a[j := x][j + 1 := y], lo, n + 2, r)
  {
  }

  // Extends the first part by a pair and leaves the other two alone.
  lemma Put3<T>(a: seq<T>, j: int, x: T, y: T, lo: int, n: int, r: seq<T>, lo2: int, n2: int, r2: seq<T>, lo3: int, n3: int, r3: seq<T>)
    requires Filled(a, lo, n, r) && Filled(a, lo2, n2, r2) && Filled(a, lo3, n3, r3)
    requires j == lo + n && 0 <= n && n + 2 <= |r| && x == r[n] && y == r[n + 1] && 0 <= j && j + 1 < |a|
    requires (j + 2 <= lo2 || lo2 + n2 <= j) && (j + 2 <= lo3 || lo3 + n3 <= j)
    ensures var a' := a[j := x][j + 1 := y]; Filled(a', lo, n + 2, r) && Filled(a', lo2, n2, r2) && Filled(a', lo3, n3, r3)
  {
    hide Filled;
    FilledPut(a, lo, n, r, j, x, y);
    FilledPut(a, lo2, n2, r2, j, x, y);
    FilledPut(a, lo3, n3, r3, j, x, y);
  }

  // Reading a pair out of a filled part.
  lemma Pair<T>(a: seq<T>, lo: int, n: int, r: seq<T>, k: int)
    requires Filled(a, lo, n, r) && 0 <= k && k + 1 < n
    ensures 0 <= lo && lo + k + 1 < |a| && k + 1 < |r| && a[lo + k] == r[k] && a[lo + k + 1] == r[k + 1]
  {
  }

  lemma FilledAll<T>(a: seq<T>, x: seq<T>, y: seq<T>, z: seq<T>)
    requires |a| == 96 && |x| == |y| == |z| == 32 && Filled(a, 0, 32, x) && Filled(a, 32, 32, y) && Filled(a, 64, 32, z)
    ensures a == x + y + z
  {
  }

  method PutPair<T>(a: array<T>, j: int, x: T, y: T)
    requires 0 <= j && j + 1 < a.Length
    modifies a
    ensures a[..] == old(a[..])[j := x][j + 1 := y]
  {
    a[j] := x;
    a[j + 1] := y;
  }

  class Context<T(0)> {
    const encrypt: array<T>
    const decrypt: array<T>

    constructor (n: nat)
      ensures encrypt.Length == n && decrypt.Length == n && encrypt != decrypt && fresh(encrypt) && fresh(decrypt)
    {
      encrypt, decrypt := new T[n], new T[n];
    }

    /** gl_des_setkey, given what the key schedule computes. */
    method SetKey(schedule: seq<T>)
      requires encrypt.Length == decrypt.Length == 32 && encrypt != decrypt && |schedule| == 32
      modifies encrypt, decrypt
      ensures encrypt[..] == schedule && decrypt[..] == PairReverse(encrypt[..])
    {
      hide PairReverse, Back;
      Store(encrypt, 0, schedule);
      var i := 0;
      while i < 32
        invariant 0 <= i <= 32 && i % 2 == 0 && encrypt[..] == schedule
        invariant forall k :: 0 <= k < i ==> decrypt[k] == PairReverse(schedule)[k]
      {
        PairAt(schedule, i);
        decrypt[i] := encrypt[30 - i];
        decrypt[i + 1] := encrypt[31 - i];
        i := i + 2;
      }
    }

    /** gl_3des_set2keys */
    method Set2Keys(s1: seq<T>, s2: seq<T>)
      requires encrypt.Length == decrypt.Length == 96 && encrypt != decrypt && |s1| == |s2| == 32
      modifies encrypt, decrypt
      ensures encrypt[..] == s1 + PairReverse(s2) + s1 && decrypt[..] == PairReverse(s1) + s2 + PairReverse(s1)
    {
      hide PairReverse, Back;
      Store(encrypt, 0, s1);
      Store(decrypt, 32, s2);
      ghost var r1, r2 := PairReverse(s1), PairReverse(s2);
      var i := 0;
      while i < 32
        invariant 0 <= i <= 32 && i % 2 == 0
        invariant Filled(encrypt[..], 0, 32, s1) && Filled(encrypt[..], 32, i, r2) && Filled(encrypt[..], 64, i, s1)
        invariant Filled(decrypt[..], 0, i, r1) && Filled(decrypt[..], 32, 32, s2) && Filled(decrypt[..], 64, i, r1)
      {
        hide Filled;
        PairAt(s1, i);
        PairAt(s2, i);
        Pair(encrypt[..], 0, 32, s1, 30 - i);
        Put3(decrypt[..], i, encrypt[30 - i], encrypt[31 - i], 0, i, r1, 32, 32, s2, 64, i, r1);
        PutPair(decrypt, i, encrypt[30 - i], encrypt[31 - i]);
        Pair(decrypt[..], 32, 32, s2, 30 - i);
        Put3(encrypt[..], i + 32, decrypt[62 - i], decrypt[63 - i], 32, i, r2, 0, 32, s1, 64, i, s1);
        PutPair(encrypt, i + 32, decrypt[62 - i], decrypt[63 - i]);
        Pair(encrypt[..], 0, 32, s1, i);
        Put3(encrypt[..], i + 64, encrypt[i], encrypt[i + 1], 64, i, s1, 0, 32, s1, 32, i + 2, r2);
        PutPair(encrypt, i + 64, encrypt[i], encrypt[i + 1]);
        Pair(decrypt[..], 0, i + 2, r1, i);
        Put3(decrypt[..], i + 64, decrypt[i], decrypt[i + 1], 64, i, r1, 0, i + 2, r1, 32, 32, s2);
        PutPair(decrypt, i + 64, decrypt[i], decrypt[i + 1]);
        i := i + 2;
      }
      FilledAll(encrypt[..], s1, r2, s1);
      FilledAll(decrypt[..], r1, s2, r1);
    }

    /** gl_3des_set3keys */
    method Set3Keys(s1: seq<T>, s2: seq<T>, s3: seq<T>)
      requires encrypt.Length == decrypt.Length == 96 && encrypt != decrypt && |s1| == |s2| == |s3| == 32
      modifies encrypt, decrypt
      ensures encrypt[..] == s1 + PairReverse(s2) + s3 && decrypt[..] == PairReverse(s3) + s2 + PairReverse(s1)
    {
      hide PairReverse, Back;
      Store(encrypt, 0, s1);
      Store(decrypt, 32, s2);
      Store(encrypt, 64, s3);
      ghost var r1, r2, r3 := PairReverse(s1), PairReverse(s2), PairReverse(s3);
      var i := 0;
      while i < 32
        invariant 0 <= i <= 32 && i % 2 == 0
        invariant Filled(encrypt[..], 0, 32, s1) && Filled(encrypt[..], 32, i, r2) && Filled(encrypt[..], 64, 32, s3)
        invariant Filled(decrypt[..], 0, i, r3) && Filled(decrypt[..], 32, 32, s2) && Filled(decrypt[..], 64, i, r1)
      {
        hide Filled;
        PairAt(s1, i);
        PairAt(s2, i);
        PairAt(s3, i);
        Pair(encrypt[..], 64, 32, s3, 30 - i);
        Put3(decrypt[..], i, encrypt[94 - i], encrypt[95 - i], 0, i, r3, 32, 32, s2, 64, i, r1);
        PutPair(decrypt, i, encrypt[94 - i], encrypt[95 - i]);
        Pair(decrypt[..], 32, 32, s2, 30 - i);
        Put3(encrypt[..], i + 32, decrypt[62 - i], decrypt[63 - i], 32, i, r2, 0, 32, s1, 64, 32, s3);
        PutPair(encrypt, i + 32, decrypt[62 - i], decrypt[63 - i]);
        Pair(encrypt[..], 0, 32, s1, 30 - i);
        Put3(decrypt[..], i + 64, encrypt[30 - i], encrypt[31 - i], 64, i, r1, 0, i + 2, r3, 32, 32, s2);
        PutPair(decrypt, i + 64, encrypt[30 - i], encrypt[31 - i]);
        i := i + 2;
      }
      FilledAll(encrypt[..], s1, r2, s3);
      FilledAll(decrypt[..], r3, s2, r1);
    }
  }

  lemma PairAt<T>(ks: seq<T>, i: int)
    requires |ks| == 32 && 0 <= i < 31 && i % 2 == 0
    ensures |PairReverse(ks)| == 32 && PairReverse(ks)[i] == ks[30 - i] && PairReverse(ks)[i + 1] == ks[31 - i]
  {
    PairReverseAt(ks, i);
    PairReverseAt(ks, i + 1);
  }
}

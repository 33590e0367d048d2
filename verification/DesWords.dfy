/** The word-level parts of DES in src/core/dfs_math.c: bit permutations, one round, and the
    conversion of eight bytes from and to two words. */
module DesWords {

  function Xor(x: bv32, y: bv32): bv32 {
    x ^ y
  }

  lemma XorTwice(x: bv32, y: bv32)
    ensures Xor(Xor(x, y), y) == x
  {
  }

  /** DO_PERMUTATION exchanges the bits of b under mask with those offset places up in a: the
      difference of the two, and what a and b become. */
  function Diff(a: bv32, b: bv32, offset: bv6, mask: bv32): bv32
    requires offset < 32
  {
    ((a >> offset) ^ b) & mask
  }

  function Up(d: bv32, offset: bv6): bv32
    requires offset < 32
  {
    d << offset
  }

  function High(a: bv32, b: bv32, offset: bv6, mask: bv32): bv32
    requires offset < 32
  {
    Xor(a, Up(Diff(a, b, offset, mask), offset))
  }

  function Low(a: bv32, b: bv32, offset: bv6, mask: bv32): bv32
    requires offset < 32
  {
    Xor(b, Diff(a, b, offset, mask))
  }

  // The exchanged words differ where the words did.
  predicate SameDiff(a: bv32, b: bv32, offset: bv6, mask: bv32)
    requires offset < 32
  {
    var d := Diff(a, b, offset, mask);
    Diff(Xor(a, Up(d, offset)), Xor(b, d), offset, mask) == d
  }

  lemma Undone(a: bv32, b: bv32, offset: bv6, mask: bv32)
    requires offset < 32 && SameDiff(a, b, offset, mask)
    ensures var a', b' := High(a, b, offset, mask), Low(a, b, offset, mask);
      High(a', b', offset, mask) == a && Low(a', b', offset, mask) == b
  {
    hide Xor, Up, Diff;
    var d := Diff(a, b, offset, mask);
    XorTwice(a, Up(d, offset));
    XorTwice(b, d);
  }

  lemma SameDiff4(a: bv32, b: bv32)
    ensures SameDiff(a, b, 4, 0x0f0f0f0f)
  {
  }

  lemma Swap4Twice(a: bv32, b: bv32)
    ensures var a', b' := High(a, b, 4, 0x0f0f0f0f), Low(a, b, 4, 0x0f0f0f0f);
      High(a', b', 4, 0x0f0f0f0f) == a && Low(a', b', 4, 0x0f0f0f0f) == b
  {
    hide High, Low, SameDiff;
    SameDiff4(a, b);
    Undone(a, b, 4, 0x0f0f0f0f);
  }

  lemma SameDiff16(a: bv32, b: bv32)
    ensures SameDiff(a, b, 16, 0x0000ffff)
  {
  }

  lemma Swap16Twice(a: bv32, b: bv32)
    ensures var a', b' := High(a, b, 16, 0x0000ffff), Low(a, b, 16, 0x0000ffff);
      High(a', b', 16, 0x0000ffff) == a && Low(a', b', 16, 0x0000ffff) == b
  {
    hide High, Low, SameDiff;
    SameDiff16(a, b);
    Undone(a, b, 16, 0x0000ffff);
  }

  lemma SameDiff2(a: bv32, b: bv32)
    ensures SameDiff(a, b, 2, 0x33333333)
  {
  }

  lemma Swap2Twice(a: bv32, b: bv32)
    ensures var a', b' := High(a, b, 2, 0x33333333), Low(a, b, 2, 0x33333333);
      High(a', b', 2, 0x33333333) == a && Low(a', b', 2, 0x33333333) == b
  {
    hide High, Low, SameDiff;
    SameDiff2(a, b);
    Undone(a, b, 2, 0x33333333);
  }

  lemma SameDiff8(a: bv32, b: bv32)
    ensures SameDiff(a, b, 8, 0x00ff00ff)
  {
  }

  lemma Swap8Twice(a: bv32, b: bv32)
    ensures var a', b' := High(a, b, 8, 0x00ff00ff), Low(a, b, 8, 0x00ff00ff);
      High(a', b', 8, 0x00ff00ff) == a && Low(a', b', 8, 0x00ff00ff) == b
  {
    hide High, Low, SameDiff;
    SameDiff8(a, b);
    Undone(a, b, 8, 0x00ff00ff);
  }

  function RotateLeft1(x: bv32): bv32 {
    (x << 1) | (x >> 31)
  }

  function RotateRight1(x: bv32): bv32 {
    (x << 31) | (x >> 1)
  }

  lemma RotateBack(x: bv32)
    ensures RotateRight1(RotateLeft1(x)) == x && RotateLeft1(RotateRight1(x)) == x
  {
  }

  // a with its odd bits taken from b.
  function OddFrom(a: bv32, b: bv32): bv32 {
    a ^ ((a ^ b) & 0xaaaaaaaa)
  }

  lemma OddTwice(a: bv32, b: bv32)
    ensures OddFrom(OddFrom(a, b), OddFrom(b, a)) == a
  {
  }

  // ---- the permutations ----

  datatype Words = Words(left: bv32, right: bv32)

  function Flip(w: Words): Words {
    Words(w.right, w.left)
  }

  function Swap(w: Words, offset: bv6, mask: bv32): Words
    requires offset < 32
  {
    Words(High(w.left, w.right, offset, mask), Low(w.left, w.right, offset, mask))
  }

  lemma SwapsBack(w: Words)
    ensures Swap(Swap(w, 4, 0x0f0f0f0f), 4, 0x0f0f0f0f) == w
    ensures Swap(Swap(w, 16, 0x0000ffff), 16, 0x0000ffff) == w
    ensures Swap(Swap(w, 2, 0x33333333), 2, 0x33333333) == w
    ensures Swap(Swap(w, 8, 0x00ff00ff), 8, 0x00ff00ff) == w
  {
    hide High, Low;
    Swap4Twice(w.left, w.right);
    Swap16Twice(w.left, w.right);
    Swap2Twice(w.left, w.right);
    Swap8Twice(w.left, w.right);
  }

  // The last four lines of INITIAL_PERMUTATION, on (right, left).
  function Mix(w: Words): Words {
    var r := RotateLeft1(w.left);
    Words(RotateLeft1(OddFrom(w.right, r)), OddFrom(r, w.right))
  }

  // The first five lines of FINAL_PERMUTATION, giving (right, left).
  function Unmix(w: Words): Words {
    var l := RotateRight1(w.left);
    Words(RotateRight1(OddFrom(w.right, l)), OddFrom(l, w.right))
  }

  lemma MixBack(w: Words)
    ensures Unmix(Mix(w)) == w && Mix(Unmix(w)) == w
  {
    hide RotateLeft1, RotateRight1, OddFrom;
    var r, l := RotateLeft1(w.left), RotateRight1(w.left);
    RotateBack(w.left);
    RotateBack(OddFrom(w.right, r));
    RotateBack(OddFrom(w.right, l));
    OddTwice(w.right, r);
    OddTwice(r, w.right);
    OddTwice(w.right, l);
    OddTwice(l, w.right);
  }

  /** INITIAL_PERMUTATION */
  function Initial(w: Words): Words {
    Mix(Swap(Swap(Flip(Swap(Swap(w, 4, 0x0f0f0f0f), 16, 0x0000ffff)), 2, 0x33333333), 8, 0x00ff00ff))
  }

  /** FINAL_PERMUTATION */
  function Final(w: Words): Words {
    Swap(Swap(Flip(Swap(Swap(Unmix(w), 8, 0x00ff00ff), 2, 0x33333333)), 16, 0x0000ffff), 4, 0x0f0f0f0f)
  }

  lemma FinalInitial(w: Words)
    ensures Final(Initial(w)) == w
  {
    hide Swap, Mix, Unmix;
    var w1 := Swap(w, 4, 0x0f0f0f0f);
    var w2 := Swap(w1, 16, 0x0000ffff);
    var w3 := Swap(Flip(w2), 2, 0x33333333);
    var w4 := Swap(w3, 8, 0x00ff00ff);
    MixBack(w4);
    SwapsBack(w3);
    SwapsBack(Flip(w2));
    SwapsBack(w1);
    SwapsBack(w);
  }

  lemma InitialFinal(w: Words)
    ensures Initial(Final(w)) == w
  {
    hide Swap, Mix, Unmix;
    var w4 := Unmix(w);
    var w3 := Swap(w4, 8, 0x00ff00ff);
    var w2 := Swap(w3, 2, 0x33333333);
    var w1 := Swap(Flip(w2), 16, 0x0000ffff);
    SwapsBack(w1);
    SwapsBack(Flip(w2));
    SwapsBack(w3);
    SwapsBack(w4);
    MixBack(w);
  }

  // ---- one round ----

  // The substitution tables, by number and index; nothing depends on their contents.
  type Boxes = (int, bv32) -> bv32

  // Six bits of a word, from position shift up.
  function Six(w: bv32, shift: bv6): bv32
    requires shift <= 24
  {
    (w >> shift) & 0x3f
  }

  function RotateRight4(x: bv32): bv32 {
    (x << 28) | (x >> 4)
  }

  function Xor4(x: bv32, a: bv32, b: bv32, c: bv32, d: bv32): bv32 {
    Xor(Xor(Xor(Xor(x, a), b), c), d)
  }

  /** DES_ROUND: what to becomes. */
  function Round(box: Boxes, to: bv32, from: bv32, k0: bv32, k1: bv32): bv32 {
    var work, work2 := Xor(from, k0), Xor(RotateRight4(from), k1);
    var to' := Xor4(to, box(8, Six(work, 0)), box(6, Six(work, 8)), box(4, Six(work, 16)), box(2, Six(work, 24)));
    Xor4(to', box(7, Six(work2, 0)), box(5, Six(work2, 8)), box(3, Six(work2, 16)), box(1, Six(work2, 24)))
  }

  lemma XorAssociates(x: bv32, y: bv32, z: bv32)
    ensures Xor(Xor(x, y), z) == Xor(x, Xor(y, z))
  {
  }

  lemma Xor4Mask(x: bv32, a: bv32, b: bv32, c: bv32, d: bv32)
    ensures Xor4(x, a, b, c, d) == Xor(x, Xor(Xor(Xor(a, b), c), d))
  {
    hide Xor;
    XorAssociates(x, a, b);
    XorAssociates(x, Xor(a, b), c);
    XorAssociates(x, Xor(Xor(a, b), c), d);
  }

  lemma XorPairTwice(x: bv32, m: bv32, n: bv32)
    ensures Xor(Xor(Xor(Xor(x, m), n), m), n) == x
  {
  }

  /** The same round twice restores the word. */
  lemma RoundTwice(box: Boxes, to: bv32, from: bv32, k0: bv32, k1: bv32)
    ensures Round(box, Round(box, to, from, k0, k1), from, k0, k1) == to
  {
    var work, work2 := Xor(from, k0), Xor(RotateRight4(from), k1);
    Xor4Four(to, box(8, Six(work, 0)), box(6, Six(work, 8)), box(4, Six(work, 16)), box(2, Six(work, 24)),
             box(7, Six(work2, 0)), box(5, Six(work2, 8)), box(3, Six(work2, 16)), box(1, Six(work2, 24)));
    hide Xor4, Six, Xor, RotateRight4;
  }

  lemma Xor4Four(x: bv32, a: bv32, b: bv32, c: bv32, d: bv32, e: bv32, f: bv32, g: bv32, h: bv32)
    ensures var y := Xor4(Xor4(x, a, b, c, d), e, f, g, h); Xor4(Xor4(y, a, b, c, d), e, f, g, h) == x
  {
    hide Xor4, Xor;
    var m, n := Xor(Xor(Xor(a, b), c), d), Xor(Xor(Xor(e, f), g), h);
    Xor4Mask(x, a, b, c, d);
    Xor4Mask(Xor(x, m), e, f, g, h);
    Xor4Mask(Xor(Xor(x, m), n), a, b, c, d);
    Xor4Mask(Xor(Xor(Xor(x, m), n), m), e, f, g, h);
    XorPairTwice(x, m, n);
  }

  // ---- bytes ----

  function Word(a: bv8, b: bv8, c: bv8, d: bv8): bv32 {
    ((a as bv32) << 24) | ((b as bv32) << 16) | ((c as bv32) << 8) | (d as bv32)
  }

  function Byte(w: bv32, shift: bv6): bv8
    requires shift <= 24
  {
    ((w >> shift) & 0xff) as bv8
  }

  lemma WordOfBytes(w: bv32)
    ensures Word(Byte(w, 24), Byte(w, 16), Byte(w, 8), Byte(w, 0)) == w
  {
  }

  lemma BytesOfWord(a: bv8, b: bv8, c: bv8, d: bv8)
    ensures var w := Word(a, b, c, d); Byte(w, 24) == a && Byte(w, 16) == b && Byte(w, 8) == c && Byte(w, 0) == d
  {
  }
}

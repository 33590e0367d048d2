/** The DES code against the tables of FIPS 46-3: the initial permutation bit by bit, and the rounds
    by the E bit-selection table. The substitution tables are those of the program, each S box with
    the permutation P behind it and one place rotated; what is in them does not matter here. */
module DesStandard {
  import opened Des
  import opened DesKeys
  import opened DesWords

  // ---- the initial permutation ----

  // Bit n of a block, counted from 1 at the left.
  function BlockBit(w: Words, n: bv8): bv32
    requires 1 <= n <= 64
  {
    if n <= 32 then (w.left >> (32 - n)) & 1 else (w.right >> (64 - n)) & 1
  }

  // Eight bits of a block, in this order.
  function Row(w: Words, a: bv8, b: bv8, c: bv8, d: bv8, e: bv8, f: bv8, g: bv8, h: bv8): bv32
    requires 1 <= a <= 64 && 1 <= b <= 64 && 1 <= c <= 64 && 1 <= d <= 64
    requires 1 <= e <= 64 && 1 <= f <= 64 && 1 <= g <= 64 && 1 <= h <= 64
  {
    (BlockBit(w, a) << 7) | (BlockBit(w, b) << 6) | (BlockBit(w, c) << 5) | (BlockBit(w, d) << 4)
    | (BlockBit(w, e) << 3) | (BlockBit(w, f) << 2) | (BlockBit(w, g) << 1) | BlockBit(w, h)
  }

  /** The table IP of FIPS 46-3: its first four rows, and its last four. */
  function IPLeft(w: Words): bv32 {
    (Row(w, 58, 50, 42, 34, 26, 18, 10, 2) << 24) | (Row(w, 60, 52, 44, 36, 28, 20, 12, 4) << 16)
    | (Row(w, 62, 54, 46, 38, 30, 22, 14, 6) << 8) | Row(w, 64, 56, 48, 40, 32, 24, 16, 8)
  }

  function IPRight(w: Words): bv32 {
    (Row(w, 57, 49, 41, 33, 25, 17, 9, 1) << 24) | (Row(w, 59, 51, 43, 35, 27, 19, 11, 3) << 16)
    | (Row(w, 61, 53, 45, 37, 29, 21, 13, 5) << 8) | Row(w, 63, 55, 47, 39, 31, 23, 15, 7)
  }

  // The exchanges of bits written with masks.
  function Taken(a: bv32, b: bv32, offset: bv6, mask: bv32): bv32
    requires offset < 32
  {
    (a & !(mask << offset)) | ((b & mask) << offset)
  }

  function Given(a: bv32, b: bv32, offset: bv6, mask: bv32): bv32
    requires offset < 32
  {
    (b & !mask) | ((a >> offset) & mask)
  }

  function Exchange(w: Words, offset: bv6, mask: bv32): Words
    requires offset < 32
  {
    Words(Taken(w.left, w.right, offset, mask), Given(w.left, w.right, offset, mask))
  }

  lemma Masks4(a: bv32, b: bv32)
    ensures High(a, b, 4, 0x0f0f0f0f) == Taken(a, b, 4, 0x0f0f0f0f) && Low(a, b, 4, 0x0f0f0f0f) == Given(a, b, 4, 0x0f0f0f0f)
  {
  }

  lemma Masks16(a: bv32, b: bv32)
    ensures High(a, b, 16, 0x0000ffff) == Taken(a, b, 16, 0x0000ffff) && Low(a, b, 16, 0x0000ffff) == Given(a, b, 16, 0x0000ffff)
  {
  }

  lemma Masks2(a: bv32, b: bv32)
    ensures High(a, b, 2, 0x33333333) == Taken(a, b, 2, 0x33333333) && Low(a, b, 2, 0x33333333) == Given(a, b, 2, 0x33333333)
  {
  }

  lemma Masks8(a: bv32, b: bv32)
    ensures High(a, b, 8, 0x00ff00ff) == Taken(a, b, 8, 0x00ff00ff) && Low(a, b, 8, 0x00ff00ff) == Given(a, b, 8, 0x00ff00ff)
  {
  }

  lemma Exchanges(w: Words)
    ensures Swap(w, 4, 0x0f0f0f0f) == Exchange(w, 4, 0x0f0f0f0f) && Swap(w, 16, 0x0000ffff) == Exchange(w, 16, 0x0000ffff)
    ensures Swap(w, 2, 0x33333333) == Exchange(w, 2, 0x33333333) && Swap(w, 8, 0x00ff00ff) == Exchange(w, 8, 0x00ff00ff)
  {
    hide High, Low, Taken, Given;
    Masks4(w.left, w.right);
    Masks16(w.left, w.right);
    Masks2(w.left, w.right);
    Masks8(w.left, w.right);
  }

  function OddBits(a: bv32, b: bv32): bv32 {
    (a & 0x55555555) | (b & 0xaaaaaaaa)
  }

  lemma OddIsMask(a: bv32, b: bv32)
    ensures OddFrom(a, b) == OddBits(a, b)
  {
  }

  function MixBits(w: Words): Words {
    var r := RotateLeft1(w.left);
    Words(RotateLeft1(OddBits(w.right, r)), OddBits(r, w.right))
  }

  function InitialBits(w: Words): Words {
    MixBits(Exchange(Exchange(Flip(Exchange(Exchange(w, 4, 0x0f0f0f0f), 16, 0x0000ffff)), 2, 0x33333333), 8, 0x00ff00ff))
  }

  lemma InitialIsBits(w: Words)
    ensures Initial(w) == InitialBits(w)
  {
    hide Swap, Exchange, OddFrom, OddBits, RotateLeft1;
    var w1 := Exchange(w, 4, 0x0f0f0f0f);
    var w2 := Flip(Exchange(w1, 16, 0x0000ffff));
    var w3 := Exchange(w2, 2, 0x33333333);
    var w4 := Exchange(w3, 8, 0x00ff00ff);
    Exchanges(w);
    Exchanges(w1);
    Exchanges(w2);
    Exchanges(w3);
    OddIsMask(w4.right, RotateLeft1(w4.left));
    OddIsMask(RotateLeft1(w4.left), w4.right);
  }

  lemma BitsAreTable(w: Words)
    ensures InitialBits(w) == Words(RotateLeft1(IPLeft(w)), RotateLeft1(IPRight(w)))
  {
  }

  /** INITIAL_PERMUTATION is the table IP, both halves then rotated by one. */
  lemma InitialIsTable(w: Words)
    ensures Initial(w) == Words(RotateLeft1(IPLeft(w)), RotateLeft1(IPRight(w)))
  {
    hide Initial, InitialBits, IPLeft, IPRight, RotateLeft1;
    InitialIsBits(w);
    BitsAreTable(w);
  }

  // ---- one round ----

  // Bit n of a half, counted from 1 at the left.
  function HalfBit(r: bv32, n: bv8): bv32
    requires 1 <= n <= 32
  {
    (r >> (32 - n)) & 1
  }

  function Group(r: bv32, a: bv8, b: bv8, c: bv8, d: bv8, e: bv8, f: bv8): bv32
    requires 1 <= a <= 32 && 1 <= b <= 32 && 1 <= c <= 32 && 1 <= d <= 32 && 1 <= e <= 32 && 1 <= f <= 32
  {
    (HalfBit(r, a) << 5) | (HalfBit(r, b) << 4) | (HalfBit(r, c) << 3) | (HalfBit(r, d) << 2) | (HalfBit(r, e) << 1) | HalfBit(r, f)
  }

  /** Row j of the E bit-selection table. */
  function Expanded(r: bv32, j: int): bv32
    requires 1 <= j <= 8
  {
    if j == 1 then Group(r, 32, 1, 2, 3, 4, 5)
    else if j == 2 then Group(r, 4, 5, 6, 7, 8, 9)
    else if j == 3 then Group(r, 8, 9, 10, 11, 12, 13)
    else if j == 4 then Group(r, 12, 13, 14, 15, 16, 17)
    else if j == 5 then Group(r, 16, 17, 18, 19, 20, 21)
    else if j == 6 then Group(r, 20, 21, 22, 23, 24, 25)
    else if j == 7 then Group(r, 24, 25, 26, 27, 28, 29)
    else Group(r, 28, 29, 30, 31, 32, 1)
  }

  // The six key bits of group j: the even groups are in the first word of a pair, the odd ones in the second.
  function KeyBits(k0: bv32, k1: bv32, j: int): bv32
    requires 1 <= j <= 8
  {
    if j == 8 then Six(k0, 0) else if j == 6 then Six(k0, 8) else if j == 4 then Six(k0, 16) else if j == 2 then Six(k0, 24)
    else if j == 7 then Six(k1, 0) else if j == 5 then Six(k1, 8) else if j == 3 then Six(k1, 16) else Six(k1, 24)
  }

  // What table j gives for half r.
  function Looked(box: Boxes, r: bv32, k0: bv32, k1: bv32, j: int): bv32
    requires 1 <= j <= 8
  {
    box(j, Xor(Expanded(r, j), KeyBits(k0, k1, j)))
  }

  // The sum of the tables j to 8.
  function Summed(box: Boxes, r: bv32, k0: bv32, k1: bv32, j: int): bv32
    requires 1 <= j <= 8
    decreases 8 - j
  {
    if j == 8 then Looked(box, r, k0, k1, 8) else Xor(Summed(box, r, k0, k1, j + 1), Looked(box, r, k0, k1, j))
  }

  lemma Group1(from: bv32)
    ensures Six(RotateRight4(from), 24) == Expanded(RotateRight1(from), 1)
  {
  }

  lemma Group2(from: bv32)
    ensures Six(from, 24) == Expanded(RotateRight1(from), 2)
  {
  }

  lemma Group3(from: bv32)
    ensures Six(RotateRight4(from), 16) == Expanded(RotateRight1(from), 3)
  {
  }

  lemma Group4(from: bv32)
    ensures Six(from, 16) == Expanded(RotateRight1(from), 4)
  {
  }

  lemma Group5(from: bv32)
    ensures Six(RotateRight4(from), 8) == Expanded(RotateRight1(from), 5)
  {
  }

  lemma Group6(from: bv32)
    ensures Six(from, 8) == Expanded(RotateRight1(from), 6)
  {
  }

  lemma Group7(from: bv32)
    ensures Six(RotateRight4(from), 0) == Expanded(RotateRight1(from), 7)
  {
  }

  lemma Group8(from: bv32)
    ensures Six(from, 0) == Expanded(RotateRight1(from), 8)
  {
  }

  lemma SixXor0(a: bv32, b: bv32)
    ensures Six(Xor(a, b), 0) == Xor(Six(a, 0), Six(b, 0))
  {
  }

  lemma SixXor8(a: bv32, b: bv32)
    ensures Six(Xor(a, b), 8) == Xor(Six(a, 8), Six(b, 8))
  {
  }

  lemma SixXor16(a: bv32, b: bv32)
    ensures Six(Xor(a, b), 16) == Xor(Six(a, 16), Six(b, 16))
  {
  }

  lemma SixXor24(a: bv32, b: bv32)
    ensures Six(Xor(a, b), 24) == Xor(Six(a, 24), Six(b, 24))
  {
  }

  lemma SixXor(a: bv32, b: bv32)
    ensures Six(Xor(a, b), 0) == Xor(Six(a, 0), Six(b, 0)) && Six(Xor(a, b), 8) == Xor(Six(a, 8), Six(b, 8))
    ensures Six(Xor(a, b), 16) == Xor(Six(a, 16), Six(b, 16)) && Six(Xor(a, b), 24) == Xor(Six(a, 24), Six(b, 24))
  {
    hide Six, Xor;
    SixXor0(a, b);
    SixXor8(a, b);
    SixXor16(a, b);
    SixXor24(a, b);
  }

  lemma XorCommutes(x: bv32, y: bv32)
    ensures Xor(x, y) == Xor(y, x)
  {
  }

  // Two sums with one more term each.
  lemma XorPairs(x: bv32, y: bv32, a: bv32, b: bv32)
    ensures Xor(Xor(x, a), Xor(y, b)) == Xor(Xor(Xor(x, y), a), b)
  {
    hide Xor;
    XorAssociates(x, a, Xor(y, b));
    XorAssociates(a, y, b);
    XorCommutes(a, y);
    XorAssociates(y, a, b);
    XorAssociates(x, y, Xor(a, b));
    XorAssociates(Xor(x, y), a, b);
  }

  // x, with a to h added in the order of the macro, is x with their sum added.
  lemma Reordered(x: bv32, a: bv32, b: bv32, c: bv32, d: bv32, e: bv32, f: bv32, g: bv32, h: bv32)
    ensures Xor4(Xor4(x, h, f, d, b), g, e, c, a) == Xor(x, Xor(Xor(Xor(Xor(Xor(Xor(Xor(h, g), f), e), d), c), b), a))
  {
    hide Xor4, Xor;
    var even, odd := Xor(Xor(Xor(h, f), d), b), Xor(Xor(Xor(g, e), c), a);
    Xor4Mask(x, h, f, d, b);
    Xor4Mask(Xor(x, even), g, e, c, a);
    XorAssociates(x, even, odd);
    XorPairs(Xor(Xor(h, f), d), Xor(Xor(g, e), c), b, a);
    XorPairs(Xor(h, f), Xor(g, e), d, c);
    XorPairs(h, g, f, e);
  }

  /** DES_ROUND adds to the word the sum of the eight tables, each at its group of the expanded half
      with the key bits added; the half is the other word rotated back. */
  lemma RoundIsStandard(box: Boxes, to: bv32, from: bv32, k0: bv32, k1: bv32)
    ensures Round(box, to, from, k0, k1) == Xor(to, Summed(box, RotateRight1(from), k0, k1, 1))
  {
    hide Six, Xor, Xor4, RotateRight1, RotateRight4, Expanded, Summed;
    var r := RotateRight1(from);
    SixXor(from, k0);
    SixXor(RotateRight4(from), k1);
    Group1(from);
    Group2(from);
    Group3(from);
    Group4(from);
    Group5(from);
    Group6(from);
    Group7(from);
    Group8(from);
    SummedAll(box, r, k0, k1);
    Reordered(to, Looked(box, r, k0, k1, 1), Looked(box, r, k0, k1, 2), Looked(box, r, k0, k1, 3), Looked(box, r, k0, k1, 4),
              Looked(box, r, k0, k1, 5), Looked(box, r, k0, k1, 6), Looked(box, r, k0, k1, 7), Looked(box, r, k0, k1, 8));
  }

  lemma SummedAll(box: Boxes, r: bv32, k0: bv32, k1: bv32)
    ensures Summed(box, r, k0, k1, 1) ==
      Xor(Xor(Xor(Xor(Xor(Xor(Xor(Looked(box, r, k0, k1, 8), Looked(box, r, k0, k1, 7)), Looked(box, r, k0, k1, 6)), Looked(box, r, k0, k1, 5)),
          Looked(box, r, k0, k1, 4)), Looked(box, r, k0, k1, 3)), Looked(box, r, k0, k1, 2)), Looked(box, r, k0, k1, 1))
  {
    hide Looked, Xor;
    assert Summed(box, r, k0, k1, 7) == Xor(Looked(box, r, k0, k1, 8), Looked(box, r, k0, k1, 7));
    assert Summed(box, r, k0, k1, 5) == Xor(Xor(Summed(box, r, k0, k1, 7), Looked(box, r, k0, k1, 6)), Looked(box, r, k0, k1, 5));
    assert Summed(box, r, k0, k1, 3) == Xor(Xor(Summed(box, r, k0, k1, 5), Looked(box, r, k0, k1, 4)), Looked(box, r, k0, k1, 3));
  }

  // ---- the cipher ----

  // The cipher function f: the tables are rotated by one, as the words are.
  function CipherFunction(box: Boxes, r: bv32, k0: bv32, k1: bv32): bv32 {
    RotateRight1(Summed(box, r, k0, k1, 1))
  }

  /** The rounds of FIPS 46-3: L' = R and R' = L + f(R, K), a pair of words for each key. */
  function Rounds(box: Boxes, l: bv32, r: bv32, ks: seq<bv32>): (bv32, bv32)
    decreases |ks|
  {
    if |ks| < 2 then (l, r) else Rounds(box, r, Xor(l, CipherFunction(box, r, ks[0], ks[1])), ks[2..])
  }

  lemma RotatedXor(a: bv32, b: bv32)
    ensures Xor(RotateLeft1(a), b) == RotateLeft1(Xor(a, RotateRight1(b)))
  {
  }

  lemma {:induction false} FeistelIsRounds(box: Boxes, l: bv32, r: bv32, ks: seq<bv32>)
    ensures var e := Rounds(box, l, r, ks); Feistel(box, RotateLeft1(l), RotateLeft1(r), ks) == (RotateLeft1(e.0), RotateLeft1(e.1))
    decreases |ks|
  {
    if |ks| >= 2 {
      var f := Summed(box, r, ks[0], ks[1], 1);
      RoundIsStandard(box, RotateLeft1(l), RotateLeft1(r), ks[0], ks[1]);
      RotateBack(r);
      RotatedXor(l, f);
      hide Summed, Xor, RotateLeft1, RotateRight1, Round;
      FeistelIsRounds(box, r, Xor(l, RotateRight1(f)), ks[2..]);
    }
  }

  /** gl_des_ecb_crypt is the cipher of FIPS 46-3: IP of the output is what sixteen rounds make of IP
      of the input, the halves exchanged. */
  lemma DesIsStandard(box: Boxes, ks: seq<bv32>, d: seq<bv8>)
    requires |ks| == 32 && |d| == 8
    ensures var e, o := Rounds(box, IPLeft(Read(d)), IPRight(Read(d)), ks), Read(Crypt(box, ks, d));
      IPLeft(o) == e.1 && IPRight(o) == e.0
  {
    hide IPLeft, IPRight, Read, Close, Feistel, Rounds, RotateLeft1, RotateRight1, Initial;
    var e := Rounds(box, IPLeft(Read(d)), IPRight(Read(d)), ks);
    InitialIsTable(Read(d));
    FeistelIsRounds(box, IPLeft(Read(d)), IPRight(Read(d)), ks);
    OpenClose(RotateLeft1(e.0), RotateLeft1(e.1));
    var o := Read(Crypt(box, ks, d));
    InitialIsTable(o);
    RotateBack(e.0);
    RotateBack(e.1);
    RotateBack(IPLeft(o));
    RotateBack(IPRight(o));
  }
}

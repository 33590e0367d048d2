/** DES and triple DES of src/core/dfs_math.c, for any substitution tables and any subkeys. */
module Des {
  import opened DesWords
  import opened DesKeys

  // ---- the rounds ----

  // Alternating rounds, two subkeys each: to is changed by from, then the roles swap.
  function Feistel(box: Boxes, to: bv32, from: bv32, ks: seq<bv32>): (bv32, bv32)
    decreases |ks|
  {
    if |ks| < 2 then (to, from)
    else Feistel(box, from, Round(box, to, from, ks[0], ks[1]), ks[2..])
  }

  lemma {:induction false} FeistelConcat(box: Boxes, to: bv32, from: bv32, a: seq<bv32>, b: seq<bv32>)
    requires |a| % 2 == 0
    ensures Feistel(box, to, from, a + b) == (var m := Feistel(box, to, from, a); Feistel(box, m.0, m.1, b))
    decreases |a|
  {
    if a == [] {
      assert a + b == b;
    } else {
      assert (a + b)[0] == a[0] && (a + b)[1] == a[1] && (a + b)[2..] == a[2..] + b;
      FeistelConcat(box, from, Round(box, to, from, a[0], a[1]), a[2..], b);
    }
  }

  /** Running the pairs backwards from the swapped result gives the swapped start, for any
      number of rounds. */
  lemma {:induction false} FeistelBack(box: Boxes, to: bv32, from: bv32, ks: seq<bv32>)
    requires |ks| % 2 == 0
    ensures var e := Feistel(box, to, from, ks); Feistel(box, e.1, e.0, PairReverse(ks)) == (from, to)
    decreases |ks|
  {
    if |ks| >= 2 {
      var to', rest := Round(box, to, from, ks[0], ks[1]), ks[2..];
      var e := Feistel(box, from, to', rest);
      FeistelBack(box, from, to', rest);
      FeistelConcat(box, e.1, e.0, PairReverse(rest), ks[..2]);
      OneRound(box, to', from, ks[..2]);
      RoundTwice(box, to, from, ks[0], ks[1]);
    }
  }

  lemma OneRound(box: Boxes, to: bv32, from: bv32, ks: seq<bv32>)
    requires |ks| == 2
    ensures Feistel(box, to, from, ks) == (from, Round(box, to, from, ks[0], ks[1]))
  {
    hide Round;
    assert Feistel(box, from, Round(box, to, from, ks[0], ks[1]), ks[2..]) == (from, Round(box, to, from, ks[0], ks[1]));
  }

  // ---- one block ----

  /** READ_64BIT_DATA */
  function Read(d: seq<bv8>): Words
    requires |d| == 8
  {
    Words(Word(d[0], d[1], d[2], d[3]), Word(d[4], d[5], d[6], d[7]))
  }

  /** WRITE_64BIT_DATA */
  function Write(w: Words): (d: seq<bv8>)
    ensures |d| == 8
  {
    [Byte(w.left, 24), Byte(w.left, 16), Byte(w.left, 8), Byte(w.left, 0),
     Byte(w.right, 24), Byte(w.right, 16), Byte(w.right, 8), Byte(w.right, 0)]
  }

  lemma ReadWrite(w: Words)
    ensures Read(Write(w)) == w
  {
    hide Byte, Word;
    WordOfBytes(w.left);
    WordOfBytes(w.right);
  }

  lemma WriteRead(d: seq<bv8>)
    requires |d| == 8
    ensures Write(Read(d)) == d
  {
    hide Byte, Word;
    BytesOfWord(d[0], d[1], d[2], d[3]);
    BytesOfWord(d[4], d[5], d[6], d[7]);
  }

  /** The first byte is the most significant one of the first word. */
  lemma ByteOrder()
    ensures Read([0x01, 0x23, 0x45, 0x67, 0x89, 0xab, 0xcd, 0xef]) == Words(0x01234567, 0x89abcdef)
  {
  }

  // A block between the two permutations.
  function Open(d: seq<bv8>): Words
    requires |d| == 8
  {
    Initial(Read(d))
  }

  // The last lines of both ciphers: FINAL_PERMUTATION and writing with the words exchanged.
  function Close(left: bv32, right: bv32): (d: seq<bv8>)
    ensures |d| == 8
  {
    Write(Final(Words(right, left)))
  }

  // Opening what was closed gives the words exchanged; closing them exchanged gives the block.
  lemma OpenClose(left: bv32, right: bv32)
    ensures Open(Close(left, right)) == Words(right, left)
  {
    hide Initial, Final, Read, Write;
    ReadWrite(Final(Words(right, left)));
    InitialFinal(Words(right, left));
  }

  lemma CloseOpen(d: seq<bv8>)
    requires |d| == 8
    ensures Close(Open(d).right, Open(d).left) == d
  {
    hide Initial, Final, Read, Write;
    FinalInitial(Read(d));
    WriteRead(d);
  }

  /** gl_des_ecb_crypt on one block. */
  function Crypt(box: Boxes, ks: seq<bv32>, d: seq<bv8>): (r: seq<bv8>)
    requires |ks| == 32 && |d| == 8
    ensures |r| == 8
  {
    var w := Open(d);
    var e := Feistel(box, w.left, w.right, ks);
    Close(e.0, e.1)
  }

  /** gl_3des_ecb_crypt on one block: the middle sixteen rounds run with the words exchanged. */
  function Crypt3(box: Boxes, ks: seq<bv32>, d: seq<bv8>): (r: seq<bv8>)
    requires |ks| == 96 && |d| == 8
    ensures |r| == 8
  {
    var w := Open(d);
    var e1 := Feistel(box, w.left, w.right, ks[..32]);
    var e2 := Feistel(box, e1.1, e1.0, ks[32..64]);
    var e3 := Feistel(box, e2.1, e2.0, ks[64..]);
    Close(e3.0, e3.1)
  }

  /** Decrypting with the reversed subkeys undoes encrypting. */
  lemma CryptBack(box: Boxes, ks: seq<bv32>, d: seq<bv8>)
    requires |ks| == 32 && |d| == 8
    ensures Crypt(box, PairReverse(ks), Crypt(box, ks, d)) == d
  {
    hide Open, Close, Feistel, PairReverse;
    var w := Open(d);
    var e := Feistel(box, w.left, w.right, ks);
    OpenClose(e.0, e.1);
    FeistelBack(box, w.left, w.right, ks);
    CloseOpen(d);
  }

  /** Triple DES is three passes of DES in a row: the inner permutations cancel. */
  lemma TripleIsThree(box: Boxes, k1: seq<bv32>, k2: seq<bv32>, k3: seq<bv32>, d: seq<bv8>)
    requires |k1| == |k2| == |k3| == 32 && |d| == 8
    ensures Crypt3(box, k1 + k2 + k3, d) == Crypt(box, k3, Crypt(box, k2, Crypt(box, k1, d)))
  {
    var ks := k1 + k2 + k3;
    assert ks[..32] == k1 && ks[32..64] == k2 && ks[64..] == k3;
    hide Open, Close, Feistel;
    var w := Open(d);
    var e1 := Feistel(box, w.left, w.right, k1);
    OpenClose(e1.0, e1.1);
    var e2 := Feistel(box, e1.1, e1.0, k2);
    OpenClose(e2.0, e2.1);
  }

  /** Triple DES is undone by the reversed subkeys, all 48 rounds. */
  lemma Crypt3Back(box: Boxes, k1: seq<bv32>, k2: seq<bv32>, k3: seq<bv32>, d: seq<bv8>)
    requires |k1| == |k2| == |k3| == 32 && |d| == 8
    ensures Crypt3(box, PairReverse(k1 + k2 + k3), Crypt3(box, k1 + k2 + k3, d)) == d
  {
    hide Crypt, Crypt3, PairReverse;
    var d1 := Crypt(box, k1, d);
    var d2 := Crypt(box, k2, d1);
    var d3 := Crypt(box, k3, d2);
    TripleIsThree(box, k1, k2, k3, d);
    ReverseConcat(k1 + k2, k3);
    ReverseConcat(k1, k2);
    assert PairReverse(k3) + (PairReverse(k2) + PairReverse(k1)) == PairReverse(k3) + PairReverse(k2) + PairReverse(k1);
    TripleIsThree(box, PairReverse(k3), PairReverse(k2), PairReverse(k1), d3);
    CryptBack(box, k3, d2);
    CryptBack(box, k2, d1);
    CryptBack(box, k1, d);
  }

  /** With the arrays gl_3des_set3keys leaves, decrypting undoes encrypting, and encrypting is
      encrypt, decrypt, encrypt under the three keys. With s3 == s1 these are the arrays of
      gl_3des_set2keys. */
  lemma TripleDes(box: Boxes, s1: seq<bv32>, s2: seq<bv32>, s3: seq<bv32>, d: seq<bv8>)
    requires |s1| == |s2| == |s3| == 32 && |d| == 8
    ensures var e, r := s1 + PairReverse(s2) + s3, PairReverse(s3) + s2 + PairReverse(s1);
      && Crypt3(box, r, Crypt3(box, e, d)) == d
      && Crypt3(box, e, d) == Crypt(box, s3, Crypt(box, PairReverse(s2), Crypt(box, s1, d)))
  {
    hide Crypt3, Crypt, PairReverse;
    var e := s1 + PairReverse(s2) + s3;
    ReverseConcat(s1 + PairReverse(s2), s3);
    ReverseConcat(s1, PairReverse(s2));
    ReverseTwice(s2);
    assert PairReverse(s3) + (s2 + PairReverse(s1)) == PairReverse(s3) + s2 + PairReverse(s1);
    Crypt3Back(box, s1, PairReverse(s2), s3, d);
    TripleIsThree(box, s1, PairReverse(s2), s3, d);
  }

  // ---- set the keys, encrypt, decrypt ----

  /** gl_des_setkey, then gl_des_ecb_crypt with either array: the block comes back. */
  method DesThere(ctx: Context<bv32>, box: Boxes, schedule: seq<bv32>, d: seq<bv8>) returns (e: seq<bv8>, back: seq<bv8>)
    requires ctx.encrypt.Length == ctx.decrypt.Length == 32 && ctx.encrypt != ctx.decrypt && |schedule| == 32 && |d| == 8
    modifies ctx.encrypt, ctx.decrypt
    ensures e == Crypt(box, schedule, d) && back == d
  {
    hide Crypt, PairReverse;
    ctx.SetKey(schedule);
    e := Crypt(box, ctx.encrypt[..], d);
    back := Crypt(box, ctx.decrypt[..], e);
    CryptBack(box, schedule, d);
  }

  /** gl_3des_set2keys, then gl_3des_ecb_crypt with either array. */
  method TwoKeysThere(ctx: Context<bv32>, box: Boxes, s1: seq<bv32>, s2: seq<bv32>, d: seq<bv8>) returns (e: seq<bv8>, back: seq<bv8>)
    requires ctx.encrypt.Length == ctx.decrypt.Length == 96 && ctx.encrypt != ctx.decrypt && |s1| == |s2| == 32 && |d| == 8
    modifies ctx.encrypt, ctx.decrypt
    ensures e == Crypt(box, s1, Crypt(box, PairReverse(s2), Crypt(box, s1, d))) && back == d
  {
    hide Crypt, Crypt3, PairReverse;
    ctx.Set2Keys(s1, s2);
    e := Crypt3(box, ctx.encrypt[..], d);
    back := Crypt3(box, ctx.decrypt[..], e);
    TripleDes(box, s1, s2, s1, d);
  }

  /** gl_3des_set3keys, then gl_3des_ecb_crypt with either array. */
  method ThreeKeysThere(ctx: Context<bv32>, box: Boxes, s1: seq<bv32>, s2: seq<bv32>, s3: seq<bv32>, d: seq<bv8>) returns (e: seq<bv8>, back: seq<bv8>)
    requires ctx.encrypt.Length == ctx.decrypt.Length == 96 && ctx.encrypt != ctx.decrypt && |s1| == |s2| == |s3| == 32 && |d| == 8
    modifies ctx.encrypt, ctx.decrypt
    ensures e == Crypt(box, s3, Crypt(box, PairReverse(s2), Crypt(box, s1, d))) && back == d
  {
    hide Crypt, Crypt3, PairReverse;
    ctx.Set3Keys(s1, s2, s3);
    e := Crypt3(box, ctx.encrypt[..], d);
    back := Crypt3(box, ctx.decrypt[..], e);
    TripleDes(box, s1, s2, s3, d);
  }
}

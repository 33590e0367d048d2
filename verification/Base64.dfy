/** string_base64_encode and string_base64_decode of src/core/dfs_string.c. Shifts and masks of
    bytes are written as divisions and remainders. */
module Base64 {
  import opened Octets

  const PAD := 61    // '='
  const BAD := 77    // the decoding table's mark for a character outside the alphabet

  // The encoding alphabet.
  function Symbol(v: int): int {
    if v < 26 then 65 + v
    else if v < 52 then 97 + (v - 26)
    else if v < 62 then 48 + (v - 52)
    else if v == 62 then 43
    else 47
  }

  // The decoding table.
  function Value(ch: int): int {
    if ch == 43 then 62
    else if ch == 47 then 63
    else if 48 <= ch <= 57 then ch - 48 + 52
    else if 65 <= ch <= 90 then ch - 65
    else if 97 <= ch <= 122 then ch - 97 + 26
    else BAD
  }

  lemma ValueOfSymbol(v: int)
    requires 0 <= v < 64
    ensures Value(Symbol(v)) == v && Symbol(v) != PAD && 0 <= Symbol(v) < 128
  {
  }

  const UPPER := "ABCDEFGHIJKLMNOPQRSTUVWXYZ"
  const LOWER := "abcdefghijklmnopqrstuvwxyz"
  const DIGITS := "0123456789"

  /** The alphabet is that of table 1 of RFC 4648. */
  lemma SymbolIsAlphabet(v: int)
    requires 0 <= v < 64
    ensures |UPPER + LOWER + DIGITS + "+/"| == 64 && Symbol(v) == (UPPER + LOWER + DIGITS + "+/")[v] as int
  {
  }

  // ---- encoding ----

  function Quad(a: int, b: int, c: int): Bytes {
    [Symbol(a / 4), Symbol(a % 4 * 16 + b / 16), Symbol(b % 16 * 4 + c / 64), Symbol(c % 64)]
  }

  function Tail(s: Bytes): Bytes {
    if |s| == 0 then []
    else if |s| == 1 then [Symbol(s[0] / 4), Symbol(s[0] % 4 * 16), PAD, PAD]
    else [Symbol(s[0] / 4), Symbol(s[0] % 4 * 16 + s[1] / 16), Symbol(s[1] % 16 * 4), PAD]
  }

  function Encode(s: Bytes): Bytes {
    if |s| > 2 then Quad(s[0], s[1], s[2]) + Encode(s[3..]) else Tail(s)
  }

  /** Four symbols are the digits, to base 64, of the number that three bytes are to base 256. */
  lemma QuadNumber(a: int, b: int, c: int)
    requires 0 <= a < 256 && 0 <= b < 256 && 0 <= c < 256
    ensures var q := Quad(a, b, c);
      && (forall i :: 0 <= i < 4 ==> 0 <= Value(q[i]) < 64 && q[i] == Symbol(Value(q[i])))
      && Value(q[0]) * 262144 + Value(q[1]) * 4096 + Value(q[2]) * 64 + Value(q[3]) == a * 65536 + b * 256 + c
  {
    ValueOfSymbol(a / 4);
    ValueOfSymbol(a % 4 * 16 + b / 16);
    ValueOfSymbol(b % 16 * 4 + c / 64);
    ValueOfSymbol(c % 64);
  }

  /** Section 10 of RFC 4648: "foobar" and its first four letters, encoded. */
  lemma TestVectors()
    ensures Encode([102]) == [90, 103, PAD, PAD] && Encode([102, 111]) == [90, 109, 56, PAD] && Encode([102, 111, 111]) == [90, 109, 57, 118]
    ensures Encode([102, 111, 111, 98]) == [90, 109, 57, 118, 89, 103, PAD, PAD]
    ensures Encode([102, 111, 111, 98, 97, 114]) == [90, 109, 57, 118, 89, 109, 70, 121]
  {
    assert [102, 111, 111, 98][3..] == [98];
    assert [102, 111, 111, 98, 97, 114][3..] == [98, 97, 114];
    assert [98, 97, 114][3..] == [];
    assert [102, 111, 111][3..] == [];
  }

  lemma {:induction false} EncodedLength(s: Bytes)
    ensures |Encode(s)| == (|s| + 2) / 3 * 4
  {
    if |s| > 2 {
      EncodedLength(s[3..]);
    }
  }

  // ---- decoding ----

  datatype Decoded = Ok(bytes: Bytes) | Error

  // Characters before the first '='.
  function Body(s: Bytes): Bytes {
    if s == [] || s[0] == PAD then [] else [s[0]] + Body(s[1..])
  }

  predicate AllKnown(s: Bytes) {
    s == [] || (Value(s[0]) != BAD && AllKnown(s[1..]))
  }

  function Triple(a: int, b: int, c: int, d: int): Bytes {
    [a * 4 % 256 + b / 16, b * 16 % 256 + c / 4, c * 64 % 256 + d]
  }

  // The bytes of a body, four characters at a time.
  function Unpack(s: Bytes): Bytes {
    if |s| > 3 then Triple(Value(s[0]), Value(s[1]), Value(s[2]), Value(s[3])) + Unpack(s[4..])
    else if |s| == 3 then Triple(Value(s[0]), Value(s[1]), Value(s[2]), 0)[..2]
    else if |s| == 2 then Triple(Value(s[0]), Value(s[1]), 0, 0)[..1]
    else []
  }

  function Decode(s: Bytes): Decoded {
    if !AllKnown(Body(s)) || |Body(s)| % 4 == 1 then Error else Ok(Unpack(Body(s)))
  }

  // ---- decoding undoes encoding ----

  lemma QuadBack(a: int, b: int, c: int)
    requires 0 <= a < 256 && 0 <= b < 256 && 0 <= c < 256
    ensures var q := Quad(a, b, c);
      && Triple(Value(q[0]), Value(q[1]), Value(q[2]), Value(q[3])) == [a, b, c]
      && (forall i :: 0 <= i < 4 ==> q[i] != PAD && Value(q[i]) != BAD)
  {
    ValueOfSymbol(a / 4);
    ValueOfSymbol(a % 4 * 16 + b / 16);
    ValueOfSymbol(b % 16 * 4 + c / 64);
    ValueOfSymbol(c % 64);
    hide Symbol, Value;
    Bits(a, b, c);
  }

  lemma Bits1(a: int, b: int)
    requires 0 <= a < 256 && 0 <= b < 256
    ensures (a / 4) * 4 % 256 + (a % 4 * 16 + b / 16) / 16 == a
  {
    assert (a % 4 * 16 + b / 16) / 16 == a % 4;
  }

  lemma Bits2(a: int, b: int, c: int)
    requires 0 <= a < 4 && 0 <= b < 256 && 0 <= c < 4
    ensures (a * 16 + b / 16) * 16 % 256 + (b % 16 * 4 + c) / 4 == b
  {
    assert (b % 16 * 4 + c) / 4 == b % 16;
    assert (a * 16 + b / 16) * 16 == a * 256 + b / 16 * 16;
  }

  lemma Bits3(b: int, c: int)
    requires 0 <= b < 16 && 0 <= c < 256
    ensures (b * 4 + c / 64) * 64 % 256 + c % 64 == c
  {
    assert (b * 4 + c / 64) * 64 == b * 256 + c / 64 * 64;
  }

  lemma Bits(a: int, b: int, c: int)
    requires 0 <= a < 256 && 0 <= b < 256 && 0 <= c < 256
    ensures (a / 4) * 4 % 256 + (a % 4 * 16 + b / 16) / 16 == a
    ensures (a % 4 * 16 + b / 16) * 16 % 256 + (b % 16 * 4 + c / 64) / 4 == b
    ensures (b % 16 * 4 + c / 64) * 64 % 256 + c % 64 == c
  {
    Bits1(a, b);
    Bits2(a % 4, b, c / 64);
    Bits3(b % 16, c);
  }

  lemma BodyOf(a: Bytes, s: Bytes)
    requires |a| == 4 && forall i :: 0 <= i < 4 ==> a[i] != PAD && Value(a[i]) != BAD
    ensures Body(a + s) == a + Body(s) && (AllKnown(a + Body(s)) <==> AllKnown(Body(s)))
  {
    var t1, t2, t3 := (a + s)[1..], (a + s)[2..], (a + s)[3..];
    assert t1[1..] == t2 && t2[1..] == t3 && t3[1..] == s;
    assert Body(t3) == [a[3]] + Body(s);
    assert Body(t2) == [a[2]] + Body(t3);
    assert Body(t1) == [a[1]] + Body(t2);
    var b := a + Body(s);
    assert b[1..][1..][1..][1..] == Body(s);
    assert AllKnown(b[1..][1..][1..]) <==> AllKnown(Body(s));
    assert AllKnown(b[1..][1..]) <==> AllKnown(Body(s));
    assert AllKnown(b[1..]) <==> AllKnown(Body(s));
  }

  lemma TailBack(s: Bytes)
    requires AreBytes(s) && |s| <= 2
    ensures var b := Body(Tail(s)); AllKnown(b) && |b| == (if |s| == 0 then 0 else |s| + 1) && Unpack(b) == s
  {
    if |s| == 1 {
      TailOne(s[0]);
      assert s == [s[0]];
    } else if |s| == 2 {
      TailTwo(s[0], s[1]);
      assert s == [s[0], s[1]];
    }
  }

  lemma TailOne(a: int)
    requires 0 <= a < 256
    ensures var b := Body(Tail([a])); AllKnown(b) && |b| == 2 && Unpack(b) == [a]
  {
    hide Symbol, Value, Body, AllKnown;
    var x, y := a / 4, a % 4 * 16;
    ValueOfSymbol(x);
    ValueOfSymbol(y);
    Short([Symbol(x), Symbol(y)], [PAD, PAD]);
    assert Tail([a]) == [Symbol(x), Symbol(y)] + [PAD, PAD];
    Bits1(a, 0);
  }

  lemma TailTwo(a: int, b: int)
    requires 0 <= a < 256 && 0 <= b < 256
    ensures var r := Body(Tail([a, b])); AllKnown(r) && |r| == 3 && Unpack(r) == [a, b]
  {
    hide Symbol, Value, Body, AllKnown;
    var x, y, z := a / 4, a % 4 * 16 + b / 16, b % 16 * 4;
    ValueOfSymbol(x);
    ValueOfSymbol(y);
    ValueOfSymbol(z);
    Short([Symbol(x), Symbol(y), Symbol(z)], [PAD]);
    assert Tail([a, b]) == [Symbol(x), Symbol(y), Symbol(z)] + [PAD];
    Bits(a, b, 0);
  }

  // A body in front of padding.
  lemma {:induction false} Short(a: Bytes, pad: Bytes)
    requires pad != [] && pad[0] == PAD && forall i :: 0 <= i < |a| ==> a[i] != PAD && Value(a[i]) != BAD
    ensures Body(a + pad) == a && AllKnown(a)
  {
    if a != [] {
      assert (a + pad)[1..] == a[1..] + pad;
      Short(a[1..], pad);
    } else {
      assert a + pad == pad;
    }
  }

  /** Decoding undoes encoding, for every byte string. */
  lemma {:induction false} DecodeEncode(s: Bytes)
    requires AreBytes(s)
    ensures Decode(Encode(s)) == Ok(s)
  {
    BodyBack(s);
  }

  lemma {:induction false} BodyBack(s: Bytes)
    requires AreBytes(s)
    ensures var b := Body(Encode(s)); AllKnown(b) && |b| % 4 != 1 && Unpack(b) == s
  {
    hide *;
    if |s| > 2 {
      var t := s[3..];
      EncodeStep(s);
      BytesAt(s);
      BodyBack(t);
      QuadThen(s[0], s[1], s[2], Encode(t));
      assert s == [s[0], s[1], s[2]] + t;
    } else {
      EncodeShort(s);
      TailBack(s);
    }
  }

  lemma EncodeShort(s: Bytes)
    requires |s| <= 2
    ensures Encode(s) == Tail(s)
  {
  }

  // Four characters in front of more.
  lemma QuadThen(a: int, b: int, c: int, e: Bytes)
    requires 0 <= a < 256 && 0 <= b < 256 && 0 <= c < 256
    ensures var body := Body(Quad(a, b, c) + e);
      && (AllKnown(body) <==> AllKnown(Body(e))) && |body| == 4 + |Body(e)| && Unpack(body) == [a, b, c] + Unpack(Body(e))
  {
    hide *;
    QuadBack(a, b, c);
    QuadLength(a, b, c);
    BodyOf(Quad(a, b, c), e);
    UnpackQuad(Quad(a, b, c), Body(e));
  }

  lemma BytesAt(s: Bytes)
    requires AreBytes(s) && |s| >= 3
    ensures 0 <= s[0] < 256 && 0 <= s[1] < 256 && 0 <= s[2] < 256 && AreBytes(s[3..])
  {
  }

  lemma EncodeStep(s: Bytes)
    requires |s| > 2
    ensures Encode(s) == Quad(s[0], s[1], s[2]) + Encode(s[3..])
  {
  }

  lemma QuadLength(a: int, b: int, c: int)
    ensures |Quad(a, b, c)| == 4
  {
  }

  lemma UnpackQuad(q: Bytes, b: Bytes)
    requires |q| == 4
    ensures Unpack(q + b) == Triple(Value(q[0]), Value(q[1]), Value(q[2]), Value(q[3])) + Unpack(b)
  {
    assert (q + b)[4..] == b;
  }

  // ---- the programs ----

  method Put4(dst: array<int>, n: int, a: int, b: int, c: int, d: int)
    requires 0 <= n && n + 4 <= dst.Length
    modifies dst
    ensures dst[..n + 4] == old(dst[..n]) + [a, b, c, d]
  {
    dst[n], dst[n + 1], dst[n + 2], dst[n + 3] := a, b, c, d;
  }

  /** string_base64_encode */
  method EncodeInto(dst: array<int>, src: seq<int>) returns (n: int)
    requires dst.Length >= (|src| + 2) / 3 * 4
    modifies dst
    ensures 0 <= n <= dst.Length && dst[..n] == Encode(src)
  {
    hide Encode, Quad, Tail, Symbol;
    EncodedLength(src);
    var len, i := |src|, 0;
    n := 0;
    assert src[0..] == src && dst[..0] == [];
    while len > 2
      invariant 0 <= i && 0 <= len && i + len == |src| && 0 <= n <= dst.Length
      invariant dst[..n] + Encode(src[i..]) == Encode(src)
      decreases len
    {
      EncodedLength(src[i..]);
      Step(dst[..n], src, i);
      Put4(dst, n, Symbol(src[i] / 4), Symbol(src[i] % 4 * 16 + src[i + 1] / 16),
           Symbol(src[i + 1] % 16 * 4 + src[i + 2] / 64), Symbol(src[i + 2] % 64));
      n, i, len := n + 4, i + 3, len - 3;
    }
    EncodedLength(src[i..]);
    Last(src[i..]);
    if len > 0 {
      if len == 1 {
        Put4(dst, n, Symbol(src[i] / 4), Symbol(src[i] % 4 * 16), PAD, PAD);
      } else {
        Put4(dst, n, Symbol(src[i] / 4), Symbol(src[i] % 4 * 16 + src[i + 1] / 16), Symbol(src[i + 1] % 16 * 4), PAD);
      }
      n := n + 4;
    }
  }

  lemma Last(s: Bytes)
    requires |s| <= 2
    ensures |s| == 0 ==> Encode(s) == []
    ensures |s| == 1 ==> Encode(s) == [Symbol(s[0] / 4), Symbol(s[0] % 4 * 16), PAD, PAD]
    ensures |s| == 2 ==> Encode(s) == [Symbol(s[0] / 4), Symbol(s[0] % 4 * 16 + s[1] / 16), Symbol(s[1] % 16 * 4), PAD]
  {
  }

  lemma Step(done: Bytes, all: Bytes, i: int)
    requires 0 <= i && i + 2 < |all|
    ensures done + Encode(all[i..]) ==
      (done + [Symbol(all[i] / 4), Symbol(all[i] % 4 * 16 + all[i + 1] / 16),
               Symbol(all[i + 1] % 16 * 4 + all[i + 2] / 64), Symbol(all[i + 2] % 64)]) + Encode(all[i + 3..])
  {
    assert all[i..][3..] == all[i + 3..];
  }

  // The first loop of string_base64_decode: where the body ends, unless a character is unknown.
  method Scan(src: seq<int>) returns (ok: bool, len: int)
    ensures ok <==> AllKnown(Body(src))
    ensures ok ==> 0 <= len <= |src| && src[..len] == Body(src)
  {
    hide Body, AllKnown, Value;
    len := 0;
    assert src[0..] == src && src[..0] == [];
    while len < |src|
      invariant 0 <= len <= |src| && Body(src) == src[..len] + Body(src[len..])
      invariant AllKnown(Body(src)) <==> AllKnown(Body(src[len..]))
    {
      BodyAt(src, len);
      if src[len] == PAD {
        return true, len;
      }
      if Value(src[len]) == BAD {
        return false, len;
      }
      len := len + 1;
    }
    BodyEnd(src[len..]);
    ok := true;
  }

  // One character of the body.
  lemma BodyAt(s: Bytes, i: int)
    requires 0 <= i < |s|
    ensures s[i] == PAD ==> Body(s[i..]) == [] && AllKnown(Body(s[i..]))
    ensures s[i] != PAD ==> Body(s[i..]) == [s[i]] + Body(s[i + 1..])
    ensures s[i] != PAD ==> (AllKnown(Body(s[i..])) <==> Value(s[i]) != BAD && AllKnown(Body(s[i + 1..])))
    ensures s[..i + 1] == s[..i] + [s[i]]
  {
    assert s[i..][1..] == s[i + 1..];
    assert ([s[i]] + Body(s[i + 1..]))[1..] == Body(s[i + 1..]);
  }

  lemma BodyEnd(s: Bytes)
    requires s == []
    ensures Body(s) == [] && AllKnown(Body(s))
  {
  }

  method Put3(dst: array<int>, n: int, t: seq<int>, k: int)
    requires 0 <= n && n + k <= dst.Length && |t| == 3 && 1 <= k <= 3
    modifies dst
    ensures dst[..n + k] == old(dst[..n]) + t[..k]
  {
    dst[n] := t[0];
    if k > 1 {
      dst[n + 1] := t[1];
    }
    if k > 2 {
      dst[n + 2] := t[2];
    }
  }

  /** string_base64_decode */
  method DecodeInto(dst: array<int>, src: seq<int>) returns (ok: bool, n: int)
    requires dst.Length >= (|src| + 3) / 4 * 3
    modifies dst
    ensures ok <==> Decode(src).Ok?
    ensures ok ==> 0 <= n <= dst.Length && dst[..n] == Decode(src).bytes
  {
    hide AllKnown, Body, Unpack, Triple, Value;
    var len;
    n := 0;
    ok, len := Scan(src);
    if !ok || len % 4 == 1 {
      return false, 0;
    }
    var body := src[..len];
    var i := 0;
    assert body[0..] == body && dst[..0] == [];
    while len > 3
      invariant 0 <= i && 0 <= len && i + len == |body| && 0 <= n && n * 4 == i * 3
      invariant dst[..n] + Unpack(body[i..]) == Unpack(body)
      decreases len
    {
      More(dst[..n], body, i);
      var t := Triple(Value(body[i]), Value(body[i + 1]), Value(body[i + 2]), Value(body[i + 3]));
      Put3(dst, n, t, 3);
      n, i, len := n + 3, i + 4, len - 4;
    }
    Remainder(body[i..]);
    if len == 3 {
      Put3(dst, n, Triple(Value(body[i]), Value(body[i + 1]), Value(body[i + 2]), 0), 2);
      n := n + 2;
    } else if len == 2 {
      Put3(dst, n, Triple(Value(body[i]), Value(body[i + 1]), 0, 0), 1);
      n := n + 1;
    }
  }

  lemma More(done: Bytes, s: Bytes, i: int)
    requires 0 <= i && i + 3 < |s|
    ensures var t := Triple(Value(s[i]), Value(s[i + 1]), Value(s[i + 2]), Value(s[i + 3]));
      |t| == 3 && done + Unpack(s[i..]) == (done + t[..3]) + Unpack(s[i + 4..])
  {
    assert s[i..][4..] == s[i + 4..];
  }

  lemma Remainder(s: Bytes)
    requires |s| <= 3
    ensures |s| <= 1 ==> Unpack(s) == []
    ensures |s| >= 2 ==> |Triple(Value(s[0]), Value(s[1]), 0, 0)| == 3
    ensures |s| == 2 ==> Unpack(s) == Triple(Value(s[0]), Value(s[1]), 0, 0)[..1]
    ensures |s| == 3 ==> |Triple(Value(s[0]), Value(s[1]), Value(s[2]), 0)| == 3 && Unpack(s) == Triple(Value(s[0]), Value(s[1]), Value(s[2]), 0)[..2]
  {
  }
}

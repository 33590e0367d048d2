/** string_escape_uri and string_unescape_uri (type 0) of src/core/dfs_string.c. */
module Uri {
  import opened Log2
  import opened Octets

  const PERCENT := 37

  // A table of 256 bits in eight words.
  predicate Escapes(table: seq<nat>, ch: int)
    requires |table| == 8 && 0 <= ch < 256
  {
    Shift(table[ch / 32], ch % 32) % 2 == 1
  }

  const ALL := 0xffff_ffff
  const URI_TABLE: seq<nat> := [ALL, 0x80000029, 0, 0x80000000, ALL, ALL, ALL, ALL]
  const ARGS_TABLE: seq<nat> := [ALL, 0x80000829, 0, 0x80000000, ALL, ALL, ALL, ALL]
  const HTML_TABLE: seq<nat> := [ALL, 0x000000ad, 0, 0x80000000, ALL, ALL, ALL, ALL]
  const REFRESH_TABLE: seq<nat> := [ALL, 0x00000085, 0, 0x80000000, ALL, ALL, ALL, ALL]
  const MEMCACHED_TABLE: seq<nat> := [ALL, 0x00000021, 0, 0, 0, 0, 0, 0]

  /** Four of the five tables escape the escape character itself. */
  lemma WhoEscapesPercent()
    ensures Escapes(URI_TABLE, PERCENT) && Escapes(ARGS_TABLE, PERCENT) && Escapes(HTML_TABLE, PERCENT)
    ensures Escapes(MEMCACHED_TABLE, PERCENT) && !Escapes(REFRESH_TABLE, PERCENT)
  {
    TablesExactly(PERCENT);
  }

  // The bits of v that are set, counted from base.
  function OnBits(v: nat, base: nat): set<nat> {
    if v == 0 then {} else (if v % 2 == 1 then {base} else {}) + OnBits(v / 2, base + 1)
  }

  lemma {:induction false} OnBitsExactly(v: nat, base: nat, k: nat)
    ensures Shift(v, k) % 2 == 1 <==> base + k in OnBits(v, base)
    ensures forall b :: b in OnBits(v, base) ==> b >= base
    decreases v
  {
    if v == 0 {
      ShiftZero(k);
    } else {
      OnBitsExactly(v / 2, base + 1, if k > 0 then k - 1 else 0);
      if k > 0 {
        ShiftMore(v, 1, k - 1);
        assert Shift(v, 1) == v / 2;
      }
    }
  }

  lemma {:induction false} OnTop(v: nat, n: nat, base: nat)
    requires v < Pow2(n)
    ensures OnBits(v + Pow2(n), base) == OnBits(v, base) + {base + n}
    decreases n
  {
    if n == 0 {
      assert OnBits(1, base) == {base} + OnBits(0, base + 1);
    } else {
      OnTop(v / 2, n - 1, base + 1);
      assert (v + Pow2(n)) / 2 == v / 2 + Pow2(n - 1) && (v + Pow2(n)) % 2 == v % 2;
      assert v == 0 ==> OnBits(v / 2, base + 1) == {};
    }
  }

  lemma WordBits()
    ensures OnBits(0x21, 0) == {0, 5} && OnBits(0x85, 0) == {0, 2, 7} && OnBits(0xad, 0) == {0, 2, 3, 5, 7}
    ensures OnBits(0x80000029, 0) == {0, 3, 5, 31} && OnBits(0x80000829, 0) == {0, 3, 5, 11, 31} && OnBits(0x80000000, 0) == {31}
  {
    SmallPowers();
    Powers();
    hide OnBits, Pow2;
    NoBits();
    OnTop(0, 0, 0);
    OnTop(1, 5, 0);
    OnTop(1, 2, 0);
    OnTop(5, 7, 0);
    OnTop(5, 3, 0);
    OnTop(13, 5, 0);
    OnTop(45, 7, 0);
    OnTop(1, 3, 0);
    OnTop(9, 5, 0);
    OnTop(41, 31, 0);
    OnTop(41, 11, 0);
    OnTop(0x829, 31, 0);
    OnTop(0, 31, 0);
  }

  lemma NoBits()
    ensures OnBits(0, 0) == {}
  {
  }

  lemma SmallPowers()
    ensures Pow2(0) == 1 && Pow2(2) == 4 && Pow2(3) == 8 && Pow2(5) == 32 && Pow2(7) == 128 && Pow2(11) == 2048
  {
  }

  lemma {:induction false} AllBits(n: nat, k: nat)
    requires k < n
    ensures Shift(Pow2(n) - 1, k) % 2 == 1
  {
    ShiftOnce(Pow2(n) - 1);
    hide Shift;
    if k > 0 {
      AllBits(n - 1, k - 1);
      ShiftMore(Pow2(n) - 1, 1, k - 1);
      assert Pow2(n) == 2 * Pow2(n - 1);
    }
  }

  lemma ShiftOnce(v: nat)
    ensures Shift(v, 0) == v && Shift(v, 1) == v / 2
  {
  }

  // One byte of a row.
  lemma InRow(v: nat, k: nat)
    requires k < 32
    ensures Shift(v, k) % 2 == 1 <==> k in OnBits(v, 0)
    ensures v == ALL ==> Shift(v, k) % 2 == 1
    ensures v == 0 ==> Shift(v, k) == 0
  {
    Powers();
    hide OnBits, Pow2, Shift;
    AllBits(32, k);
    ShiftZero(k);
    OnBitsExactly(v, 0, k);
  }

  // Which bytes a table with these words for the first four rows escapes; the upper half is all or none.
  lemma Rows(table: seq<nat>, ch: int)
    requires |table| == 8 && 0 <= ch < 256 && table[0] == ALL && table[2] == 0
    ensures ch < 32 ==> Escapes(table, ch)
    ensures 32 <= ch < 64 ==> (Escapes(table, ch) <==> ch - 32 in OnBits(table[1], 0))
    ensures 64 <= ch < 96 ==> !Escapes(table, ch)
    ensures 96 <= ch < 128 ==> (Escapes(table, ch) <==> ch - 96 in OnBits(table[3], 0))
    ensures ch >= 128 && table[ch / 32] == ALL ==> Escapes(table, ch)
    ensures ch >= 128 && table[ch / 32] == 0 ==> !Escapes(table, ch)
  {
    hide OnBits, Shift;
    InRow(table[ch / 32], ch % 32);
  }

  /** What each table escapes: control characters and the space; a few marks; and, but for the
      last, the delete character and all bytes from 128 on. */
  lemma TablesExactly(ch: int)
    requires 0 <= ch < 256
    ensures Escapes(URI_TABLE, ch) <==> ch <= 32 || ch in {35, 37, 63} || ch >= 127
    ensures Escapes(ARGS_TABLE, ch) <==> ch <= 32 || ch in {35, 37, 43, 63} || ch >= 127
    ensures Escapes(HTML_TABLE, ch) <==> ch <= 32 || ch in {34, 35, 37, 39} || ch >= 127
    ensures Escapes(REFRESH_TABLE, ch) <==> ch <= 32 || ch in {34, 39} || ch >= 127
    ensures Escapes(MEMCACHED_TABLE, ch) <==> ch <= 32 || ch == 37
  {
    WordBits();
    NoBits();
    hide Escapes, OnBits;
    Rows(URI_TABLE, ch);
    Rows(ARGS_TABLE, ch);
    Rows(HTML_TABLE, ch);
    Rows(REFRESH_TABLE, ch);
    Rows(MEMCACHED_TABLE, ch);
  }

  function Hex(v: int): int {
    if v < 10 then 48 + v else 97 + (v - 10)
  }

  // The value of a hexadecimal digit of either case, or -1.
  function Digit(ch: int): int {
    if 48 <= ch <= 57 then ch - 48
    else if 97 <= ch <= 102 then ch - 97 + 10
    else if 65 <= ch <= 70 then ch - 65 + 10
    else -1
  }

  function EscapeOne(table: seq<nat>, ch: int): Bytes
    requires |table| == 8 && 0 <= ch < 256
  {
    if Escapes(table, ch) then [PERCENT, Hex(ch / 16), Hex(ch % 16)] else [ch]
  }

  function Escape(table: seq<nat>, s: Bytes): Bytes
    requires |table| == 8 && AreBytes(s)
  {
    if s == [] then [] else EscapeOne(table, s[0]) + Escape(table, s[1..])
  }

  function Count(table: seq<nat>, s: Bytes): nat
    requires |table| == 8 && AreBytes(s)
  {
    if s == [] then 0 else (if Escapes(table, s[0]) then 1 else 0) + Count(table, s[1..])
  }

  /** The counting pass gives the room needed. */
  lemma {:induction false} EscapedLength(table: seq<nat>, s: Bytes)
    requires |table| == 8 && AreBytes(s)
    ensures |Escape(table, s)| == |s| + 2 * Count(table, s)
  {
    if s != [] {
      EscapedLength(table, s[1..]);
    }
  }

  datatype State = Usual | Quoted | Second(decoded: int)

  // One character of string_unescape_uri: what is written, and the next state.
  function Step(st: State, ch: int): (Bytes, State) {
    match st
    case Usual => if ch == PERCENT then ([], Quoted) else ([ch], Usual)
    case Quoted => if Digit(ch) >= 0 then ([], Second(Digit(ch))) else ([ch], Usual)
    case Second(decoded) => if Digit(ch) >= 0 then ([decoded * 16 + Digit(ch)], Usual) else ([], Usual)
  }

  function Unescape(st: State, s: Bytes): Bytes
    decreases |s|
  {
    if s == [] then [] else Step(st, s[0]).0 + Unescape(Step(st, s[0]).1, s[1..])
  }

  lemma UnescapeCons(st: State, ch: int, t: Bytes)
    ensures Unescape(st, [ch] + t) == Step(st, ch).0 + Unescape(Step(st, ch).1, t)
  {
    assert ([ch] + t)[1..] == t;
  }

  /** An escaped byte is written with lower-case digits and read with digits of either case. */
  lemma DigitOfHex(v: int)
    requires 0 <= v < 16
    ensures Hex(v) == "0123456789abcdef"[v] as int
    ensures Digit(Hex(v)) == v && Digit("0123456789ABCDEF"[v] as int) == v
  {
  }

  // An escaped character reads back as itself.
  lemma EscapedBack(ch: int, t: Bytes)
    requires 0 <= ch < 256
    ensures Unescape(Usual, [PERCENT, Hex(ch / 16), Hex(ch % 16)] + t) == [ch] + Unescape(Usual, t)
  {
    var a, b := Hex(ch / 16), Hex(ch % 16);
    DigitOfHex(ch / 16);
    DigitOfHex(ch % 16);
    assert [PERCENT, a, b] + t == [PERCENT] + ([a] + ([b] + t));
    UnescapeCons(Usual, PERCENT, [a] + ([b] + t));
    UnescapeCons(Quoted, a, [b] + t);
    UnescapeCons(Second(ch / 16), b, t);
  }

  lemma {:induction false} RoundTripIf(table: seq<nat>, s: Bytes)
    requires |table| == 8 && AreBytes(s) && (Escapes(table, PERCENT) || PERCENT !in s)
    ensures Unescape(Usual, Escape(table, s)) == s
  {
    hide Unescape, Escapes, Hex;
    if s != [] {
      var ch, t := s[0], s[1..];
      RoundTripIf(table, t);
      assert s == [ch] + t;
      if Escapes(table, ch) {
        EscapedBack(ch, Escape(table, t));
      } else {
        assert ch in s;
        UnescapeCons(Usual, ch, Escape(table, t));
      }
    } else {
      Nothing(Usual);
    }
  }

  lemma Nothing(st: State)
    ensures Unescape(st, []) == []
  {
  }

  // ---- a table that leaves '%' alone ----

  // The digits of an escape are not themselves escaped.
  ghost predicate PlainHex(table: seq<nat>)
    requires |table| == 8
  {
    forall v :: 0 <= v < 16 ==> !Escapes(table, Hex(v))
  }

  // How much of y the unescaping of its escaped form consumes first, and what it writes.
  function Token(table: seq<nat>, y: Bytes): (r: (int, Bytes))
    requires |table| == 8 && AreBytes(y) && y != []
    ensures 1 <= r.0 <= |y|
  {
    if y[0] != PERCENT then (1, [y[0]])
    else if |y| == 1 then (1, [])
    else if Escapes(table, y[1]) then (2, [PERCENT, Hex(y[1] / 16), Hex(y[1] % 16)])
    else if Digit(y[1]) < 0 then (2, [y[1]])
    else if |y| == 2 then (2, [])
    else if Escapes(table, y[2]) then (3, [Hex(y[2] / 16), Hex(y[2] % 16)])
    else if Digit(y[2]) < 0 then (3, [])
    else (3, [Digit(y[1]) * 16 + Digit(y[2])])
  }

  lemma HexFacts(v: int)
    requires 0 <= v < 16
    ensures Hex(v) != PERCENT && 0 <= Hex(v) < 256 && Digit(PERCENT) < 0
  {
  }

  // Reading three characters.
  lemma Three(st: State, a: int, b: int, c: int, t: Bytes)
    ensures var r1 := Step(st, a); var r2 := Step(r1.1, b); var r3 := Step(r2.1, c);
      Unescape(st, [a, b, c] + t) == r1.0 + (r2.0 + (r3.0 + Unescape(r3.1, t)))
  {
    hide Unescape, Step;
    assert [a, b, c] + t == [a] + ([b] + ([c] + t));
    UnescapeCons(st, a, [b] + ([c] + t));
    UnescapeCons(Step(st, a).1, b, [c] + t);
    UnescapeCons(Step(Step(st, a).1, b).1, c, t);
  }

  lemma EscapeAt(table: seq<nat>, y: Bytes, k: int)
    requires |table| == 8 && AreBytes(y) && 0 <= k < |y|
    ensures Escape(table, y[k..]) == EscapeOne(table, y[k]) + Escape(table, y[k + 1..])
  {
    assert y[k..][1..] == y[k + 1..];
  }

  lemma TokenReads(table: seq<nat>, y: Bytes)
    requires |table| == 8 && AreBytes(y) && y != [] && !Escapes(table, PERCENT)
    ensures var (k, o) := Token(table, y); Unescape(Usual, Escape(table, y)) == o + Unescape(Usual, Escape(table, y[k..]))
  {
    hide Unescape, Escapes, Hex, Escape, Digit;
    assert y[0..] == y;
    EscapeAt(table, y, 0);
    var e1 := Escape(table, y[1..]);
    if y[0] != PERCENT {
      if Escapes(table, y[0]) {
        EscapedBack(y[0], e1);
      } else {
        UnescapeCons(Usual, y[0], e1);
      }
    } else {
      UnescapeCons(Usual, PERCENT, e1);
      if |y| == 1 {
        NoEscape(table, y[1..]);
        Nothing(Quoted);
        Nothing(Usual);
      } else {
        QuotedReads(table, y);
      }
    }
  }

  lemma NoEscape(table: seq<nat>, y: Bytes)
    requires |table| == 8 && y == []
    ensures Escape(table, y) == []
  {
  }

  // After a '%'.
  lemma QuotedReads(table: seq<nat>, y: Bytes)
    requires |table| == 8 && AreBytes(y) && |y| >= 2 && y[0] == PERCENT && !Escapes(table, PERCENT)
    ensures var (k, o) := Token(table, y); Unescape(Quoted, Escape(table, y[1..])) == o + Unescape(Usual, Escape(table, y[k..]))
  {
    hide Unescape, Escapes, Hex, Escape;
    EscapeAt(table, y, 1);
    var e2 := Escape(table, y[2..]);
    if Escapes(table, y[1]) {
      Three(Quoted, PERCENT, Hex(y[1] / 16), Hex(y[1] % 16), e2);
      HexFacts(y[1] / 16);
      HexFacts(y[1] % 16);
    } else {
      UnescapeCons(Quoted, y[1], e2);
      if Digit(y[1]) >= 0 {
        if |y| == 2 {
          NoEscape(table, y[2..]);
          Nothing(Second(Digit(y[1])));
          Nothing(Usual);
        } else {
          SecondReads(table, y);
        }
      }
    }
  }

  // After a '%' and one digit.
  lemma SecondReads(table: seq<nat>, y: Bytes)
    requires |table| == 8 && AreBytes(y) && |y| >= 3 && y[0] == PERCENT && !Escapes(table, y[1]) && Digit(y[1]) >= 0
    ensures var (k, o) := Token(table, y); Unescape(Second(Digit(y[1])), Escape(table, y[2..])) == o + Unescape(Usual, Escape(table, y[k..]))
  {
    hide Unescape, Escapes, Hex, Escape;
    EscapeAt(table, y, 2);
    var e3 := Escape(table, y[3..]);
    if Escapes(table, y[2]) {
      Three(Second(Digit(y[1])), PERCENT, Hex(y[2] / 16), Hex(y[2] % 16), e3);
      HexFacts(y[2] / 16);
      HexFacts(y[2] % 16);
    } else {
      UnescapeCons(Second(Digit(y[1])), y[2], e3);
    }
  }

  // What a token writes is shorter than what it consumes, save for '%' before an escaped character.
  lemma TokenSizes(table: seq<nat>, y: Bytes)
    requires |table| == 8 && AreBytes(y) && y != []
    ensures var (k, o) := Token(table, y);
      && (y[0] != PERCENT ==> k == 1 && o == [y[0]])
      && (y[0] == PERCENT ==> |o| < k || (k == 2 && Escapes(table, y[1]) && o == [PERCENT, Hex(y[1] / 16), Hex(y[1] % 16)]))
  {
  }

  lemma Cancel(o: Bytes, u: Bytes, w: Bytes, t: Bytes)
    requires o + u == w + t
    ensures |o| <= |w| ==> o == w[..|o|] && u == w[|o|..] + t
    ensures forall i :: 0 <= i < |o| && i < |w| ==> o[i] == w[i]
  {
    forall i | 0 <= i < |o| && i < |w| ensures o[i] == w[i] {
      assert (o + u)[i] == (w + t)[i];
    }
    if |o| <= |w| {
      assert (o + u)[|o|..] == u && (w + t)[|o|..] == w[|o|..] + t;
      assert (o + u)[..|o|] == o && (w + t)[..|o|] == w[..|o|];
    }
  }

  // Once something is missing or added it is never made good.
  lemma {:induction false} NeverCatchesUp(table: seq<nat>, y: Bytes, w: Bytes)
    requires |table| == 8 && AreBytes(y) && !Escapes(table, PERCENT) && PlainHex(table)
    requires w != [] || (y != [] && y[0] == PERCENT)
    ensures Unescape(Usual, Escape(table, y)) != w + y
    decreases |y|
  {
    hide Unescape, Escape, Escapes, Token, Hex;
    if y == [] {
      NoEscape(table, y);
      Nothing(Usual);
    } else if Unescape(Usual, Escape(table, y)) == w + y {
      var (k, o) := Token(table, y);
      var tail, whole := y[k..], w + y[..k];
      TokenReads(table, y);
      TokenSizes(table, y);
      assert w + y == whole + tail;
      Cancel(o, Unescape(Usual, Escape(table, tail)), whole, tail);
      if y[0] == PERCENT && |o| >= k {
        OddToken(table, y, w);
      }
      NeverCatchesUp(table, tail, whole[|o|..]);
      assert false;
    }
  }

  lemma OddToken(table: seq<nat>, y: Bytes, w: Bytes)
    requires |table| == 8 && AreBytes(y) && !Escapes(table, PERCENT) && PlainHex(table)
    requires |y| >= 2 && y[0] == PERCENT && Escapes(table, y[1])
    requires var o := [PERCENT, Hex(y[1] / 16), Hex(y[1] % 16)]; forall i :: 0 <= i < 3 && i < |w + y[..2]| ==> o[i] == (w + y[..2])[i]
    ensures |w + y[..2]| > 3
  {
    HexFacts(y[1] / 16);
    HexFacts(y[1] % 16);
    hide Hex;
    assert (w + y[..2])[|w|] == PERCENT && (w + y[..2])[|w| + 1] == y[1];
  }

  /** Unescaping undoes escaping for a string, exactly if the table escapes '%' or the string has
      none; for tables that leave hexadecimal digits alone, as all five do. */
  lemma RoundTrip(table: seq<nat>, s: Bytes)
    requires |table| == 8 && AreBytes(s) && PlainHex(table)
    ensures Unescape(Usual, Escape(table, s)) == s <==> Escapes(table, PERCENT) || PERCENT !in s
  {
    if Escapes(table, PERCENT) || PERCENT !in s {
      RoundTripIf(table, s);
    } else {
      Differs(table, s);
    }
  }

  lemma {:induction false} Differs(table: seq<nat>, s: Bytes)
    requires |table| == 8 && AreBytes(s) && PlainHex(table) && !Escapes(table, PERCENT) && PERCENT in s
    ensures Unescape(Usual, Escape(table, s)) != s
    decreases |s|
  {
    hide Unescape, Escape, Escapes, Token, Hex;
    if s[0] == PERCENT {
      NeverCatchesUp(table, s, []);
      assert [] + s == s;
    } else {
      assert s == [s[0]] + s[1..];
      Differs(table, s[1..]);
      TokenReads(table, s);
      TokenSizes(table, s);
      SameHead(s[0], Unescape(Usual, Escape(table, s[1..])), s[1..]);
    }
  }

  lemma SameHead(c: int, u: Bytes, t: Bytes)
    requires u != t
    ensures [c] + u != [c] + t
  {
    assert ([c] + u)[1..] == u && ([c] + t)[1..] == t;
  }

  lemma {:induction false} ShiftZero(k: nat)
    ensures Shift(0, k) == 0
  {
    if k > 0 {
      ShiftZero(k - 1);
    }
  }

  lemma Powers()
    ensures Pow2(15) == 0x8000 && Pow2(31) == 0x80000000 && Pow2(32) == 0x1_0000_0000
  {
    assert Pow2(8) == 256;
    assert Pow2(12) == 0x1000;
    assert Pow2(15) == 0x8000;
    assert Pow2(20) == 0x100000;
    assert Pow2(24) == 0x1000000;
    assert Pow2(28) == 0x10000000;
  }

  /** All five tables leave the hexadecimal digits alone. */
  lemma TablesPlainHex()
    ensures PlainHex(URI_TABLE) && PlainHex(ARGS_TABLE) && PlainHex(HTML_TABLE) && PlainHex(REFRESH_TABLE) && PlainHex(MEMCACHED_TABLE)
  {
    forall v | 0 <= v < 16
      ensures !Escapes(URI_TABLE, Hex(v)) && !Escapes(ARGS_TABLE, Hex(v)) && !Escapes(HTML_TABLE, Hex(v))
      ensures !Escapes(REFRESH_TABLE, Hex(v)) && !Escapes(MEMCACHED_TABLE, Hex(v))
    {
      TablesExactly(Hex(v));
    }
  }

  // ---- the programs ----

  /** string_escape_uri without a destination: how many characters would be escaped. */
  method CountEscapes(table: seq<nat>, src: seq<int>) returns (n: nat)
    requires |table| == 8 && AreBytes(src)
    ensures n == Count(table, src) && |Escape(table, src)| == |src| + 2 * n
  {
    hide Escapes;
    n := 0;
    var i := 0;
    assert src[0..] == src;
    while i < |src|
      invariant 0 <= i <= |src| && n + Count(table, src[i..]) == Count(table, src)
    {
      assert src[i..][1..] == src[i + 1..];
      if Escapes(table, src[i]) {
        n := n + 1;
      }
      i := i + 1;
    }
    EscapedLength(table, src);
  }

  method PutAll(dst: array<int>, n: int, bs: seq<int>)
    requires 0 <= n && n + |bs| <= dst.Length
    modifies dst
    ensures dst[..n + |bs|] == old(dst[..n]) + bs
  {
    forall i | 0 <= i < |bs| {
      dst[n + i] := bs[i];
    }
  }

  /** string_escape_uri */
  method EscapeInto(dst: array<int>, table: seq<nat>, src: seq<int>) returns (n: int)
    requires |table| == 8 && AreBytes(src) && dst.Length >= |src| + 2 * Count(table, src)
    modifies dst
    ensures n == |src| + 2 * Count(table, src) && dst[..n] == Escape(table, src)
  {
    hide Escapes, Escape, Hex;
    EscapedLength(table, src);
    n := 0;
    var i := 0;
    assert src[0..] == src && dst[..0] == [];
    while i < |src|
      invariant 0 <= i <= |src| && 0 <= n <= dst.Length && dst[..n] + Escape(table, src[i..]) == Escape(table, src)
    {
      EscapeAt(table, src, i);
      var one := if Escapes(table, src[i]) then [PERCENT, Hex(src[i] / 16), Hex(src[i] % 16)] else [src[i]];
      Regroup(dst[..n], one, Escape(table, src[i + 1..]));
      PutAll(dst, n, one);
      n := n + |one|;
      i := i + 1;
    }
    NoEscape(table, src[i..]);
  }

  lemma Regroup(a: Bytes, b: Bytes, c: Bytes)
    ensures a + (b + c) == (a + b) + c && |a + (b + c)| == |a| + |b| + |c|
  {
  }

  lemma {:induction false} UnescapedLength(st: State, s: Bytes)
    ensures |Unescape(st, s)| <= |s|
    decreases |s|
  {
    if s != [] {
      UnescapedLength(Step(st, s[0]).1, s[1..]);
    }
  }

  /** string_unescape_uri with type 0. */
  method UnescapeInto(dst: array<int>, src: seq<int>) returns (n: int)
    requires dst.Length >= |src|
    modifies dst
    ensures 0 <= n <= |src| && dst[..n] == Unescape(Usual, src)
  {
    hide Unescape, Digit;
    UnescapedLength(Usual, src);
    n := 0;
    var i, st := 0, Usual;
    assert src[0..] == src && dst[..0] == [];
    while i < |src|
      invariant 0 <= i <= |src| && 0 <= n <= dst.Length && dst[..n] + Unescape(st, src[i..]) == Unescape(Usual, src)
    {
      var ch := src[i];
      assert src[i..] == [ch] + src[i + 1..];
      UnescapeCons(st, ch, src[i + 1..]);
      Regroup(dst[..n], Step(st, ch).0, Unescape(Step(st, ch).1, src[i + 1..]));
      var out := [];
      match st {
        case Usual =>
          if ch == PERCENT {
            st := Quoted;
          } else {
            out := [ch];
          }
        case Quoted =>
          if Digit(ch) >= 0 {
            st := Second(Digit(ch));
          } else {
            st := Usual;
            out := [ch];
          }
        case Second(decoded) =>
          st := Usual;
          if Digit(ch) >= 0 {
            out := [decoded * 16 + Digit(ch)];
          }
      }
      PutAll(dst, n, out);
      n := n + |out|;
      i := i + 1;
    }
    assert src[i..] == [];
    Nothing(st);
  }
}

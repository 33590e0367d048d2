/** The slab layer of src/core/dfs_slabs.c: its size table, the search for a class, and
    allocation that falls back on recovering free chunks of other classes. */
module Slabs {
  import opened Log2
  import opened ShmemLevels
  import ShmemState

  const LINK := 32               // sizeof(chunk_link_t)
  const POWER_FACTOR := 2
  const LINEAR_FACTOR := 1024

  datatype Classes = Classes(linear: bool, min: nat, factor: nat)

  // What dfs_slabs_create insists on.
  predicate Good(c: Classes) {
    c.min > 0 && c.factor == if c.linear then LINEAR_FACTOR else POWER_FACTOR
  }

  lemma AlignMonotone(x: nat, y: nat)
    requires x <= y
    ensures Align(x) <= Align(y)
  {
  }

  // Payload of class i before rounding.
  function Payload(c: Classes, i: nat): nat {
    if c.linear then c.min + i * c.factor else c.min * Pow2(i)
  }

  ghost predicate IsTable(c: Classes, table: seq<int>) {
    forall i :: 0 <= i < |table| ==> table[i] == Align(Payload(c, i) + LINK)
  }

  lemma PayloadStep(c: Classes, i: nat)
    requires Good(c)
    ensures Payload(c, i + 1) == if c.linear then Payload(c, i) + c.factor else Payload(c, i) * 2
    ensures Payload(c, i) <= Payload(c, i + 1)
  {
    if c.linear {
      assert (i + 1) * c.factor == i * c.factor + c.factor;
    } else {
      var p := Pow2(i);
      assert c.min * (2 * p) == (c.min * p) * 2;
    }
  }

  /** The loop of dfs_slabs_create that fills the size table. */
  method MakeTable(c: Classes, n: nat) returns (table: array<int>)
    requires Good(c)
    ensures table.Length == n && IsTable(c, table[..])
  {
    table := new int[n];
    var size := c.min;
    assert size == Payload(c, 0);
    var i := 0;
    while i < n
      invariant 0 <= i <= n && size == Payload(c, i)
      invariant forall k :: 0 <= k < i ==> table[k] == Align(Payload(c, k) + LINK)
    {
      PayloadStep(c, i);
      table[i] := Align(size + LINK);
      size := if c.linear then size + c.factor else size * 2;
      i := i + 1;
    }
  }

  lemma {:induction false} PayloadMonotone(c: Classes, i: nat, j: nat)
    requires Good(c) && i <= j
    ensures Payload(c, i) <= Payload(c, j)
    decreases j - i
  {
    if i < j {
      PayloadMonotone(c, i, j - 1);
      PayloadStep(c, j - 1);
    }
  }

  lemma TableMonotone(c: Classes, table: seq<int>, i: int, j: int)
    requires Good(c) && IsTable(c, table) && 0 <= i <= j < |table|
    ensures table[i] <= table[j]
  {
    PayloadMonotone(c, i, j);
    AlignMonotone(Payload(c, i) + LINK, Payload(c, j) + LINK);
  }

  // ---- the class of a request ----

  // The one hole of the search: two power classes and a size strictly between them.
  predicate Missed(c: Classes, table: seq<int>, all: int) {
    !c.linear && |table| == 2 && table[0] < all < table[1]
  }

  // Class i holds the request.
  predicate Holds(table: seq<int>, size: nat, i: int) {
    0 <= i < |table| && table[i] - LINK >= size
  }

  // No class of a smaller size than that of class i holds the request.
  ghost predicate Least(table: seq<int>, size: nat, i: int)
    requires 0 <= i < |table|
  {
    forall j :: 0 <= j < |table| && table[j] >= Align(size + LINK) ==> table[i] <= table[j]
  }

  /** A size that a linear class holds only in its rounding: the formula goes on to the next one. */
  predicate InRounding(c: Classes, size: nat) {
    size >= c.min && 0 < (size - c.min) % LINEAR_FACTOR <= Align(c.min + LINK) - (c.min + LINK)
  }

  // The binary search between the first and the last class.
  method Search(table: seq<int>, all: int) returns (id: int)
    requires |table| >= 2 && table[0] < all < table[|table| - 1]
    ensures id == -1 <==> |table| == 2
    ensures id != -1 ==> 0 < id < |table| && all <= table[id] && (table[id - 1] < all || table[id] == all)
  {
    var low, high := 1, |table| - 2;
    while low <= high
      invariant 1 <= low <= high + 1 <= |table| - 1 && (|table| > 2 ==> low <= high)
      invariant table[low - 1] < all <= table[high + 1]
      decreases high - low
    {
      var mid := (low + high) / 2;
      if all <= table[mid] {
        if all > table[mid - 1] {
          return mid;
        } else if all == table[mid - 1] {
          return mid - 1;
        }
        high := mid - 1;
      } else {
        if all <= table[mid + 1] {
          return mid + 1;
        }
        low := mid + 1;
      }
    }
    return -1;
  }

  lemma LeastOf(c: Classes, table: seq<int>, size: nat, i: int)
    requires Good(c) && IsTable(c, table) && 0 <= i < |table| && Align(size + LINK) <= table[i]
    requires i == 0 || table[i - 1] < Align(size + LINK) || table[i] == Align(size + LINK)
    ensures Holds(table, size, i) && Least(table, size, i)
  {
    forall j | 0 <= j < |table| && table[j] >= Align(size + LINK)
      ensures table[i] <= table[j]
    {
      if j < i {
        TableMonotone(c, table, j, i - 1);
      } else {
        TableMonotone(c, table, i, j);
      }
    }
  }

  lemma AlignStrict(x: nat, y: nat)
    requires Align(x) < Align(y)
    ensures x < y
  {
    if y <= x {
      AlignMonotone(y, x);
    }
  }

  lemma AlignSteps(x: nat, k: nat)
    ensures Align(x + k * LINEAR_FACTOR) == Align(x) + k * LINEAR_FACTOR
  {
  }

  // Rounded sizes compare as the sizes do, up to the rounding of the larger.
  lemma AlignFits(x: nat, y: nat)
    ensures Align(x) <= Align(y) <==> x <= Align(y)
  {
  }

  // The linear formula.
  function LinearId(c: Classes, size: nat): int
    requires c.factor > 0
  {
    (size - c.min) / c.factor + (if (size - c.min) % c.factor != 0 then 1 else 0)
  }

  /** The linear formula stays in the table and fits; the class is the least that does if and only
      if the size is not one that the class before holds in its rounding. */
  lemma LinearFits(c: Classes, table: seq<int>, size: nat)
    requires Good(c) && c.linear && IsTable(c, table) && |table| >= 1
    requires table[0] < Align(size + LINK) < table[|table| - 1]
    ensures size > c.min && Holds(table, size, LinearId(c, size))
    ensures Least(table, size, LinearId(c, size)) <==> !InRounding(c, size)
  {
    var m, id, base := |table| - 1, LinearId(c, size), c.min + LINK;
    AlignStrict(base, size + LINK);
    AlignStrict(size + LINK, base + m * LINEAR_FACTOR);
    LinearPlace(c, size, m);
    LinearClass(c, table, size, id);
    LinearClass(c, table, size, id - 1);
    hide Align, Payload, LinearId;
    if !InRounding(c, size) {
      LeastOf(c, table, size, id);
    }
  }

  lemma LinearClass(c: Classes, table: seq<int>, size: nat, i: int)
    requires Good(c) && c.linear && IsTable(c, table) && 0 <= i < |table|
    ensures table[i] == Align(c.min + LINK) + i * LINEAR_FACTOR
    ensures Align(size + LINK) <= table[i] <==> size + LINK <= table[i]
  {
    AlignSteps(c.min + LINK, i);
    AlignFits(size + LINK, c.min + LINK + i * LINEAR_FACTOR);
  }

  // Where the formula puts a size, as distances from the first class.
  lemma LinearPlace(c: Classes, size: nat, m: nat)
    requires Good(c) && c.linear && c.min < size < c.min + m * LINEAR_FACTOR
    ensures var id, a := LinearId(c, size), Align(c.min + LINK);
      && 1 <= id <= m && size + LINK <= a + id * LINEAR_FACTOR
      && (size + LINK <= a + (id - 1) * LINEAR_FACTOR <==> InRounding(c, size))
  {
    hide Align;
  }

  /** dfs_slabs_clsid for an allocation: fails exactly for an empty request, one above the last
      class, or one in the hole of a table of two power classes; else the class holds the request,
      and is the least that does except in the rounding of a linear class. */
  method ClsId(c: Classes, table: seq<int>, size: nat) returns (id: int)
    requires Good(c) && IsTable(c, table) && |table| >= 2
    ensures id == -1 <==> size == 0 || Align(size + LINK) > table[|table| - 1] || Missed(c, table, Align(size + LINK))
    ensures id != -1 ==> Holds(table, size, id)
    ensures id != -1 ==>
      (Least(table, size, id) <==> !(c.linear && table[0] < Align(size + LINK) < table[|table| - 1] && InRounding(c, size)))
  {
    hide Align, Payload, InRounding;
    if size == 0 {
      return -1;
    }
    var maxId := |table| - 1;
    var all := Align(size + LINK);
    TableMonotone(c, table, 0, maxId);
    if all > table[maxId] {
      return -1;
    }
    if all <= table[0] {
      LeastOf(c, table, size, 0);
      return 0;
    }
    if all == table[maxId] {
      LeastOf(c, table, size, maxId);
      return maxId;
    }
    if c.linear {
      id := (size - c.min) / c.factor;
      if (size - c.min) % c.factor != 0 {
        id := id + 1;
      }
      LinearFits(c, table, size);
      return id;
    }
    id := Search(table, all);
    if id != -1 {
      LeastOf(c, table, size, id);
    }
  }

  // ---- recovering and allocating ----

  datatype Recovered = True | False | NoSpace

  // Chunks on all free lists.
  ghost function Count(ls: seq<seq<int>>): nat {
    if ls == [] then 0 else |ls[0]| + Count(ls[1..])
  }

  lemma {:induction false} CountUpdate(ls: seq<seq<int>>, i: int, l: seq<int>)
    requires 0 <= i < |ls|
    ensures Count(ls[i := l]) == Count(ls) - |ls[i]| + |l|
  {
    if i == 0 {
      assert ls[i := l][1..] == ls[1..];
    } else {
      assert ls[i := l][1..] == ls[1..][i - 1 := l];
      CountUpdate(ls[1..], i - 1, l);
    }
  }

  // ---- chunks ----

  // A chunk header: the payload, and the class it was allocated in.
  datatype Chunk = Chunk(size: int, id: int)

  // The payload of the chunks handed out.
  ghost function Payloads(live: seq<int>, chunks: map<int, Chunk>): int {
    if live == [] then 0 else (if live[0] in chunks then chunks[live[0]].size else 0) + Payloads(live[1..], chunks)
  }

  ghost predicate Fitting(table: seq<int>, chunks: map<int, Chunk>, x: int) {
    x in chunks && 0 <= chunks[x].id < |table| && chunks[x].size == table[chunks[x].id] - LINK
  }

  /** Every chunk is as large as its class says; it is handed out, or on the list of its class, or
      neither; never twice. */
  ghost predicate ChunksOk(table: seq<int>, ls: seq<seq<int>>, chunks: map<int, Chunk>, live: seq<int>) {
    && |ls| == |table| && 0 !in chunks
    && (forall i, x :: 0 <= i < |ls| && x in ls[i] ==> Fitting(table, chunks, x) && chunks[x].id == i && x !in live)
    && (forall i :: 0 <= i < |ls| ==> ShmemState.NoDup(ls[i]))
    && ShmemState.NoDup(live) && (forall x :: x in live ==> Fitting(table, chunks, x))
  }

  lemma {:induction false} PayloadsSame(live: seq<int>, m: map<int, Chunk>, m': map<int, Chunk>)
    requires forall x :: x in live ==> x in m && x in m' && m[x] == m'[x]
    ensures Payloads(live, m) == Payloads(live, m')
  {
    if live != [] {
      var x := live[0];
      assert x in live;
      PayloadsSame(live[1..], m, m');
    }
  }

  lemma {:induction false} PayloadsWithout(live: seq<int>, m: map<int, Chunk>, x: int)
    requires x in live && x in m
    ensures Payloads(ShmemState.Without(live, x), m) == Payloads(live, m) - m[x].size
  {
    if live[0] != x {
      PayloadsWithout(live[1..], m, x);
      assert ([live[0]] + ShmemState.Without(live[1..], x))[1..] == ShmemState.Without(live[1..], x);
    }
  }

  lemma PayloadsCons(live: seq<int>, m: map<int, Chunk>, x: int)
    requires x in m
    ensures Payloads([x] + live, m) == Payloads(live, m) + m[x].size
  {
    assert ([x] + live)[1..] == live;
  }

  lemma ConsNoDup(s: seq<int>, x: int)
    requires x !in s && ShmemState.NoDup(s)
    ensures ShmemState.NoDup([x] + s)
  {
    assert ([x] + s)[1..] == s;
  }

  // The first chunk of a list leaves it, to be handed out or to go.
  lemma PopOk(table: seq<int>, ls: seq<seq<int>>, chunks: map<int, Chunk>, live: seq<int>, i: int)
    requires ChunksOk(table, ls, chunks, live) && 0 <= i < |ls| && ls[i] != []
    ensures var x, rest := ls[i][0], ls[i := ls[i][1..]];
      && x in chunks && x != 0 && chunks[x] == Chunk(table[i] - LINK, i) && x !in live
      && ChunksOk(table, rest, chunks, [x] + live) && ChunksOk(table, rest, chunks - {x}, live)
      && Payloads([x] + live, chunks) == Payloads(live, chunks) + table[i] - LINK
      && Payloads(live, chunks - {x}) == Payloads(live, chunks)
  {
    var x, rest := ls[i][0], ls[i := ls[i][1..]];
    assert ls[i] == [x] + ls[i][1..];
    assert x in ls[i] && Fitting(table, chunks, x);
    ConsNoDup(live, x);
    PayloadsCons(live, chunks, x);
    forall k, y | 0 <= k < |rest| && y in rest[k] ensures y in ls[k] && y != x && Fitting(table, chunks, y) {
    }
    forall y | y in live ensures Fitting(table, chunks, y) && y != x {
    }
    PayloadsSame(live, chunks, chunks - {x});
  }

  // A new chunk is handed out.
  lemma NewOk(table: seq<int>, ls: seq<seq<int>>, chunks: map<int, Chunk>, live: seq<int>, i: int, x: int)
    requires ChunksOk(table, ls, chunks, live) && 0 <= i < |ls| && x !in chunks && x != 0
    ensures var chunks' := chunks[x := Chunk(table[i] - LINK, i)];
      ChunksOk(table, ls, chunks', [x] + live) && Payloads([x] + live, chunks') == Payloads(live, chunks) + table[i] - LINK
  {
    var chunks' := chunks[x := Chunk(table[i] - LINK, i)];
    forall y | y in live ensures Fitting(table, chunks, y) && y != x {
    }
    forall k, y | 0 <= k < |ls| && y in ls[k] ensures Fitting(table, chunks, y) && y != x {
    }
    ConsNoDup(live, x);
    PayloadsCons(live, chunks', x);
    PayloadsSame(live, chunks, chunks');
  }

  // A chunk that was handed out goes on its list.
  lemma PushOk(table: seq<int>, ls: seq<seq<int>>, chunks: map<int, Chunk>, live: seq<int>, x: int)
    requires ChunksOk(table, ls, chunks, live) && x in live
    ensures Fitting(table, chunks, x) && var i, rest := chunks[x].id, ShmemState.Without(live, x);
      && ChunksOk(table, ls[i := [x] + ls[i]], chunks, rest)
      && Payloads(live, chunks) == Payloads(rest, chunks) + table[i] - LINK
  {
    var i, rest := chunks[x].id, ShmemState.Without(live, x);
    ShmemState.WithoutMembers(live, x);
    PayloadsWithout(live, chunks, x);
    ConsNoDup(ls[i], x);
  }

  // ---- what a recovery hands back ----

  // The chunk headers without those of gone.
  function Rest(chunks: map<int, Chunk>, gone: seq<int>): map<int, Chunk> {
    map x | x in chunks && x !in gone :: chunks[x]
  }

  lemma RestMore(chunks: map<int, Chunk>, gone: seq<int>, x: int)
    ensures Rest(chunks, gone + [x]) == Rest(chunks, gone) - {x} && Rest(chunks, []) == chunks
  {
  }

  lemma RestTwice(chunks: map<int, Chunk>, a: seq<int>, b: seq<int>)
    ensures Rest(Rest(chunks, a), b) == Rest(chunks, a + b)
  {
  }

  // The free chunks of the classes below i, the largest class first.
  ghost function Line(ls: seq<seq<int>>, i: nat): seq<int>
    requires i <= |ls|
  {
    if i == 0 then [] else ls[i - 1] + Line(ls, i - 1)
  }

  lemma {:induction false} LineSame(ls: seq<seq<int>>, ls': seq<seq<int>>, i: nat)
    requires i <= |ls| && i <= |ls'| && forall k :: 0 <= k < i ==> ls[k] == ls'[k]
    ensures Line(ls, i) == Line(ls', i)
  {
    if i > 0 {
      LineSame(ls, ls', i - 1);
    }
  }

  lemma {:induction false} LineFrom(ls: seq<seq<int>>, i: nat, j: nat)
    requires i <= j <= |ls| && forall k :: i <= k < j ==> ls[k] == []
    ensures Line(ls, j) == Line(ls, i)
  {
    if i < j {
      LineFrom(ls, i, j - 1);
    }
  }

  lemma {:induction false} LineEmpty(ls: seq<seq<int>>, i: nat)
    requires i <= |ls|
    ensures Line(ls, i) == [] <==> forall k :: 0 <= k < i ==> ls[k] == []
  {
    if i > 0 {
      LineEmpty(ls, i - 1);
    }
  }

  // Class i has lost its first n chunks, the classes between it and id are empty.
  lemma LineDrop(ls: seq<seq<int>>, ls': seq<seq<int>>, i: nat, id: nat, n: nat)
    requires i < id <= |ls| == |ls'| && n <= |ls[i]| && ls'[i] == ls[i][n..]
    requires (forall k :: 0 <= k < i ==> ls'[k] == ls[k]) && forall k :: i < k < id ==> ls'[k] == []
    ensures ls[i][..n] + Line(ls', id) == Line(ls, i + 1)
  {
    LineFrom(ls', i + 1, id);
    LineSame(ls, ls', i);
    LineStep(ls, i);
    LineStep(ls', i);
    hide Line;
    assert ls[i][..n] + (ls[i][n..] + Line(ls, i)) == ls[i] + Line(ls, i);
  }

  lemma LineStep(ls: seq<seq<int>>, i: nat)
    requires i < |ls|
    ensures Line(ls, i + 1) == ls[i] + Line(ls, i)
  {
  }

  // The classes from i to id are empty, gone is what they held; the others are as they were.
  ghost predicate Halfway(ls: seq<seq<int>>, now: seq<seq<int>>, i: nat, id: nat, gone: seq<int>) {
    && i <= id <= |ls| == |now| && gone + Line(ls, i) == Line(ls, id)
    && (forall k :: 0 <= k < i || id <= k < |ls| ==> now[k] == ls[k]) && forall k :: i <= k < id ==> now[k] == []
  }

  lemma AtStart(ls: seq<seq<int>>, id: nat)
    requires id <= |ls|
    ensures Halfway(ls, ls, id, id, [])
  {
  }

  // The next class gives its first n chunks.
  lemma FurtherInLine(ls: seq<seq<int>>, now: seq<seq<int>>, i: nat, id: nat, gone: seq<int>, n: nat)
    requires Halfway(ls, now, i + 1, id, gone) && n <= |now[i]|
    ensures var now', gone' := now[i := now[i][n..]], gone + now[i][..n];
      && gone' + Line(now', id) == Line(ls, id) && (n == |now[i]| ==> Halfway(ls, now', i, id, gone'))
      && (n > 0 ==> gone' != [] && gone'[..|gone'| - 1] == gone + now[i][..n - 1])
      && forall k :: id <= k < |ls| ==> now'[k] == ls[k]
  {
    hide Line;
    var now' := now[i := now[i][n..]];
    LineDrop(ls, now', i, id, n);
    Joined(gone, now[i][..n], Line(now', id));
    LineStep(ls, i);
    if n == |now[i]| {
      assert now[i][..n] == now[i];
      Joined(gone, now[i], Line(ls, i));
    }
    if n > 0 {
      Joined(gone, now[i][..n - 1], [now[i][n - 1]]);
      assert now[i][..n - 1] + [now[i][n - 1]] == now[i][..n];
    }
  }

  lemma Joined(a: seq<int>, b: seq<int>, c: seq<int>)
    ensures (a + b) + c == a + (b + c) && (a + b + c)[..|a + b|] == a + b
  {
  }

  lemma Finished(ls: seq<seq<int>>, now: seq<seq<int>>, id: nat, gone: seq<int>)
    requires Halfway(ls, now, 0, id, gone)
    ensures gone == Line(ls, id) && Line(now, id) == [] && forall k :: id <= k < |ls| ==> now[k] == ls[k]
  {
    LineEmpty(now, id);
  }

  // The sizes of these chunks, links included.
  ghost function Weight(table: seq<int>, chunks: map<int, Chunk>, xs: seq<int>): int {
    if xs == [] then 0
    else
      var x := xs[|xs| - 1];
      Weight(table, chunks, xs[..|xs| - 1]) + (if x in chunks && 0 <= chunks[x].id < |table| then table[chunks[x].id] else 0)
  }

  lemma WeightMore(table: seq<int>, chunks: map<int, Chunk>, xs: seq<int>, x: int)
    requires x in chunks && 0 <= chunks[x].id < |table|
    ensures Weight(table, chunks, xs + [x]) == Weight(table, chunks, xs) + table[chunks[x].id]
  {
    assert (xs + [x])[..|xs|] == xs;
  }

  // k is the least class above id with a free chunk.
  ghost predicate FirstAbove(ls: seq<seq<int>>, id: int, k: int) {
    0 <= id < k < |ls| && ls[k] != [] && forall j :: id < j < k ==> ls[j] == []
  }

  // The smaller classes hand back chunks in line until they make up twice the size wanted, and
  // none after that; if they do not, all of them.
  ghost predicate InLine(table: seq<int>, chunks: map<int, Chunk>, ls: seq<seq<int>>, ls': seq<seq<int>>, id: nat, size: int, gone: seq<int>, ret: Recovered)
    requires id <= |ls| && id <= |ls'|
  {
    && gone + Line(ls', id) == Line(ls, id)
    && (ret.NoSpace? <==> Line(ls, id) == [])
    && (ret.True? ==> gone != [] && Weight(table, chunks, gone) >= 2 * size > Weight(table, chunks, gone[..|gone| - 1]))
    && (!ret.True? ==> gone == Line(ls, id) && Weight(table, chunks, gone) < 2 * size)
  }

  // One chunk of the least larger class that has one, or else smaller ones in line.
  ghost predicate HandedBack(table: seq<int>, chunks: map<int, Chunk>, ls: seq<seq<int>>, ls': seq<seq<int>>, id: nat, size: int, gone: seq<int>, ret: Recovered)
    requires id <= |ls| && id <= |ls'|
  {
    && (forall k :: FirstAbove(ls, id, k) ==> ret.True? && ls' == ls[k := ls[k][1..]] && gone == [ls[k][0]])
    && ((forall k :: id < k < |ls| ==> ls[k] == []) ==> InLine(table, chunks, ls, ls', id, size, gone, ret))
  }

  // ---- what the allocator below was asked ----

  // The j-th answer, after the chunks gone were handed back: no memory.
  ghost predicate Refused(backend: seq<int>, j: nat, chunks: map<int, Chunk>, gone: seq<int>) {
    j >= |backend| || backend[j] == 0 || backend[j] in Rest(chunks, gone)
  }

  ghost function Flat(rounds: seq<seq<int>>): seq<int> {
    if rounds == [] then [] else Flat(rounds[..|rounds| - 1]) + rounds[|rounds| - 1]
  }

  /** The allocator below is asked once at the start and once after each recovery, which hands
      back a round of chunks. It refused every time but the last, and then too if chunk is 0. */
  ghost predicate Asked(backend: seq<int>, backend': seq<int>, chunks: map<int, Chunk>, rounds: seq<seq<int>>, chunk: int) {
    && backend' == backend[Least2(|backend|, |rounds| + 1)..]
    && (forall j :: 0 <= j < |rounds| ==> rounds[j] != [] && Refused(backend, j, chunks, Flat(rounds[..j])))
    && (if chunk == 0 then Refused(backend, |rounds|, chunks, Flat(rounds))
        else !Refused(backend, |rounds|, chunks, Flat(rounds)) && chunk == backend[|rounds|])
  }

  function Least2(a: nat, b: nat): nat {
    if a < b then a else b
  }

  lemma AskedMore(backend: seq<int>, b1: seq<int>, b2: seq<int>, chunks: map<int, Chunk>, rounds: seq<seq<int>>, gone: seq<int>, chunk: int)
    requires Asked(backend, b1, chunks, rounds, 0) && gone != []
    requires b2 == (if b1 == [] then [] else b1[1..])
    requires chunk == (if b1 == [] || b1[0] in Rest(chunks, Flat(rounds) + gone) then 0 else b1[0])
    ensures Flat(rounds + [gone]) == Flat(rounds) + gone && Asked(backend, b2, chunks, rounds + [gone], chunk)
  {
    hide Rest;
    var more := rounds + [gone];
    assert more[..|rounds|] == rounds;
    forall j | 0 <= j < |more| ensures more[j] != [] && Refused(backend, j, chunks, Flat(more[..j])) {
      assert more[..j] == rounds[..j];
      assert j < |rounds| ==> more[j] == rounds[j];
      assert j == |rounds| ==> rounds[..j] == rounds;
    }
  }

  class Manager {
    const c: Classes
    const table: seq<int>
    const free: array<seq<int>>     // the free list of each class, as chunk addresses
    var chunks: map<int, Chunk>     // the chunk headers in memory
    var used: int                   // slab_stat.used_size
    var given: seq<int>             // chunks handed back to the allocator below
    var backend: seq<int>           // what that allocator will answer: an address, or 0 for failure
    ghost var live: seq<int>        // the chunks handed out
    ghost var stale: int            // the payload of the chunks whose free was refused

    constructor (c: Classes, table: seq<int>, backend: seq<int>)
      requires Good(c) && IsTable(c, table) && |table| >= 2
      ensures Valid() && stale == 0 && fresh(free) && this.c == c && this.table == table && live == []
      ensures this.backend == backend && given == [] && chunks == map[] && used == 0 && forall i :: 0 <= i < free.Length ==> free[i] == []
    {
      this.c, this.table, this.backend, given := c, table, backend, [];
      free := new seq<int>[|table|](_ => []);
      chunks, used, live, stale := map[], 0, [], 0;
    }

    ghost predicate Valid()
      reads this, free
    {
      && Good(c) && IsTable(c, table) && |table| >= 2 && free.Length == |table|
      && ChunksOk(table, free[..], chunks, live)
      && used == Payloads(live, chunks) + stale && stale >= 0
    }

    lemma Positive(id: int)
      requires Valid() && 0 <= id < |table|
      ensures table[id] > 0 && free.Length == |table|
    {
      PayloadPositive(c, table, id);
    }

    // Hands the first chunk of class i back.
    method GiveBack(i: int)
      requires Valid() && 0 <= i < free.Length && free[i] != []
      modifies this`given, this`chunks, free
      ensures Valid() && Payloads(live, chunks) == old(Payloads(live, chunks))
      ensures free[..] == old(free[..])[i := old(free[i])[1..]] && given == old(given) + [old(free[i])[0]]
      ensures Count(free[..]) == Count(old(free[..])) - 1 && chunks == old(chunks) - {old(free[i])[0]}
      ensures old(free[i])[0] in old(chunks) && old(chunks[free[i][0]]).id == i
    {
      PopOk(table, free[..], chunks, live, i);
      given := given + [free[i][0]];
      chunks := chunks - {free[i][0]};
      CountUpdate(free[..], i, free[i][1..]);
      free[i] := free[i][1..];
      assert free[..] == old(free[..])[i := old(free[i])[1..]];
    }

    /** dfs_slabs_recover: hands back one chunk of the least larger class that has one, or else
        chunks of smaller classes, largest first, until they make up twice the size wanted. */
    method Recover(chunkSize: int, id: int) returns (ret: Recovered, ghost gone: seq<int>)
      requires Valid() && 0 <= id < |table| && chunkSize == table[id]
      modifies this`given, this`chunks, free
      ensures Valid() && Payloads(live, chunks) == old(Payloads(live, chunks))
      ensures given == old(given) + gone && chunks == Rest(old(chunks), gone)
      ensures HandedBack(table, old(chunks), old(free[..]), free[..], id, chunkSize, gone, ret)
      ensures ret.NoSpace? <==> forall k :: 0 <= k < |table| && k != id ==> old(free[..])[k] == []
      ensures ret.NoSpace? <==> gone == []
      ensures ret.NoSpace? ==> free[..] == old(free[..])
      ensures !ret.NoSpace? ==> Count(free[..]) < Count(old(free[..]))
      ensures free[id] == old(free[id])
    {
      hide ChunksOk, Payloads, Line, Weight;
      var i := id + 1;
      while i < |table|
        invariant id + 1 <= i <= |table| && free[..] == old(free[..])
        invariant forall k :: id < k < i ==> free[k] == []
      {
        if free[i] != [] {
          RestMore(chunks, [], free[i][0]);
          GiveBack(i);
          gone := [old(free[i])[0]];
          assert [] + gone == gone;
          assert forall k :: FirstAbove(old(free[..]), id, k) ==> k == i by {
            assert FirstAbove(old(free[..]), id, i);
          }
          return True, gone;
        }
        i := i + 1;
      }
      ret, gone := RecoverBelow(chunkSize, id);
      LineEmpty(old(free[..]), id);
    }

    // The second loop: smaller classes, largest first.
    method RecoverBelow(chunkSize: int, id: int) returns (ret: Recovered, ghost gone: seq<int>)
      requires Valid() && 0 <= id < |table| && chunkSize == table[id]
      modifies this`given, this`chunks, free
      ensures Valid() && Payloads(live, chunks) == old(Payloads(live, chunks))
      ensures given == old(given) + gone && chunks == Rest(old(chunks), gone)
      ensures InLine(table, old(chunks), old(free[..]), free[..], id, chunkSize, gone, ret)
      ensures ret.NoSpace? <==> gone == []
      ensures ret.NoSpace? ==> free[..] == old(free[..])
      ensures !ret.NoSpace? ==> Count(free[..]) < Count(old(free[..]))
      ensures forall k :: id <= k < |table| ==> free[k] == old(free[k])
    {
      hide Valid, Payloads, Line, Weight, Rest, Count, Halfway;
      ghost var ls, all := free[..], chunks;
      Positive(id);
      Nothing(table, all);
      AtStart(ls, id);
      gone := [];
      var size, space, i := 0, false, id - 1;
      while i >= 0
        invariant -1 <= i < id && Valid() && Payloads(live, chunks) == old(Payloads(live, chunks))
        invariant given == old(given) + gone && chunks == Rest(all, gone) && Halfway(ls, free[..], i + 1, id, gone)
        invariant size == Weight(table, all, gone) < 2 * chunkSize
        invariant (space <==> gone != []) && (!space ==> free[..] == ls) && (space ==> Count(free[..]) < Count(ls))
      {
        ghost var n, now := 0, free[..];
        if free[i] != [] {
          space := true;
          var enough;
          enough, size, n := Drain(i, size, chunkSize, all, gone);
          FurtherInLine(ls, now, i, id, gone, n);
          gone := gone + now[i][..n];
          if enough {
            return True, gone;
          }
        } else {
          FurtherInLine(ls, now, i, id, gone, 0);
          assert now[i := now[i][0..]] == now && gone + now[i][..0] == gone;
        }
        i := i - 1;
      }
      ret := if space then False else NoSpace;
      Finished(ls, free[..], id, gone);
    }

    // Hands back chunks of class i until there are none or they make up enough.
    method Drain(i: int, size0: int, chunkSize: int, ghost all: map<int, Chunk>, ghost gone: seq<int>) returns (enough: bool, size: int, ghost n: nat)
      requires Valid() && 0 <= i < |table| && free[i] != []
      requires chunks == Rest(all, gone) && size0 == Weight(table, all, gone) < 2 * chunkSize
      modifies this`given, this`chunks, free
      ensures Valid() && Payloads(live, chunks) == old(Payloads(live, chunks))
      ensures 0 < n <= |old(free[i])| && free[..] == old(free[..])[i := old(free[i])[n..]]
      ensures given == old(given) + old(free[i])[..n] && chunks == Rest(all, gone + old(free[i])[..n])
      ensures size == Weight(table, all, gone + old(free[i])[..n]) && Count(free[..]) < Count(old(free[..]))
      ensures enough ==> size >= 2 * chunkSize > Weight(table, all, gone + old(free[i])[..n - 1])
      ensures !enough ==> n == |old(free[i])| && size < 2 * chunkSize
    {
      hide ChunksOk, Payloads, Weight, Rest;
      size, n := size0, 0;
      ghost var ls := free[..];
      assert gone + ls[i][..0] == gone && ls[i := ls[i][0..]] == ls;
      while free[i] != []
        invariant Valid() && Payloads(live, chunks) == old(Payloads(live, chunks))
        invariant 0 <= n <= |ls[i]| && free[..] == ls[i := ls[i][n..]] && Count(free[..]) == Count(ls) - n
        invariant given == old(given) + ls[i][..n] && chunks == Rest(all, gone + ls[i][..n])
        invariant size == Weight(table, all, gone + ls[i][..n]) < 2 * chunkSize
        decreases |free[i]|
      {
        var x := free[i][0];
        Lower(all, gone + ls[i][..n], x);
        GiveBack(i);
        assert x == ls[i][n] && (gone + ls[i][..n]) + [x] == gone + ls[i][..n + 1] && ls[i][..n] + [x] == ls[i][..n + 1];
        RestMore(all, gone + ls[i][..n], x);
        WeightMore(table, all, gone + ls[i][..n], x);
        assert ls[i][n..][1..] == ls[i][n + 1..];
        n := n + 1;
        size := size + table[i];
        if size >= 2 * chunkSize {
          return true, size, n;
        }
      }
      enough := false;
    }

    // What the allocator below answers next: never a chunk it has not got back; nothing more is
    // there after the script.
    method Ask() returns (chunk: int)
      requires Valid()
      modifies this`backend
      ensures Valid() && backend == (if old(backend) == [] then [] else old(backend)[1..])
      ensures chunk == (if old(backend) == [] || old(backend)[0] in chunks then 0 else old(backend)[0])
    {
      if backend == [] {
        return 0;
      }
      chunk := if backend[0] in chunks then 0 else backend[0];
      backend := backend[1..];
    }

    /** The first question and the retry loop, which ends because every turn hands chunks back. */
    method AskAgain(chunkSize: int, id: int) returns (chunk: int, ghost rounds: seq<seq<int>>)
      requires Valid() && 0 <= id < |table| && free[id] == [] && chunkSize == table[id]
      modifies this`given, this`backend, this`chunks, free
      ensures Valid() && Payloads(live, chunks) == old(Payloads(live, chunks)) && (chunk == 0 || chunk !in chunks)
      ensures Asked(old(backend), backend, old(chunks), rounds, chunk)
      ensures given == old(given) + Flat(rounds) && chunks == Rest(old(chunks), Flat(rounds)) && free[id] == []
      ensures rounds == [] ==> free[..] == old(free[..])
      ensures chunk == 0 ==> forall k :: 0 <= k < |table| ==> free[k] == []
    {
      hide Valid, Payloads, Rest, Asked, HandedBack, Count, Flat;
      ghost var all := chunks;
      rounds := [];
      chunk := Ask();
      AskedFirst(old(backend), backend, all, chunk);
      Positive(id);
      while chunk == 0
        invariant free[id] == [] && Valid() && Payloads(live, chunks) == old(Payloads(live, chunks))
        invariant Asked(old(backend), backend, all, rounds, chunk) && (chunk == 0 || chunk !in chunks)
        invariant given == old(given) + Flat(rounds) && chunks == Rest(all, Flat(rounds))
        invariant rounds == [] ==> free[..] == old(free[..])
        decreases Count(free[..])
      {
        ghost var asked, kept := backend, chunks;
        var ret, gone := Recover(chunkSize, id);
        if ret.NoSpace? {
          RestNone(kept, gone);
          break;
        }
        RestTwice(all, Flat(rounds), gone);
        chunk := Ask();
        AskedMore(old(backend), asked, backend, all, rounds, gone, chunk);
        rounds := rounds + [gone];
      }
    }

    /** dfs_slabs_alloc: the chunk comes from the list of its class, else from the allocator
        below; it was not handed out, and its own payload holds the request. Failure of a request
        that has a class means that every free chunk has been handed back. */
    method Alloc(size: nat) returns (chunk: int, id: int, ghost rounds: seq<seq<int>>)
      requires Valid()
      modifies this`given, this`backend, this`chunks, this`used, this`live, free
      ensures Valid()
      ensures id == -1 <==> size == 0 || Align(size + LINK) > table[|table| - 1] || Missed(c, table, Align(size + LINK))
      ensures id == -1 ==> chunk == 0 && free[..] == old(free[..]) && given == old(given) && chunks == old(chunks)
      ensures id != -1 ==> Holds(table, size, id)
      ensures chunk == 0 ==> live == old(live)
      ensures chunk != 0 ==> chunk !in old(live) && live == [chunk] + old(live) && chunk in chunks && chunks[chunk].size >= size
      ensures id != -1 && old(free[..])[id] != [] ==>
        chunk == old(free[..])[id][0] && free[..] == old(free[..])[id := old(free[..])[id][1..]] && given == old(given) && chunks == old(chunks)
      ensures id != -1 && old(free[..])[id] == [] ==>
        Asked(old(backend), backend, old(chunks), rounds, chunk) && given == old(given) + Flat(rounds) && (rounds == [] ==> free[..] == old(free[..]))
      ensures id != -1 && old(free[..])[id] == [] && !Refused(old(backend), 0, old(chunks), []) ==>
        chunk == old(backend)[0] && backend == old(backend)[1..] && free[..] == old(free[..]) && given == old(given)
      ensures id == -1 || old(free[..])[id] != [] ==> backend == old(backend)
      ensures id != -1 && chunk == 0 ==> forall k :: 0 <= k < |table| ==> free[k] == []
    {
      hide ChunksOk, Payloads, Asked, Refused, Flat, Rest, Missed;
      chunk, rounds := 0, [];
      id := ClsId(c, table, size);
      if id == -1 {
        return;
      }
      if free[id] == [] {
        chunk, rounds := AskAgain(table[id], id);
        AskedUsable(old(backend), backend, old(chunks), rounds, chunk);
        if chunk == 0 {
          return;
        }
        NewOk(table, free[..], chunks, live, id, chunk);
        assert chunk !in live by { LiveIn(table, free[..], chunks, live); }
        chunks := chunks[chunk := Chunk(table[id] - LINK, id)];
      } else {
        PopOk(table, free[..], chunks, live, id);
        chunk := free[id][0];
        free[id] := free[id][1..];
        assert free[..] == old(free[..])[id := old(free[id])[1..]];
      }
      used := used + chunks[chunk].size;
      live := [chunk] + live;
    }

    /** dfs_slabs_free: the chunk goes on the list of its class. If used_size is below the size of
        that class, link included, the call reports an error and leaves used_size as it was: if and
        only if the chunks still handed out and those refused before have less payload than a link.
        So used_size exceeds the payload handed out by exactly that of the refused chunks. */
    method Free(chunk: int) returns (ok: bool)
      requires Valid() && (chunk == 0 || chunk in live)
      modifies this`used, this`live, this`stale, free
      ensures Valid() && chunks == old(chunks)
      ensures chunk == 0 ==> !ok && live == old(live) && free[..] == old(free[..]) && used == old(used) && stale == old(stale)
      ensures chunk != 0 ==>
        var id := chunks[chunk].id;
        && live == ShmemState.Without(old(live), chunk) && 0 <= id < |table|
        && free[..] == old(free[..])[id := [chunk] + old(free[..])[id]]
      ensures !ok ==> used == old(used)
      ensures ok ==> used == old(used) - chunks[chunk].size
      ensures chunk != 0 ==>
        && (ok <==> old(used) >= table[chunks[chunk].id])
        && (ok <==> Payloads(live, chunks) + old(stale) >= LINK)
        && stale == old(stale) + (if ok then 0 else chunks[chunk].size)
    {
      hide ChunksOk, Payloads;
      if chunk == 0 {
        return false;
      }
      PushOk(table, free[..], chunks, live, chunk);
      PayloadPositive(c, table, chunks[chunk].id);
      var id := chunks[chunk].id;
      free[id] := [chunk] + free[id];
      assert free[..] == old(free[..])[id := [chunk] + old(free[id])];
      live := ShmemState.Without(live, chunk);
      if used < table[id] {
        stale := stale + chunks[chunk].size;
        return false;
      }
      used := used - chunks[chunk].size;
      return true;
    }
  }

  lemma RestNone(chunks: map<int, Chunk>, gone: seq<int>)
    requires gone == []
    ensures Rest(chunks, gone) == chunks
  {
  }

  lemma Nothing(table: seq<int>, chunks: map<int, Chunk>)
    ensures Rest(chunks, []) == chunks && Weight(table, chunks, []) == 0
  {
  }


  lemma Lower(chunks: map<int, Chunk>, gone: seq<int>, x: int)
    ensures x in Rest(chunks, gone) ==> x in chunks && Rest(chunks, gone)[x] == chunks[x]
  {
  }

  lemma AskedFirst(backend: seq<int>, backend': seq<int>, chunks: map<int, Chunk>, chunk: int)
    requires backend' == (if backend == [] then [] else backend[1..])
    requires chunk == (if backend == [] || backend[0] in chunks then 0 else backend[0])
    ensures Asked(backend, backend', chunks, [], chunk) && Flat([]) == [] && Rest(chunks, []) == chunks
  {
  }

  lemma AskedUsable(backend: seq<int>, backend': seq<int>, chunks: map<int, Chunk>, rounds: seq<seq<int>>, chunk: int)
    requires Asked(backend, backend', chunks, rounds, chunk)
    ensures Flat([]) == [] && (!Refused(backend, 0, chunks, []) ==> rounds == [] && chunk == backend[0] && backend' == backend[1..])
  {
    assert rounds != [] ==> rounds[..0] == [];
  }

  lemma LiveIn(table: seq<int>, ls: seq<seq<int>>, chunks: map<int, Chunk>, live: seq<int>)
    requires ChunksOk(table, ls, chunks, live)
    ensures forall x :: x in live ==> x in chunks
  {
  }

  lemma PayloadPositive(c: Classes, table: seq<int>, i: int)
    requires Good(c) && IsTable(c, table) && 0 <= i < |table|
    ensures table[i] - LINK > 0
  {
    PayloadMonotone(c, 0, i);
  }

  // ---- creation ----

  datatype Made = Created | BadParam | BadPowerFactor | BadLinearFactor | BadUptype | NoMemory

  /** dfs_slabs_create: uptype is the raw C argument (1 power, 2 linear); memory says whether the
      allocator below gives the manager and its table. The table has as many classes as reach the
      largest size, and no more. */
  method Create(uptype: int, factor: nat, lo: nat, hi: nat, memory: bool, backend: seq<int>) returns (m: Manager?, err: Made)
    ensures m != null <==> err == Created
    ensures err == BadParam <==> lo == 0 || hi < 2 * lo
    ensures lo > 0 && hi >= 2 * lo && uptype == 1 ==> err == if factor != POWER_FACTOR then BadPowerFactor else if memory then Created else NoMemory
    ensures lo > 0 && hi >= 2 * lo && uptype == 2 ==> err == if factor != LINEAR_FACTOR then BadLinearFactor else if memory then Created else NoMemory
    ensures lo > 0 && hi >= 2 * lo && uptype != 1 && uptype != 2 ==> err == BadUptype
    ensures err == Created ==> fresh(m) && fresh(m.free) && m.Valid() && m.stale == 0 && m.live == []
    ensures err == Created ==> m.backend == backend && m.chunks == map[] && m.used == 0 && forall i :: 0 <= i < m.free.Length ==> m.free[i] == []
    ensures err == Created ==>
      && m.c == Classes(uptype == 2, lo, factor)
      && |m.table| == LevelCount(if uptype == 2 then Linear else Exp, lo, hi, factor) + 1
      && Payload(m.c, |m.table| - 2) < hi <= Payload(m.c, |m.table| - 1)
  {
    if lo == 0 || hi == 0 || hi / lo < 2 {
      return null, BadParam;
    }
    var n: nat;
    if uptype == 1 {
      if factor != POWER_FACTOR {
        return null, BadPowerFactor;
      }
      n := LevelCount(Exp, lo, hi, factor);
    } else if uptype == 2 {
      if factor != LINEAR_FACTOR {
        return null, BadLinearFactor;
      }
      n := LevelCount(Linear, lo, hi, factor);
    } else {
      return null, BadUptype;
    }
    LevelBounds(if uptype == 2 then Linear else Exp, lo, hi, factor);
    if !memory {
      return null, NoMemory;
    }
    hide LevelCount;
    var c := Classes(uptype == 2, lo, factor);
    var table := MakeTable(c, n + 1);
    m := new Manager(c, table[..], backend);
    err := Created;
  }

  /** A table made for sizes up to hi has a class for each of them, except for those strictly
      between its two classes when it has two: a power table with hi == 2 * lo. */
  lemma EverySizeHasClass(c: Classes, table: seq<int>, hi: nat, size: nat)
    requires Good(c) && IsTable(c, table) && |table| >= 2 && Payload(c, |table| - 2) < hi <= Payload(c, |table| - 1) && hi >= 2 * c.min
    requires 0 < size <= hi
    ensures Align(size + LINK) <= table[|table| - 1]
    ensures Missed(c, table, Align(size + LINK)) <==>
      !c.linear && hi == 2 * c.min && Align(c.min + LINK) < Align(size + LINK) < Align(hi + LINK)
  {
    AlignMonotone(size + LINK, Payload(c, |table| - 1) + LINK);
    FirstPayloads(c);
    hide Align, Payload;
    if !c.linear && |table| > 2 {
      PayloadMonotone(c, 1, |table| - 2);
    }
  }

  lemma FirstPayloads(c: Classes)
    ensures Payload(c, 0) == c.min && (!c.linear ==> Payload(c, 1) == 2 * c.min)
  {
    assert Pow2(0) == 1 && Pow2(1) == 2;
  }

  /** Sizes from 1024 to 2048 in powers: a request of 1500 bytes has no class. */
  method SizeHole() returns (chunk: int, id: int)
    ensures id == -1 && chunk == 0
  {
    var m, err := Create(1, POWER_FACTOR, 1024, 2048, true, []);
    EverySizeHasClass(m.c, m.table, 2048, 1500);
    hide LevelCount, Payload, ChunksOk, Payloads;
    ghost var rounds;
    chunk, id, rounds := m.Alloc(1500);
  }

  /** Whenever one chunk is handed out and freed with no other in use, the free is reported as an
      error and the chunk stays counted as used. */
  method OnlyChunk(m: Manager, size: nat) returns (chunk: int, ok: bool)
    requires m.Valid() && m.stale == 0 && m.live == []
    modifies m, m.free
    ensures m.Valid() && m.live == [] && !ok
    ensures chunk != 0 ==> chunk in m.chunks && m.used == m.chunks[chunk].size >= size > 0
  {
    hide ChunksOk, IsTable, Holds, Missed;
    var id;
    ghost var rounds;
    chunk, id, rounds := m.Alloc(size);
    OneLive(chunk, m.chunks);
    hide Payloads, ShmemState.Without;
    ok := m.Free(chunk);
  }

  lemma OneLive(x: int, chunks: map<int, Chunk>)
    ensures ShmemState.Without([x], x) == [] && Payloads([], chunks) == 0 && [x] + [] == [x]
    ensures x in chunks ==> Payloads([x], chunks) == chunks[x].size
  {
    assert [x][1..] == [];
  }
}

/** Sending a block: dn_request_send_block, block_read_complete and dn_request_send_block_again of
    src/datanode/dn_request.c over cfs_faio_io_send_file of src/cfs/cfs_faio.c. */
module BlockRead {
  import opened Log2

  const SENDFILE_MAX := 0x7fff_f000    // the most the kernel sends in one call

  // What one sendfile call does; a successful one sends 1 + n % possible bytes.
  datatype Outcome = Sent(n: nat) | Eintr | Eagain | Failed

  datatype Ret = Ok | Again | Error

  // How many bytes a successful call sends of those left in the file: at least one if it can.
  function Some(n: nat, left: nat, need: nat): (k: nat)
    ensures k <= left && k <= need && (k == 0 <==> left == 0 || need == 0)
  {
    var most := if left < need then left else need;
    var possible := if most < SENDFILE_MAX then most else SENDFILE_MAX;
    if possible == 0 then 0 else 1 + n % possible
  }

  // The bytes delivered, the calls made and the answer.
  datatype Delivery = Delivery(bytes: nat, calls: nat, ret: Ret)

  /** What a turn of calls delivers when left bytes of the file and need bytes of the request remain. */
  function Delivered(script: seq<Outcome>, left: nat, need: nat): (r: Delivery)
    ensures r.bytes <= left && r.bytes <= need && r.calls <= |script| && (r.ret.Ok? <==> r.bytes == need)
  {
    if need == 0 then Delivery(0, 0, Ok)
    else if script == [] then Delivery(0, 0, Again)
    else match script[0]
      case Sent(n) =>
        var k := Some(n, left, need);
        if k == 0 then Delivery(0, 1, Error)
        else
          var r := Delivered(script[1..], left - k, need - k);
          Delivery(k + r.bytes, 1 + r.calls, r.ret)
      case Eintr =>
        var r := Delivered(script[1..], left, need);
        r.(calls := 1 + r.calls)
      case Eagain => Delivery(0, 1, Again)
      case Failed => Delivery(0, 1, Error)
  }

  // The first call goes on with the others after sending k bytes, or is the last.
  lemma DeliveredStep(script: seq<Outcome>, left: nat, need: nat, k: nat)
    requires need > 0 && script != [] && k == if script[0].Sent? then Some(script[0].n, left, need) else 0
    ensures var r := Delivered(script, left, need);
      if script[0].Eintr? || k > 0 then
        k <= left && k <= need && var rest := Delivered(script[1..], left - k, need - k); r == Delivery(k + rest.bytes, 1 + rest.calls, rest.ret)
      else r == Delivery(0, 1, if script[0].Eagain? then Again else Error)
  {
    hide Some;
  }

  /** A turn fails exactly if its last call does, or is told that bytes went out and none did. */
  lemma {:induction false} DeliveryFails(script: seq<Outcome>, left: nat, need: nat)
    ensures var r := Delivered(script, left, need);
      r.ret.Error? <==> r.calls > 0 && (script[r.calls - 1].Failed? || (script[r.calls - 1].Sent? && Delivered(script[..r.calls - 1], left, need).bytes == r.bytes))
  {
    if need > 0 && script != [] {
      hide Some, Delivered;
      var k := if script[0].Sent? then Some(script[0].n, left, need) else 0;
      DeliveredStep(script, left, need, k);
      if script[0].Eintr? || k > 0 {
        DeliveryFails(script[1..], left - k, need - k);
        var u := Delivered(script[1..], left - k, need - k).calls;
        if u > 0 {
          assert script[..u][1..] == script[1..][..u - 1];
          DeliveredStep(script[..u], left, need, k);
        } else {
          OneCall(script, left, need);
        }
      } else {
        OneCall(script, left, need);
      }
    }
  }

  // The outcomes that are not interruptions.
  function Calm(script: seq<Outcome>): seq<Outcome> {
    if script == [] then [] else (if script[0].Eintr? then [] else [script[0]]) + Calm(script[1..])
  }

  /** Interruptions change neither what is delivered nor the answer. */
  lemma {:induction false} CalmDelivers(script: seq<Outcome>, left: nat, need: nat)
    ensures var r, r' := Delivered(script, left, need), Delivered(Calm(script), left, need); r.bytes == r'.bytes && r.ret == r'.ret
  {
    if need > 0 && script != [] {
      hide Some, Delivered, Calm;
      var k := if script[0].Sent? then Some(script[0].n, left, need) else 0;
      DeliveredStep(script, left, need, k);
      CalmFirst(script);
      CalmDelivers(script[1..], left - k, need - k);
      if !script[0].Eintr? {
        DeliveredStep(Calm(script), left, need, k);
      }
    }
  }

  lemma CalmFirst(script: seq<Outcome>)
    requires script != []
    ensures Calm(script) == if script[0].Eintr? then Calm(script[1..]) else [script[0]] + Calm(script[1..])
  {
  }

  // Before the first call nothing is delivered.
  lemma OneCall(script: seq<Outcome>, left: nat, need: nat)
    requires script != [] && need > 0
    ensures Delivered(script[..0], left, need) == Delivery(0, 0, Again)
  {
  }

  // A turn in which the kernel takes bytes first and no call fails.
  predicate Fair(script: seq<Outcome>) {
    script != [] && script[0].Sent? && forall i :: 0 <= i < |script| ==> !script[i].Failed?
  }

  lemma {:induction false} NoFailure(script: seq<Outcome>, left: nat, need: nat)
    requires left >= need && forall i :: 0 <= i < |script| ==> !script[i].Failed?
    ensures !Delivered(script, left, need).ret.Error?
  {
    hide Some;
    if need > 0 && script != [] && !script[0].Eagain? {
      var k := if script[0].Sent? then Some(script[0].n, left, need) else 0;
      NoFailure(script[1..], left - k, need - k);
    }
  }

  lemma FairDelivers(script: seq<Outcome>, left: nat, need: nat)
    requires Fair(script) && left >= need > 0
    ensures var r := Delivered(script, left, need); r.bytes > 0 && !r.ret.Error?
  {
    hide Some;
    NoFailure(script, left, need);
  }

  // After u calls and m bytes the other calls deliver what follows.
  ghost predicate SoFar(script: seq<Outcome>, left: nat, need: nat, u: nat, m: int) {
    && u <= |script| && 0 <= m <= left && m <= need
    && var all, rest := Delivered(script, left, need), Delivered(script[u..], left - m, need - m);
       all == Delivery(m + rest.bytes, u + rest.calls, rest.ret)
  }

  lemma SoFarStarts(script: seq<Outcome>, left: nat, need: nat)
    ensures SoFar(script, left, need, 0, 0)
  {
    assert script[0..] == script;
  }

  lemma SoFarNext(script: seq<Outcome>, left: nat, need: nat, u: nat, m: int)
    requires SoFar(script, left, need, u, m)
    ensures var all := Delivered(script, left, need);
      if m == need then all == Delivery(m, u, Ok)
      else if u == |script| then all == Delivery(m, u, Again)
      else match script[u]
        case Sent(n) => (if m == left then all == Delivery(m, u + 1, Error)
                         else SoFar(script, left, need, u + 1, m + Some(n, left - m, need - m)))
        case Eintr => SoFar(script, left, need, u + 1, m)
        case Eagain => all == Delivery(m, u + 1, Again)
        case Failed => all == Delivery(m, u + 1, Error)
  {
    hide Some;
    if u < |script| {
      assert script[u..][1..] == script[u + 1..];
    }
  }

  class Task {
    const file: seq<int>
    var offset: int
    var need: int
    ghost var stream: seq<int>     // what the peer gets

    constructor (file: seq<int>)
      ensures this.file == file && offset == 0 && need == 0 && stream == []
    {
      this.file, offset, need, stream := file, 0, 0, [];
    }

    // The bytes of the file from the offset on; none at or past its end.
    function Left(): nat
      reads this
    {
      if 0 <= offset < |file| then |file| - offset else 0
    }

    /** cfs_faio_io_send_file: used says how much of the script was consumed. */
    method SendFile(script: seq<Outcome>) returns (ret: Ret, used: nat)
      requires need >= 0
      modifies this
      ensures 0 <= need <= old(need) && offset + need == old(offset + need) && used <= |script|
      ensures need < old(need) ==> 0 <= old(offset) < offset <= |file|
      ensures stream == old(stream) + (if offset == old(offset) then [] else file[old(offset)..offset])
      ensures Delivery(offset - old(offset), used, ret) == Delivered(script, old(Left()), old(need))
      ensures ret.Ok? <==> need == 0
      ensures ret.Again? ==> used == |script| || (used > 0 && script[used - 1].Eagain?)
      ensures ret.Error? ==> used > 0 && (script[used - 1].Failed? || (script[used - 1].Sent? && !(0 <= offset < |file|)))
      ensures ret.Error? <==>
        used > 0 && (script[used - 1].Failed? || (script[used - 1].Sent? && Delivered(script[..used - 1], old(Left()), old(need)).bytes == offset - old(offset)))
    {
      hide Delivered, SoFar, Some;
      ghost var left, wanted := Left(), need;
      used := 0;
      SoFarStarts(script, left, wanted);
      DeliveryFails(script, left, wanted);
      while need > 0
        invariant 0 <= need <= old(need) && offset + need == old(offset + need) && used <= |script|
        invariant need < old(need) ==> 0 <= old(offset) < offset <= |file|
        invariant stream == old(stream) + (if offset == old(offset) then [] else file[old(offset)..offset])
        invariant SoFar(script, left, wanted, used, wanted - need) && Left() == left - (wanted - need)
        decreases |script| - used
      {
        SoFarNext(script, left, wanted, used, wanted - need);
        if used == |script| {
          return Again, used;
        }
        var what := script[used];
        used := used + 1;
        match what {
          case Sent(n) =>
            var rc := Some(n, Left(), need);
            if rc == 0 {
              return Error, used;
            }
            Longer(old(stream), file, old(offset), offset, rc);
            stream := stream + file[offset..offset + rc];
            offset := offset + rc;
            need := need - rc;
          case Eintr =>
          case Eagain =>
            return Again, used;
          case Failed =>
            return Error, used;
        }
      }
      SoFarNext(script, left, wanted, used, wanted - need);
      return Ok, used;
    }
  }

  lemma Longer(s: seq<int>, f: seq<int>, a: int, b: int, k: int)
    requires a <= b && 0 <= b && 0 < k && b + k <= |f| && (a < b ==> 0 <= a)
    ensures (s + (if b == a then [] else f[a..b])) + f[b..b + k] == s + f[a..b + k]
  {
  }

  /** A read request of len bytes from start: the task is set up and resumed after every EAGAIN,
      one script per turn. What goes out is file[start..], in order and without gaps; when the
      task ends well, exactly len modulo 2^32 bytes of it, so all that was asked for if and only
      if len is a 32-bit size. If the file has that many and the kernel takes some bytes each
      turn, the task ends well after at most as many turns. */
  method SendBlock(t: Task, start: int, len: int, turns: seq<seq<Outcome>>) returns (ret: Ret)
    modifies t
    ensures start <= t.offset <= start + len % UINT32 && (t.offset > start ==> 0 <= start && t.offset <= |t.file|)
    ensures t.stream == old(t.stream) + (if t.offset == start then [] else t.file[start..t.offset])
    ensures ret.Ok? <==> t.offset == start + len % UINT32
    ensures ret.Ok? ==> (t.offset == start + len <==> 0 <= len < UINT32)
    ensures 0 <= start && start + len % UINT32 <= |t.file| && |turns| >= len % UINT32 && (forall k :: 0 <= k < |turns| ==> Fair(turns[k])) ==> ret.Ok?
  {
    hide Fair;
    ghost var fair := 0 <= start && start + len % UINT32 <= |t.file| && forall k :: 0 <= k < |turns| ==> Fair(turns[k]);
    t.offset := start;
    t.need := len % UINT32;
    ret := Again;
    if t.need == 0 {
      return Ok;
    }
    var k := 0;
    while k < |turns| && ret.Again?
      invariant 0 <= k <= |turns| && 0 <= t.need && t.offset + t.need == start + len % UINT32
      invariant t.offset >= start && (t.offset > start ==> 0 <= start && t.offset <= |t.file|)
      invariant t.stream == old(t.stream) + (if t.offset == start then [] else t.file[start..t.offset])
      invariant ret.Ok? <==> t.need == 0
      invariant fair ==> !ret.Error? && t.offset >= start + k
    {
      ghost var before := t.offset;
      if fair {
        FairDelivers(turns[k], t.Left(), t.need);
      }
      var used;
      ret, used := t.SendFile(turns[k]);
      Whole(old(t.stream), t.file, start, before, t.offset);
      k := k + 1;
    }
  }

  /** A read of 2^32 bytes ends well with nothing sent, whatever the kernel does. */
  method FourGigabytes(t: Task, start: int, turns: seq<seq<Outcome>>) returns (ret: Ret)
    modifies t
    ensures ret.Ok? && t.offset == start && t.stream == old(t.stream)
  {
    ret := SendBlock(t, start, UINT32, turns);
  }

  lemma Whole(s: seq<int>, f: seq<int>, a: int, b: int, c: int)
    requires a <= b <= c && (b < c ==> 0 <= b && c <= |f|) && (a < b ==> 0 <= a && b <= |f|)
    ensures (s + (if b == a then [] else f[a..b])) + (if c == b then [] else f[b..c]) == s + (if c == a then [] else f[a..c])
  {
  }
}

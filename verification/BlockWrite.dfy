/** Receiving a block: recv_block_handler and block_write_complete of src/datanode/dn_request.c,
    the asynchronous pwrite of src/cfs/cfs_faio.c, and the buffer of src/core/dfs_buffer.c. */
module BlockWrite {

  // What one recv call does; bytes are the next ones of the connection.
  datatype Recv = Got(n: nat) | Eof | NetError | WouldBlock

  // How many bytes a successful recv brings: one to as many as fit and are there.
  function Chunk(n: nat, room: nat, left: nat): (k: nat)
    requires room > 0 && left > 0
    ensures 1 <= k <= room && k <= left
  {
    1 + n % (if room < left then room else left)
  }

  /** What the calls of one receive loop bring: the bytes, and how many calls are made. */
  function Arrived(script: seq<Recv>, room: int, left: nat): (r: (nat, nat))
    ensures (r.0 == 0 || r.0 <= room) && r.0 <= left && r.1 <= |script|
  {
    if room <= 0 || script == [] then (0, 0)
    else if script[0].Got? && left > 0 then
      var k := Chunk(script[0].n, room, left);
      var (bytes, calls) := Arrived(script[1..], room - k, left - k);
      (k + bytes, 1 + calls)
    else (0, 1)
  }

  // What one pwrite does: it may fall short of what was asked by any number of bytes.
  datatype Disk = Wrote(short: nat) | DiskError

  function WrittenOf(short: nat, size: nat): (ret: nat)
    ensures ret <= size && (short == 0 ==> ret == size)
  {
    if short <= size then size - short else 0
  }

  datatype Phase =
    | Receiving               // waiting for the connection
    | Writing                 // a write is queued
    | Written(ret: int)       // its result is posted; -1 is an error
    | Done                    // renamed
    | Closed                  // given up

  /** buffer_t: start is 0, end the array's length. */
  class Buffer {
    const data: array<int>
    var pos: int
    var last: int

    constructor (n: nat)
      ensures fresh(data) && data.Length == n && pos == 0 && last == 0
    {
      data, pos, last := new int[n], 0, 0;
    }

    ghost predicate Valid()
      reads this
    {
      0 <= pos <= last <= data.Length
    }

    ghost function Held(): seq<int>
      requires Valid()
      reads this, data
    {
      data[pos..last]
    }

    /** buffer_shrink */
    method Shrink()
      requires Valid()
      modifies this, data
      ensures Valid() && pos == 0 && Held() == old(Held())
    {
      if pos == 0 {
        return;
      }
      var blen := last - pos;
      if blen == 0 {
        pos, last := 0, 0;
        return;
      }
      forall i | 0 <= i < blen {
        data[i] := data[pos + i];
      }
      pos, last := 0, blen;
    }

    // recv into the free space.
    method Append(bytes: seq<int>)
      requires Valid() && last + |bytes| <= data.Length
      modifies this`last, data
      ensures Valid() && Held() == old(Held()) + bytes && last == old(last) + |bytes|
    {
      forall i | 0 <= i < |bytes| {
        data[last + i] := bytes[i];
      }
      last := last + |bytes|;
    }

    /** buffer_reset */
    method Reset()
      modifies this
      ensures Valid() && Held() == [] && pos == 0 == last
    {
      pos, last := 0, 0;
    }
  }

  // f with d written at offset off, which is not past the end.
  function Overwritten(f: seq<int>, off: nat, d: seq<int>): seq<int>
    requires off <= |f|
  {
    f[..off] + d + (if off + |d| <= |f| then f[off + |d|..] else [])
  }

  class Request {
    const len: int            // header.len
    const input: Buffer
    var done: int
    var need: int             // of the file io task
    var offset: int
    var file: seq<int>        // what the store file holds
    var phase: Phase
    var incoming: seq<int>    // what the peer is still going to send
    ghost var received: seq<int>

    constructor (len: int, capacity: nat, incoming: seq<int>)
      ensures Valid() && phase.Receiving? && received == [] && done == 0 && this.len == len && this.incoming == incoming
      ensures fresh(input) && fresh(input.data)
    {
      this.len, done, need, offset, file := len, 0, 0, 0, [];
      phase, this.incoming, received := Receiving, incoming, [];
      input := new Buffer(capacity);
    }

    /** The file is the first done bytes received, the rest of them is in the buffer. */
    ghost predicate Valid()
      reads this, input, input.data
    {
      && input.Valid() && 0 <= done <= |received|
      && (phase.Receiving? ==> file == received[..done] && input.Held() == received[done..])
      && (phase.Writing? ==> file == received[..done] && input.Held() == received[done..] && input.pos == 0 && need == |input.Held()| && offset == done)
      && (phase.Written? ==> phase.ret == -1 || (0 <= phase.ret <= need && need == |received| - done && file == received[..done + phase.ret]))
      && (phase.Done? ==> done >= len && file == received[..done])
    }

    // One successful recv: one to as many bytes as fit and are there.
    method RecvSome(n: nat)
      requires Valid() && phase.Receiving? && input.pos == 0 && input.last < input.data.Length && incoming != []
      modifies this`incoming, this`received, input`last, input.data
      ensures Valid() && phase == Receiving && done == old(done) && input.pos == 0
      ensures received + incoming == old(received + incoming) && old(received) <= received
      ensures |received| == |old(received)| + Chunk(n, input.data.Length - old(input.last), |old(incoming)|)
    {
      var blen := input.data.Length - input.last;
      var rs := Chunk(n, blen, |incoming|);
      input.Append(incoming[..rs]);
      received := received + incoming[..rs];
      incoming := incoming[rs..];
      Split(old(received), old(incoming), rs, done);
    }

    // The receive loop: fills the buffer until it is full or the connection has no more.
    method Fill(script: seq<Recv>) returns (ok: bool, used: nat)
      requires Valid() && phase.Receiving?
      modifies this`incoming, this`received, input, input.data
      ensures Valid() && phase == Receiving && done == old(done) && input.pos == 0 && used <= |script|
      ensures received + incoming == old(received + incoming) && old(received) <= received
      ensures (|received| - |old(received)|, used) == Arrived(script, old(Room()), |old(incoming)|)
      ensures !ok <==> used > 0 && Lost(script[used - 1])
      ensures ok ==> input.last == input.data.Length || used == |script| || incoming == [] || (used > 0 && script[used - 1].WouldBlock?)
    {
      hide Valid, Arrived, Chunk, SoFar;
      ghost var room, left := Room(), |incoming|;
      used := 0;
      SoFarStarts(script, room, left);
      Shrink();
      while true
        invariant Valid() && phase == Receiving && done == old(done) && input.pos == 0
        invariant used <= |script| && (used > 0 ==> script[used - 1].Got?)
        invariant received + incoming == old(received + incoming) && old(received) <= received
        invariant SoFar(script, room, left, used, |received| - |old(received)|)
        invariant Room() == room - (|received| - |old(received)|) && |incoming| == left - (|received| - |old(received)|)
        decreases |script| - used
      {
        Bounds();
        SoFarNext(script, room, left, used, |received| - |old(received)|);
        var blen := input.data.Length - input.last;
        if blen == 0 || used == |script| {
          return true, used;
        }
        var what := script[used];
        used := used + 1;
        match what {
          case Got(n) =>
            if incoming == [] {
              return true, used;
            }
            RecvSome(n);
          case Eof =>
            return false, used;
          case NetError =>
            return false, used;
          case WouldBlock =>
            return true, used;
        }
        Shrink();
      }
    }

    predicate Lost(what: Recv) {
      what.Eof? || what.NetError?
    }

    // What fits into the buffer beside the bytes that are not yet written.
    ghost function Room(): int
      reads this
    {
      input.data.Length - (|received| - done)
    }

    lemma Bounds()
      requires Valid() && phase.Receiving? && input.pos == 0
      ensures input.last <= input.data.Length && Room() == input.data.Length - input.last
    {
    }

    method Shrink()
      requires Valid() && phase.Receiving?
      modifies input, input.data
      ensures Valid() && input.pos == 0
    {
      input.Shrink();
    }

    /** recv_block_handler: what was received is queued to be written behind the first done bytes. */
    method RecvBlock(script: seq<Recv>, queued: bool) returns (used: nat)
      requires Valid() && phase.Receiving?
      modifies this, input, input.data
      ensures Valid() && (phase.Writing? || phase.Closed?) && done == old(done) && used <= |script|
      ensures received + incoming == old(received + incoming) && old(received) <= received
      ensures (|received| - |old(received)|, used) == Arrived(script, old(Room()), |old(incoming)|)
      ensures phase.Writing? ==> need == |received| - done
      ensures phase.Closed? <==> !queued || (used > 0 && Lost(script[used - 1]))
    {
      hide Valid, Arrived, Chunk, Lost;
      var ok;
      ok, used := Fill(script);
      if ok {
        Task(queued);
      } else {
        Close();
      }
    }

    // The file io task for what is in the buffer.
    method Task(queued: bool)
      requires Valid() && phase.Receiving? && input.pos == 0
      modifies this`need, this`offset, this`phase
      ensures Valid() && phase == (if queued then Writing else Closed) && need == |received| - done && offset == done
    {
      need := input.last - input.pos;
      offset := done;
      phase := if queued then Writing else Closed;
    }

    method Close()
      requires Valid()
      modifies this`phase
      ensures Valid() && phase == Closed
    {
      phase := Closed;
    }

    /** cfs_faio_io_write and the callback that posts its result. */
    method WriteIo(what: Disk)
      requires Valid() && phase.Writing?
      modifies this`file, this`phase
      ensures Valid() && phase == Written(if what.Wrote? then WrittenOf(what.short, need) else -1)
    {
      var data := input.data[0..input.last];
      match what {
        case Wrote(short) =>
          var ret := WrittenOf(short, |data|);
          file := Overwritten(file, offset, data[..ret]);
          Extends(received, done, ret);
          phase := Written(ret);
        case DiskError =>
          phase := Written(-1);
      }
    }

    /** block_write_complete: a short or failed write ends the request; the block is renamed only
        once at least header.len bytes are in the file. */
    method WriteComplete()
      requires Valid() && phase.Written?
      modifies this`done, this`phase, input
      ensures Valid() && (phase.Receiving? || phase.Done? || phase.Closed?)
      ensures phase.Closed? <==> old(phase.ret != need || phase.ret == -1)
      ensures !phase.Closed? ==> done == |received| && file == received && (phase.Done? <==> done >= len)
    {
      var rs := phase.ret;
      if rs == -1 || rs != need {
        phase := Closed;
        return;
      }
      done := done + rs;
      if done < len {
        input.Reset();
        phase := Receiving;
        return;
      }
      phase := Done;
    }
  }

  lemma Split(r: seq<int>, i: seq<int>, k: int, d: int)
    requires 0 <= k <= |i| && 0 <= d <= |r|
    ensures (r + i[..k]) + i[k..] == r + i
    ensures (r + i[..k])[..d] == r[..d] && (r + i[..k])[d..] == r[d..] + i[..k]
  {
  }

  lemma Extends(r: seq<int>, d: int, k: int)
    requires 0 <= d && 0 <= k && d + k <= |r|
    ensures Overwritten(r[..d], d, r[d..][..k]) == r[..d + k]
  {
  }

  // After u calls m bytes are there, and the other calls bring what follows.
  ghost predicate SoFar(script: seq<Recv>, room: int, left: nat, u: nat, m: int) {
    && u <= |script| && 0 <= m <= left
    && var all, rest := Arrived(script, room, left), Arrived(script[u..], room - m, left - m);
       all.0 == m + rest.0 && all.1 == u + rest.1
  }

  lemma SoFarStarts(script: seq<Recv>, room: int, left: nat)
    ensures SoFar(script, room, left, 0, 0)
  {
    assert script[0..] == script;
  }

  // The next call ends the loop, or brings a chunk.
  lemma SoFarNext(script: seq<Recv>, room: int, left: nat, u: nat, m: int)
    requires SoFar(script, room, left, u, m)
    ensures u <= |script| && m <= left
    ensures room <= m || u == |script| ==> Arrived(script, room, left) == (m, u)
    ensures room > m && u < |script| && !(script[u].Got? && left > m) ==> Arrived(script, room, left) == (m, u + 1)
    ensures room > m && u < |script| && script[u].Got? && left > m ==>
      SoFar(script, room, left, u + 1, m + Chunk(script[u].n, room - m, left - m))
  {
    hide Chunk;
    if u < |script| {
      assert script[u..][1..] == script[u + 1..];
    }
  }

  // One turn of the event loop for a request: the connection, then the disk, then the completion.
  datatype Turn = Turn(net: seq<Recv>, queued: bool, disk: Disk)

  // A turn in which nothing goes wrong: bytes come first, the write is queued and writes all.
  predicate Fair(t: Turn) {
    t.queued && t.disk == Wrote(0) && t.net != [] && t.net[0].Got? && forall i :: 0 <= i < |t.net| ==> !t.net[i].Eof? && !t.net[i].NetError?
  }

  lemma FairBrings(t: Turn, room: nat, left: nat)
    requires Fair(t) && room > 0 && left > 0
    ensures Arrived(t.net, room, left).0 >= 1
  {
  }

  /** Whatever the sizes of the chunks and writes: a renamed block holds exactly the bytes received,
      in order, and at least header.len of them; they are what the peer sent first. If the peer sends
      that many and nothing goes wrong, the block is renamed after at most as many turns. */
  method Serve(r: Request, turns: seq<Turn>)
    requires r.Valid() && r.phase.Receiving? && r.received == []
    modifies r, r.input, r.input.data
    ensures r.Valid() && r.received + r.incoming == old(r.incoming)
    ensures r.phase.Done? ==> r.done >= r.len && r.file == r.received == old(r.incoming)[..r.done]
    ensures |old(r.incoming)| >= r.len && r.input.data.Length > 0 && |turns| >= r.len && |turns| >= 1 && (forall k :: 0 <= k < |turns| ==> Fair(turns[k])) ==>
      r.phase.Done?
  {
    hide Arrived, Fair;
    ghost var fair := |r.incoming| >= r.len && r.input.data.Length > 0 && forall k :: 0 <= k < |turns| ==> Fair(turns[k]);
    var k := 0;
    while k < |turns| && r.phase.Receiving?
      invariant 0 <= k <= |turns| && r.Valid() && (r.phase.Receiving? || r.phase.Done? || r.phase.Closed?)
      invariant r.received + r.incoming == old(r.incoming) && (r.phase.Done? ==> r.done == |r.received|)
      invariant r.phase.Receiving? ==> r.done == |r.received|
      invariant fair && r.phase.Receiving? ==> r.done >= k && (k > 0 ==> r.done < r.len)
      invariant fair ==> !r.phase.Closed?
    {
      assert |r.received| + |r.incoming| == |old(r.incoming)| && (fair ==> Fair(turns[k]));
      TurnOnce(r, turns[k]);
      k := k + 1;
    }
  }

  // One turn: a fair one does not close the request, and brings at least a byte if one is left.
  method TurnOnce(r: Request, t: Turn)
    requires r.Valid() && r.phase.Receiving? && r.done == |r.received|
    modifies r, r.input, r.input.data
    ensures r.Valid() && (r.phase.Receiving? || r.phase.Done? || r.phase.Closed?)
    ensures r.received + r.incoming == old(r.received + r.incoming)
    ensures !r.phase.Closed? ==> r.done == |r.received| >= |old(r.received)| && (r.phase.Done? <==> r.done >= r.len)
    ensures Fair(t) ==> !r.phase.Closed? && (|old(r.incoming)| > 0 && r.input.data.Length > 0 ==> r.done > old(r.done))
  {
    hide Arrived;
    ghost var room := r.Room();
    if Fair(t) && room > 0 && |r.incoming| > 0 {
      FairBrings(t, room, |r.incoming|);
    }
    var used := r.RecvBlock(t.net, t.queued);
    if r.phase.Writing? {
      r.WriteIo(t.disk);
      r.WriteComplete();
    }
  }
}

/** The shared-memory allocator of src/core/dfs_shmem.c. */
module Shmem {
  import opened Log2
  import opened ShmemLevels
  import opened ShmemRings
  import opened ShmemState

  datatype Err =
    | ErrNone
    | ErrAllocParam | ErrAllocExhausted | ErrAllocFoundNoFixed
    | ErrGetMaxExhausted
    | ErrSplitNoFixedReqMinsize
    | ErrFreeParam | ErrFreeNonAlloced

  class Allocator {
    const cfg: Config
    const system: int
    const total: int
    const rings: Rings             // the links of the lists below
    var threshold: nat
    ghost var order: seq<int>      // all blocks, by address
    var hdr: Headers               // the block headers in memory
    ghost var free: seq<seq<int>>  // class lists
    ghost var available: seq<int>  // non-empty classes
    var top: int                   // max_available_index
    var used: nat
    var reqs: nat
    var stCount: nat
    var failed: nat
    var split: nat
    var splitFailed: nat

    // The lists are rings of links in memory.
    ghost predicate Linked()
      reads this`order, this`free, this`available, rings.nodes
    {
      rings.Shows(order, free, available) && |rings.freeOf| == total
    }

    ghost predicate Valid()
      reads this, rings.nodes
    {
      && Linked()
      && GoodConfig(cfg)
      && system > 0
      && Shape(order, hdr, system, total)
      && Lists(cfg, hdr, free, available, top, {})
      && used == Sum(order, hdr, Used)
      && reqs == Sum(order, hdr, Requested)
      && stCount == |order|
    }

    /** dfs_shmem_remove_free. The mismatch branch is dead. */
    method RemoveFree(st: int, ghost held: set<int>) returns (ok: bool)
      requires GoodConfig(cfg) && Lists(cfg, hdr, free, available, top, held) && Linked()
      requires st in hdr && st !in held && !hdr[st].alloc
      modifies this`hdr, this`free, this`available, this`top, rings.nodes
      ensures ok && Linked()
      ensures hdr == old(hdr)[st := old(hdr)[st].(home := -1)] && free == Unfiled(old(free), old(hdr)[st].home, st)
      ensures Lists(cfg, hdr, free, available, top, held + {st})
    {
      hide FreeOk, AvailOk, Rings.Shows, InsertIndex;
      FiledUnder(cfg, hdr, free, available, top, held, st);
      var index: int := InsertIndex(cfg, hdr[st].size);
      if index > top {
        index := top;
      }
      if hdr[st].home != index {
        assert false; // DFS_SHMEM_ERROR: the block is not on the list its size names
      }
      DetachFree(cfg, hdr, free, held, st);
      hdr := hdr[st := hdr[st].(home := -1)];
      UnlinkFree(index, st);
      return true;
    }

    // Takes the block off its ring, and the class off the ring of non-empty ones when it was the last.
    method UnlinkFree(index: int, st: int)
      requires Linked() && AvailOk(free, available, top) && index in available && 0 <= index < |free| == cfg.freeLen && st in free[index]
      modifies this`free, this`available, this`top, rings.nodes
      ensures Linked() && AvailOk(free, available, top)
      ensures free == old(free)[index := Without(old(free)[index], st)]
    {
      hide Rings.Shows, Without, AvailOk;
      ghost var rest := Without(free[index], st);
      rings.Unfile(index, st, order, free, available);
      free := free[index := rest];
      var empty := rings.FreeEmpty(index, order, free, available);
      if empty {
        DetachAvailLast(old(free), available, top, index);
        UnlinkClass(index);
      } else {
        DetachAvailKeep(old(free), available, top, index, rest);
      }
    }

    // Takes the class off the ring of non-empty ones.
    method UnlinkClass(index: int)
      requires Linked() && index in available
      modifies this`available, this`top, rings.nodes
      ensures Linked() && available == Without(old(available), index)
      ensures var p := Pos(old(available), index);
        top == if index != old(top) then old(top) else if p == 0 then cfg.freeLen else old(available)[p - 1]
    {
      hide Rings.Shows, Without;
      ghost var p := Pos(available, index);
      if index == top {
        var before := rings.AvailPrev(index, order, free, available, p);
        top := if before < 0 then cfg.freeLen else before;
      }
      rings.DropAvail(index, order, free, available);
      available := Without(available, index);
    }

    /** dfs_shmem_insert_free: files a held free block under its class. */
    method InsertFree(st: int, ghost held: set<int>)
      requires GoodConfig(cfg) && Lists(cfg, hdr, free, available, top, held + {st}) && Linked()
      requires st in hdr && st !in held && 0 <= st < total
      modifies this`hdr, this`free, this`available, this`top, rings.nodes
      ensures Linked()
      ensures hdr == if old(hdr)[st].alloc then old(hdr)
                     else old(hdr)[st := old(hdr)[st].(home := Class(cfg, old(hdr)[st].size))]
      ensures free == if old(hdr)[st].alloc then old(free) else Filed(old(free), Class(cfg, old(hdr)[st].size), st)
      ensures Lists(cfg, hdr, free, available, top, held)
    {
      hide FreeOk, AvailOk, Rings.Shows;
      if hdr[st].alloc {
        ListedSame(cfg, hdr, held + {st}, hdr, held, free);
        return;
      }
      var index := InsertIndex(cfg, hdr[st].size);
      if index > cfg.freeLen - 1 {
        index := cfg.freeLen - 1;
      }
      AttachFree(cfg, hdr, free, held, st);
      HeldIsNotFiled(cfg, hdr, free, held + {st}, st);
      hdr := hdr[st := hdr[st].(home := index)];
      LinkFree(index, st);
    }

    // Puts the class on the ring of non-empty ones when it was empty, and the block on its ring.
    method LinkFree(index: int, st: int)
      requires Linked() && AvailOk(free, available, top) && 0 <= index < |free| == cfg.freeLen && 0 <= st < total
      requires forall k :: 0 <= k < |free| ==> st !in free[k]
      modifies this`free, this`available, this`top, rings.nodes
      ensures Linked() && AvailOk(free, available, top)
      ensures free == old(free)[index := [st] + old(free)[index]]
    {
      hide Rings.Shows;
      ghost var list := [st] + free[index];
      var empty := rings.FreeEmpty(index, order, free, available);
      if empty {
        LinkClass(index, list);
      } else {
        AttachAvailKeep(free, available, top, index, list);
      }
      hide AvailOk;
      rings.FileFirst(index, st, order, free, available);
      free := free[index := list];
    }

    // The place of an empty class among the non-empty ones; list is what it is going to hold.
    method LinkClass(index: int, ghost list: seq<int>)
      requires Linked() && AvailOk(free, available, top) && 0 <= index < |free| && free[index] == [] && list != []
      modifies this`available, this`top, rings.nodes
      ensures Linked() && AvailOk(free[index := list], available, top)
    {
      hide Rings.Shows, AvailOk;
      EmptyNotAvailable(free, available, top, index);
      rings.Sizes(order, free, available);
      var c;
      ghost var q;
      c, q := ClassAfter(index);
      AttachAvailNew(free, available, top, index, q, list);
      rings.AddAvail(index, c, order, free, available, q);
      available := available[..q] + [index] + available[q..];
      if c < 0 {
        top := index;
      }
    }

    // The first non-empty class above an empty one, or -1, and its place.
    method ClassAfter(index: int) returns (c: int, ghost q: nat)
      requires Linked() && index !in available
      ensures q <= |available| && c == Nth(available, q) && (c < 0 <==> q == |available|)
      ensures (q > 0 ==> available[q - 1] < index) && (q < |available| ==> index < available[q])
    {
      hide Rings.Shows;
      q := 0;
      c := rings.AvailFirst(order, free, available);
      while c >= 0 && !(index < c)
        invariant 0 <= q <= |available| && c == Nth(available, q) && (c < 0 <==> q == |available|)
        invariant q > 0 ==> available[q - 1] < index
        decreases |available| - q
      {
        assert c in available;
        c := rings.AvailNext(c, order, free, available, q);
        q := q + 1;
      }
      assert q < |available| ==> available[q] in available;
    }

    // Choice of the class list to search (src/core/dfs_shmem.c:424-471).
    method PickList(size: nat) returns (k: int)
      requires Valid() && size > 0 && top != cfg.freeLen
      ensures Chosen(free, AllocIndex(cfg, size), k)
      ensures Fits(hdr, size) && !Starved(cfg, hdr, free, size) ==> ListServes(hdr, free[k], size)
      ensures Starved(cfg, hdr, free, size) ==> k == 0
    {
      var index := AllocIndex(cfg, size);
      TopIsLargest(free, available, top, available[0]);
      if index < top {
        var empty := rings.FreeEmpty(index, order, free, available);
        if !empty {
          ServeAtOrAbove(cfg, hdr, free, size, index);
          ChosenFrom(free, available, top, index, index);
          return index;
        }
        k := AboveIn(index);
        if k < 0 {
          assert false; // no class above the request although the top one is
        }
        ServeAtOrAbove(cfg, hdr, free, size, k);
        ChosenFrom(free, available, top, index, k);
      } else {
        var empty := rings.FreeEmpty(top, order, free, available);
        if empty {
          assert false; // DFS_SHMEM_ERR_ALLOC_MAX_AVAILABLE_EMPTY
        }
        ServeTop(cfg, hdr, free, available, top, size);
        k := top;
        ChosenFrom(free, available, top, index, k);
      }
    }

    // The first non-empty class above index, or -1.
    method AboveIn(index: int) returns (k: int)
      requires Linked() && Increasing(available) && forall c :: c in available ==> 0 <= c < |free| && free[c] != []
      ensures k == -1 ==> forall c :: c in available ==> c <= index
      ensures k != -1 ==> k in available && k > index && forall c :: c in available && c > index ==> k <= c
    {
      hide Rings.Shows, Increasing;
      ghost var q := 0;
      k := rings.AvailFirst(order, free, available);
      while k >= 0
        invariant 0 <= q <= |available| && k == Nth(available, q) && (k < 0 <==> q == |available|)
        invariant forall i :: 0 <= i < q ==> available[i] <= index
        decreases |available| - q
      {
        assert k in available;
        var empty := rings.FreeEmpty(k, order, free, available);
        if !empty && k > index {
          IncreasingFrom(available, q);
          return;
        }
        k := rings.AvailNext(k, order, free, available, q);
        q := q + 1;
      }
    }

    // First-fit search of one class list (src/core/dfs_shmem.c:473-499).
    method FirstFit(k: int, size: nat) returns (found: bool, st: int)
      requires GoodConfig(cfg) && FreeOk(cfg, hdr, free, {}) && Linked()
      requires 0 <= k < |free| && free[k] != []
      ensures found <==> ListServes(hdr, free[k], size)
      ensures found ==> st in hdr && !hdr[st].alloc && hdr[st].size >= size && hdr[st].home == k
      ensures found ==> FirstServing(hdr, free[k], size, st)
    {
      hide Rings.Shows, FreeOk, ListServes;
      FiledFacts(cfg, hdr, free, {}, k);
      ghost var list, q := free[k], 0;
      st := rings.FreeFirst(k, order, free, available);
      while st >= 0
        invariant 0 <= q <= |list| && st == Nth(list, q) && (st < 0 <==> q == |list|)
        invariant SmallBefore(hdr, list, size, q)
        decreases |list| - q
      {
        assert st in list;
        if hdr[st].size >= size {
          Serves(hdr, list, size, st);
          return true, st;
        }
        st := rings.FreeNext(k, st, order, free, available, q);
        q := q + 1;
      }
      NoneServes(hdr, list, size);
      found := false;
    }

    // Takes `size` bytes from the chosen free block, splitting it when the rest is worth
    // a block of its own (src/core/dfs_shmem.c:501-538).
    method Take(st: int, size: nat) returns (addr: int)
      requires Valid() && st in hdr && !hdr[st].alloc && size <= hdr[st].size
      modifies this`hdr, this`order, this`free, this`available, this`top, this`used, this`reqs, this`stCount, rings.nodes
      ensures Valid()
      ensures addr == st + HEADER
      ensures Handed(cfg, old(order), old(hdr), old(free), threshold, size, st, order, hdr, free)
    {
      hide Run, HeadersOk, FreeOk, AvailOk, Sum, Rings.Shows, Handed, Carved, CarvedOrder;
      CarveKeepsShape(cfg, order, hdr, system, total, threshold, st, size);
      TakeOut(st, size);
      HandedMeans(cfg, old(order), old(hdr), old(free), threshold, size, st, order, hdr, free);
      used := used + hdr[st].size;
      reqs := reqs + size;
      return st + HEADER;
    }

    // The same without the counters.
    method TakeOut(st: int, size: nat)
      requires GoodConfig(cfg) && Shape(order, hdr, system, total) && Lists(cfg, hdr, free, available, top, {}) && Linked() && system > 0
      requires st in hdr && st in order && !hdr[st].alloc && size <= hdr[st].size
      modifies this`hdr, this`order, this`free, this`available, this`top, this`stCount, rings.nodes
      ensures Linked() && Lists(cfg, hdr, free, available, top, {})
      ensures stCount - |order| == old(stCount) - |old(order)|
      ensures Handed(cfg, old(order), old(hdr), old(free), threshold, size, st, order, hdr, free)
    {
      hide Shape, FreeOk, AvailOk, Rings.Shows, Unfiled, Filed, Class;
      CarvedExact(cfg, hdr, threshold, st, size);
      BlockExtent(order, hdr, system, total, st);
      ghost var hdr0 := hdr;
      var ok := RemoveFree(st, {});
      assert {} + {st} == {st};
      if !ok {
        assert false; // DFS_SHMEM_ERR_ALLOC_REMOVE_FREE
      }
      if hdr[st].size - size < HEADER + threshold {
        ListedSame(cfg, hdr, {st}, hdr[st := hdr[st].(alloc := true, act := size)], {}, free);
        hdr := hdr[st := hdr[st].(alloc := true, act := size)];
      } else {
        InsideIsFresh(order, hdr0, system, total, st, st + HEADER + size);
        NotListed(order, hdr0, system, total, st + HEADER + size);
        Divide(st, size);
        stCount := stCount + 1;
      }
      assert hdr == Carved(cfg, hdr0, threshold, st, size);
    }

    // Splits a block that is on no list: the rest becomes a free block of its own, right behind it.
    method Divide(st: int, size: nat)
      requires GoodConfig(cfg) && Lists(cfg, hdr, free, available, top, {st}) && Linked()
      requires st in hdr && st in order && !hdr[st].alloc && hdr[st].home == -1 && size + HEADER <= hdr[st].size
      requires var stNew := st + HEADER + size; 0 <= stNew < total && stNew !in hdr && stNew !in order
      modifies this`hdr, this`order, this`free, this`available, this`top, rings.nodes
      ensures Linked() && Lists(cfg, hdr, free, available, top, {})
      ensures var stNew, i, rest := st + HEADER + size, Pos(old(order), st), old(hdr)[st].size - (size + HEADER);
        && hdr == old(hdr)[stNew := Header(false, rest, old(hdr)[st].act, Class(cfg, rest))][st := Header(true, size, size, -1)]
        && order == old(order)[..i] + [st, stNew] + old(order)[i + 1..]
        && free == Filed(old(free), Class(cfg, rest), stNew)
    {
      hide FreeOk, AvailOk, Rings.Shows, Class;
      var stNew := st + HEADER + size;
      ghost var i := Pos(order, st);
      rings.Sizes(order, free, available);
      rings.SplitBlock(st, stNew, order, free, available, i);
      order := order[..i] + [st, stNew] + order[i + 1..];
      LinkRest(st, stNew, size);
      assert {} + {stNew} == {stNew};
      InsertFree(stNew, {});
    }

    // Writes the header of the rest behind the block and shrinks the block.
    method LinkRest(st: int, stNew: int, size: nat)
      requires GoodConfig(cfg) && FreeOk(cfg, hdr, free, {st})
      requires st in hdr && stNew != st && stNew !in hdr && size + HEADER <= hdr[st].size
      modifies this`hdr
      ensures hdr == old(hdr)[stNew := old(hdr)[st].(size := old(hdr)[st].size - (size + HEADER))]
                             [st := old(hdr)[st].(alloc := true, size := size, act := size)]
      ensures FreeOk(cfg, hdr, free, {stNew})
    {
      ghost var before := hdr;
      hdr := hdr[stNew := hdr[st].(size := hdr[st].size - (size + HEADER))];
      hdr := hdr[st := hdr[st].(alloc := true, size := size, act := size)];
      ListedSame(cfg, before, {st}, hdr, {stNew}, free);
    }

    /** dfs_shmem_alloc. addr == 0 stands for NULL. */
    method Alloc(size: nat) returns (addr: int, err: Err)
      requires Valid()
      modifies this, rings.nodes
      ensures Valid()
      ensures err == ErrNone <==> size > 0 && Fits(old(hdr), size) && !Starved(cfg, old(hdr), old(free), size)
      ensures err.ErrNone? || err.ErrAllocParam? || err.ErrAllocExhausted? || err.ErrAllocFoundNoFixed?
      ensures err == ErrAllocParam <==> size == 0
      ensures err == ErrAllocExhausted <==> size > 0 && forall a :: a in old(hdr) ==> old(hdr)[a].alloc
      ensures err != ErrNone ==>
        addr == 0 && order == old(order) && hdr == old(hdr) && free == old(free)
        && available == old(available) && top == old(top)
      ensures err == ErrNone ==>
        var st := addr - HEADER;
        && Picked(cfg, old(hdr), old(free), size, st)
        && Handed(cfg, old(order), old(hdr), old(free), threshold, size, st, order, hdr, free)
      ensures failed == old(failed) + (if err == ErrNone || err == ErrAllocParam then 0 else 1)
      ensures threshold == old(threshold) && split == old(split) && splitFailed == old(splitFailed)
    {
      hide Run, HeadersOk, FreeOk, AvailOk, Sum, Rings.Shows, Handed, Chosen, FirstServing, AllocIndex;
      if size == 0 {
        return 0, ErrAllocParam;
      }
      ExhaustedMeansAllocated(cfg, hdr, free, available, top);
      if top == cfg.freeLen {
        failed := failed + 1;
        return 0, ErrAllocExhausted;
      }
      var k := PickList(size);
      var found, st := FirstFit(k, size);
      if !found {
        failed := failed + 1;
        return 0, ErrAllocFoundNoFixed;
      }
      BlockAddress(order, hdr, system, total, st);
      addr := Take(st, size);
      err := ErrNone;
    }

    /** dfs_shmem_get_max_st: only the last available class is searched, yet the block is
        a largest free block of the whole segment. */
    method GetMaxSt() returns (st: int, err: Err)
      requires Valid()
      ensures err == ErrNone || err == ErrGetMaxExhausted
      ensures err == ErrGetMaxExhausted <==> forall a :: a in hdr ==> hdr[a].alloc
      ensures err == ErrNone ==> st in hdr && !hdr[st].alloc
      ensures err == ErrNone ==> forall a :: a in hdr && !hdr[a].alloc ==> hdr[a].size <= hdr[st].size
      ensures err == ErrNone ==> Chosen(free, |free|, hdr[st].home) && FirstLargest(hdr, free[hdr[st].home], st)
    {
      ExhaustedMeansAllocated(cfg, hdr, free, available, top);
      hide Rings.Shows, Shape, Sum, FreeOk;
      var none, k := LastClass();
      if top == cfg.freeLen || none {
        return 0, ErrGetMaxExhausted;
      }
      TopIsLargest(free, available, top, k);
      ChosenFrom(free, available, top, |free|, k);
      hide AvailOk;
      st := LargestOf(k);
      TopHoldsLargest(cfg, hdr, free, available, top, st);
      err := ErrNone;
    }

    // The last non-empty class.
    method LastClass() returns (none: bool, k: int)
      requires Linked()
      ensures none <==> available == []
      ensures !none ==> k == available[|available| - 1]
    {
      hide Rings.Shows;
      none := rings.AvailEmpty(order, free, available);
      k := rings.AvailLast(order, free, available);
    }

    // A largest block of one class list.
    method LargestOf(k: int) returns (st: int)
      requires GoodConfig(cfg) && FreeOk(cfg, hdr, free, {}) && Linked() && 0 <= k < |free| && free[k] != []
      ensures st in free[k] && forall a :: a in free[k] ==> a in hdr && st in hdr && hdr[a].size <= hdr[st].size
      ensures st in hdr && hdr[st].home == k && FirstLargest(hdr, free[k], st)
    {
      hide Rings.Shows, FreeOk;
      FiledFacts(cfg, hdr, free, {}, k);
      var empty := rings.FreeEmpty(k, order, free, available);
      if empty {
        assert false; // DFS_SHMEM_ERR_GET_MAX_CRITICAL
      }
      ghost var list, q, p := free[k], 1, 0;
      st := rings.FreeFirst(k, order, free, available);
      var a := rings.FreeNext(k, st, order, free, available, 0);
      while a >= 0
        invariant 1 <= q <= |list| && a == Nth(list, q) && (a < 0 <==> q == |list|)
        invariant 0 <= p < q && list[p] == st && st in hdr && SmallBefore(hdr, list, hdr[st].size, p)
        invariant forall i :: 0 <= i < q ==> list[i] in hdr && hdr[list[i]].size <= hdr[st].size
        decreases |list| - q
      {
        assert a in list;
        if hdr[a].size > hdr[st].size {
          st := a;
          p := q;
        }
        a := rings.FreeNext(k, a, order, free, available, q);
        q := q + 1;
      }
    }

    // Hands out a free block whole (src/core/dfs_shmem.c:640-654).
    method TakeWhole(st: int) returns (addr: int, act: nat)
      requires Valid() && st in hdr && !hdr[st].alloc
      modifies this`hdr, this`free, this`available, this`top, this`used, this`reqs, rings.nodes
      ensures Valid()
      ensures addr == st + HEADER && act == old(hdr)[st].size
      ensures hdr == old(hdr)[st := Header(true, act, act, -1)] && free == Unfiled(old(free), old(hdr)[st].home, st)
    {
      hide Run, HeadersOk, FreeOk, AvailOk, Sum, Rings.Shows;
      CarveKeepsShape(cfg, order, hdr, system, total, 0, st, hdr[st].size);
      var ok := RemoveFree(st, {});
      assert {} + {st} == {st};
      if !ok {
        assert false; // DFS_SHMEM_ERR_SPLIT_ALLOC_REMOVE_FREE
      }
      act := hdr[st].size;
      ListedSame(cfg, hdr, {st}, hdr[st := hdr[st].(alloc := true, act := act)], {}, free);
      hdr := hdr[st := hdr[st].(alloc := true, act := act)];
      assert hdr == Carved(cfg, old(hdr), 0, st, act);
      used := used + act;
      reqs := reqs + act;
      addr := st + HEADER;
    }

    /** dfs_shmem_split_alloc: hands out a globally largest free block, whole. */
    method SplitAlloc(reqMin: nat) returns (addr: int, act: nat, err: Err)
      requires Valid()
      modifies this, rings.nodes
      ensures Valid()
      ensures err == ErrNone || err == ErrGetMaxExhausted || err == ErrSplitNoFixedReqMinsize
      ensures err == ErrNone <==> exists a :: a in old(hdr) && !old(hdr)[a].alloc && old(hdr)[a].size >= reqMin
      ensures err != ErrNone ==> addr == 0 && order == old(order) && hdr == old(hdr)
      ensures err == ErrNone ==>
        var st := addr - HEADER;
        && st > 0 && st in old(hdr) && !old(hdr)[st].alloc && act == old(hdr)[st].size
        && (forall a :: a in old(hdr) && !old(hdr)[a].alloc ==> old(hdr)[a].size <= act)
        && hdr == old(hdr)[st := Header(true, act, act, -1)] && order == old(order)
        && free == Unfiled(old(free), old(hdr)[st].home, st)
        && Chosen(old(free), |old(free)|, old(hdr)[st].home) && FirstLargest(old(hdr), old(free)[old(hdr)[st].home], st)
      ensures split == old(split) + 1 && splitFailed == old(splitFailed) + (if err == ErrNone then 0 else 1)
      ensures threshold == old(threshold) && failed == old(failed)
    {
      hide Run, HeadersOk, FreeOk, AvailOk, Sum, Rings.Shows;
      split := split + 1;
      var st;
      st, err := GetMaxSt();
      if err != ErrNone {
        splitFailed := splitFailed + 1;
        return 0, 0, err;
      }
      if hdr[st].size < reqMin {
        splitFailed := splitFailed + 1;
        return 0, 0, ErrSplitNoFixedReqMinsize;
      }
      BlockAddress(order, hdr, system, total, st);
      addr, act := TakeWhole(st);
    }

    // One block takes in the one behind it; both are on no list.
    method Swallow(st: int, gone: int, ghost i: nat)
      requires GoodConfig(cfg) && Lists(cfg, hdr, free, available, top, {st} + {gone}) && Linked()
      requires st in hdr && gone in hdr && st != gone && i < |order| && order[i] == gone && stCount > 0
      modifies this`hdr, this`order, this`stCount, rings.nodes
      ensures Linked() && Lists(cfg, hdr, free, available, top, {st})
      ensures hdr == (old(hdr) - {gone})[st := old(hdr)[st].(size := old(hdr)[st].size + old(hdr)[gone].size + HEADER)]
      ensures order == old(order)[..i] + old(order)[i + 1..] && stCount == old(stCount) - 1
    {
      hide FreeOk, AvailOk, Rings.Shows;
      ghost var before := hdr;
      hdr := hdr[st := hdr[st].(size := hdr[st].size + hdr[gone].size + HEADER)];
      rings.DropBlock(gone, order, free, available, i);
      order := order[..i] + order[i + 1..];
      hdr := hdr - {gone};
      ListedSame(cfg, before, {st} + {gone}, hdr, {st}, free);
      stCount := stCount - 1;
    }

    // Swallows the next block when it is free (src/core/dfs_shmem.c:684-705).
    method AbsorbNext(st: int, ghost i: nat)
      requires GoodConfig(cfg) && Lists(cfg, hdr, free, available, top, {st}) && Linked()
      requires i < |order| && order[i] == st && st in hdr && stCount >= |order|
      requires i + 1 < |order| ==> order[i + 1] in hdr && order[i + 1] == End(hdr, st)
      modifies this`order, this`hdr, this`free, this`available, this`top, this`stCount, rings.nodes
      ensures Linked()
      ensures Lists(cfg, hdr, free, available, top, {st})
      ensures order == NextDropped(old(order), old(hdr), i) && hdr == NextAbsorbed(old(order), old(hdr), i)
      ensures free == if NextFree(old(order), old(hdr), i) then Unfiled(old(free), old(hdr)[old(order)[i + 1]].home, old(order)[i + 1]) else old(free)
      ensures stCount - |order| == old(stCount) - |old(order)|
    {
      hide FreeOk, AvailOk, Rings.Shows;
      var nx := rings.OrderNext(st, order, free, available, i);
      assert i + 1 < |order| ==> order[i + 1] in order;
      if nx < 0 {
        return;
      }
      if !hdr[nx].alloc && nx == st + HEADER + hdr[st].size {
        var ok := RemoveFree(nx, {st});
        if !ok {
          assert false; // DFS_SHMEM_ERR_FREE_REMOVE_NEXT
        }
        Swallow(st, nx, i + 1);
      }
    }

    // Lets the previous block swallow st when it is free (src/core/dfs_shmem.c:707-730).
    method AbsorbPrev(st: int, ghost i: nat) returns (r: int)
      requires GoodConfig(cfg) && Lists(cfg, hdr, free, available, top, {st}) && Linked()
      requires i < |order| && order[i] == st && st in hdr && stCount >= |order|
      requires i > 0 ==> order[i - 1] in hdr && st == End(hdr, order[i - 1])
      modifies this`order, this`hdr, this`free, this`available, this`top, this`stCount, rings.nodes
      ensures Linked()
      ensures Lists(cfg, hdr, free, available, top, {r})
      ensures r == if PrevFree(old(order), old(hdr), i) then old(order)[i - 1] else st
      ensures order == PrevDropped(old(order), old(hdr), i) && hdr == PrevAbsorbed(old(order), old(hdr), i)
      ensures free == if PrevFree(old(order), old(hdr), i) then Unfiled(old(free), old(hdr)[old(order)[i - 1]].home, old(order)[i - 1]) else old(free)
      ensures stCount - |order| == old(stCount) - |old(order)|
    {
      hide FreeOk, AvailOk, Rings.Shows;
      var pv := rings.OrderPrev(st, order, free, available, i);
      assert i > 0 ==> order[i - 1] in order;
      if pv < 0 {
        return st;
      }
      if !hdr[pv].alloc && st == pv + hdr[pv].size + HEADER {
        var ok := RemoveFree(pv, {st});
        if !ok {
          assert false; // DFS_SHMEM_ERR_FREE_REMOVE_PREV
        }
        assert {st} + {pv} == {pv} + {st};
        Swallow(pv, st, i);
        return pv;
      }
      return st;
    }

    // Marks a block free, coalesces it and files the result (src/core/dfs_shmem.c:682-733).
    method Release(st: int, ghost i: nat)
      requires GoodConfig(cfg) && Lists(cfg, hdr, free, available, top, {}) && Linked()
      requires Run(order, hdr, system, total, false)
      requires i < |order| && order[i] == st && st in hdr && hdr[st].alloc && stCount == |order|
      modifies this`order, this`hdr, this`free, this`available, this`top, this`stCount, rings.nodes
      ensures Linked()
      ensures Lists(cfg, hdr, free, available, top, {})
      ensures stCount == |order|
      ensures var j, k := FreedFrom(old(order), old(hdr), i), FreedTo(old(order), old(hdr), i);
        && k <= |old(order)| && Mergeable(old(order)[j..k], old(hdr))
        && order == old(order)[..j] + [old(order)[j]] + old(order)[k..]
        && hdr == Merged(cfg, old(hdr), old(order)[j..k])
        && free == FreedLists(cfg, old(order), old(hdr), old(free), i)
    {
      hide Unfiled, Filed, Rings.Shows, FreeOk, AvailOk, Run, Merged, Class, BothAbsorbed, NextDropped, NextAbsorbed, PrevDropped, PrevAbsorbed;
      StepsOrder(order, hdr, system, total, i);
      StepsMerge(cfg, order, hdr, system, total, i);
      RunTiles(order, hdr, system, total, false, i);
      if i > 0 { RunTiles(order, hdr, system, total, false, i - 1); }
      rings.InSegment(order, free, available, i);
      if i > 0 { rings.InSegment(order, free, available, i - 1); }
      ghost var h1 := hdr[st := hdr[st].(alloc := false)];
      ListedSame(cfg, hdr, {}, h1, {st}, free);
      NextStep(order, h1, i);
      hdr := hdr[st := hdr[st].(alloc := false)];
      AbsorbNext(st, i);
      var r := AbsorbPrev(st, i);
      assert {} + {r} == {r};
      InsertFree(r, {});
    }

    /** dfs_shmem_free. The caller hands in NULL or the address of some block's payload. */
    method Free(addr: int) returns (err: Err)
      requires Valid()
      requires addr != 0 ==> addr - HEADER in hdr
      modifies this, rings.nodes
      ensures Valid()
      ensures err == if addr == 0 then ErrFreeParam
                     else if !old(hdr)[addr - HEADER].alloc then ErrFreeNonAlloced else ErrNone
      ensures err != ErrNone ==> order == old(order) && hdr == old(hdr) && free == old(free) && used == old(used) && reqs == old(reqs)
      ensures err == ErrNone ==>
        var i := Pos(old(order), addr - HEADER);
        var j, k := FreedFrom(old(order), old(hdr), i), FreedTo(old(order), old(hdr), i);
        && k <= |old(order)| && Mergeable(old(order)[j..k], old(hdr))
        && order == old(order)[..j] + [old(order)[j]] + old(order)[k..]
        && hdr == Merged(cfg, old(hdr), old(order)[j..k])
        && free == FreedLists(cfg, old(order), old(hdr), old(free), i)
      ensures threshold == old(threshold) && failed == old(failed) && split == old(split) && splitFailed == old(splitFailed)
    {
      hide Run, HeadersOk, FreeOk, AvailOk, Sum, Merged, Rings.Shows;
      if addr == 0 {
        return ErrFreeParam;
      }
      var st := addr - HEADER;
      if !hdr[st].alloc {
        return ErrFreeNonAlloced;
      }
      ghost var i := Pos(order, st);
      FreeKeepsShape(cfg, order, hdr, system, total, i);
      used := used - hdr[st].size;
      reqs := reqs - hdr[st].act;
      Release(st, i);
      err := ErrNone;
    }

    /** dfs_shmem_set_split_threshold */
    method SetSplitThreshold(size: nat)
      requires Valid()
      modifies this`threshold
      ensures Valid() && threshold == size
    {
      threshold := size;
    }

    // The state dfs_shmem_create leaves behind (src/core/dfs_shmem.c:211-268).
    constructor (c: Config, lo: int, hi: int)
      requires GoodConfig(c) && 0 < lo && lo + HEADER <= hi
      ensures Valid() && fresh(rings) && fresh(rings.nodes)
      ensures cfg == c && system == lo && total == hi && threshold == c.minSize
      ensures order == [lo] && hdr.Keys == {lo} && !hdr[lo].alloc && hdr[lo].size == hi - lo - HEADER
      ensures used == 0 && reqs == 0
    {
      hide Rings.Shows, Shape, Lists, Sum;
      cfg, system, total, threshold := c, lo, hi, c.minSize;
      var size := hi - lo - HEADER;
      var i := InsertIndex(c, size);
      if i >= c.freeLen {
        i := c.freeLen - 1;
      }
      var links := OneBlock(c.freeLen, hi, lo, i);
      rings := links;
      order := [lo];
      hdr := map[lo := Header(false, size, 0, i)];
      free := OneFiled(c.freeLen, lo, i);
      available := [i];
      top := i;
      used, reqs, stCount, failed, split, splitFailed := 0, 0, 1, 0, 0, 0;
      new;
      InitialState(c, lo, size, free);
    }

    /** Frees every live block, in whatever order the caller lists them: the segment is
        back to one free block of the original size. */
    method FreeAll(addrs: seq<int>)
      requires Valid()
      requires NoDup(addrs)
      requires forall a :: a in addrs <==> LiveAddr(hdr, a)
      modifies this, rings.nodes
      ensures Valid()
      ensures order == [system] && hdr.Keys == {system} && !hdr[system].alloc
      ensures hdr[system].size == total - system - HEADER && used == 0 && reqs == 0 && stCount == 1
    {
      hide Rings.Shows, Shape, Lists, Sum, Merged, Mergeable, Run;
      var n := 0;
      while n < |addrs|
        invariant 0 <= n <= |addrs|
        invariant Valid()
        invariant NoDup(addrs[n..])
        invariant forall a :: a in addrs[n..] <==> LiveAddr(hdr, a)
      {
        var a := addrs[n];
        assert addrs[n..] == [a] + addrs[n + 1..] && addrs[n..][1..] == addrs[n + 1..];
        assert a in addrs[n..] && a !in addrs[n + 1..];
        assert forall b :: b in addrs[n + 1..] <==> b in addrs[n..] && b != a;
        BlockAddress(order, hdr, system, total, a - HEADER);
        FreedIsGone(cfg, order, hdr, system, total, a - HEADER);
        ghost var h0 := hdr;
        var err := Free(a);
        assert forall b :: LiveAddr(hdr, b) <==> LiveAddr(h0, b) && b != a;
        n := n + 1;
      }
      forall a | a in hdr ensures !hdr[a].alloc {
        var b := a + HEADER;
        assert LiveAddr(hdr, b) <==> b in addrs[n..];
      }
      AllFreeIsOneBlock(order, hdr, system, total);
      SumOfFree(system, hdr);
    }
  }

  // The class lists with one block on the list of class i.
  ghost function OneFiled(n: nat, a: int, i: int): seq<seq<int>> {
    seq(n, k => if k == i then [a] else [])
  }

  // The rings of a segment with one free block.
  method OneBlock(n: nat, size: int, a: int, i: int) returns (rings: Rings)
    requires 0 <= a < size && 0 <= i < n
    ensures fresh(rings) && fresh(rings.nodes) && rings.Shows([a], OneFiled(n, a, i), [i]) && |rings.freeOf| == size
  {
    hide Rings.Shows;
    rings := new Rings(n, size);
    rings.InitAll();
    ghost var none: seq<seq<int>> := seq(n, _ => []);
    rings.FirstBlock(a, none, []);
    rings.FileFirst(i, a, [a], none, []);
    assert forall k :: 0 <= k < n ==> none[i := [a] + none[i]][k] == OneFiled(n, a, i)[k];
    assert none[i := [a] + none[i]] == OneFiled(n, a, i);
    rings.AddAvail(i, -1, [a], OneFiled(n, a, i), [], 0);
    assert [][..0] + [i] + [][0..] == [i];
  }

  datatype CreateErr =
    | CreateOk | CreateSize | CreateMinSize | CreateLevelType | CreateFreeLen | CreateTotalSize
    | CreateTotalSizeNotEnough | CreateMmap | CreateStorageSize

  // sizeof(struct free_node) and sizeof(dfs_shmem_t) on LP64
  const FREE_NODE: nat := 40
  const SHMEM_T: nat := 168

  // DFS_MATH_ROUND_UP for a page size
  function PageRound(size: nat, page: nat): (t: nat)
    requires page > 0
    ensures size <= t < size + page
  {
    DivBounds(size + page - 1, page);
    (size + page - 1) / page * page
  }

  // The class table reaches max_size with its last class and not before.
  lemma LevelsCoverMax(c: Config)
    requires 0 < c.minSize < c.maxSize && (c.level.Linear? ==> c.factor > 0)
    requires c.freeLen == LevelCount(c.level, c.minSize, c.maxSize, c.factor) + 1
    ensures GoodConfig(c)
    ensures Bound(c, c.freeLen - 1) >= c.maxSize > Bound(c, c.freeLen - 2)
    ensures AllocIndex(c, c.maxSize) == c.freeLen - 1
  {
    LevelBounds(c.level, c.minSize, c.maxSize, c.factor);
    AllocIndexBounds(c, c.maxSize);
  }

  // The parameters a segment keeps of its creation.
  function Kept(minSize: nat, maxSize: nat, levelType: int, factor: nat): Config
    requires 0 < Align(minSize) < Align(maxSize) && (levelType == 0 ==> factor > 0)
  {
    var level, step := if levelType == 0 then Linear else Exp, if levelType == 0 then Align(factor) else 2;
    Config(level, Align(minSize), Align(maxSize), step, LevelCount(level, Align(minSize), Align(maxSize), step) + 1)
  }

  // Where the blocks begin: behind the manager and the class lists.
  function SystemSize(c: Config): nat {
    Align(SHMEM_T + FREE_NODE * c.freeLen)
  }

  /** dfs_shmem_create. levelType is the raw C argument (0 linear, 1 exponential); page is the
      system's page size; mapped is what mmap answered. A linear table needs a positive factor:
      the source divides by it. */
  method Create(size: nat, minSize: nat, maxSize: nat, levelType: int, factor: nat, page: nat, mapped: bool)
    returns (shm: Allocator?, err: CreateErr)
    requires page > 0 && (levelType == 0 ==> factor > 0)
    ensures shm != null <==> err == CreateOk
    ensures err == CreateOk ==> fresh(shm) && fresh(shm.rings.nodes) && shm.Valid()
    ensures err == CreateOk ==>
      && shm.order == [shm.system] && shm.hdr.Keys == {shm.system} && !shm.hdr[shm.system].alloc
      && shm.hdr[shm.system].size == shm.total - shm.system - HEADER >= shm.cfg.maxSize
      && size <= shm.total < size + page
      && shm.used == 0 && shm.threshold == Align(minSize) == shm.cfg.minSize
    ensures err == CreateOk ==>
      && Bound(shm.cfg, shm.cfg.freeLen - 1) >= shm.cfg.maxSize > Bound(shm.cfg, shm.cfg.freeLen - 2)
      && AllocIndex(shm.cfg, shm.cfg.maxSize) == shm.cfg.freeLen - 1
    ensures size == 0 <==> err == CreateSize
    ensures err == CreateMinSize <==> size > 0 && (minSize == 0 || Align(minSize) >= Align(maxSize))
    ensures !err.CreateFreeLen? && !err.CreateTotalSize?
    ensures err == CreateOk <==>
      && size > 0 && 0 < Align(minSize) < Align(maxSize) && levelType in {0, 1} && mapped
      && SystemSize(Kept(minSize, maxSize, levelType, factor)) + HEADER + Align(maxSize) <= PageRound(size, page)
    ensures err == CreateOk ==>
      && 0 < Align(minSize) < Align(maxSize) && shm.cfg == Kept(minSize, maxSize, levelType, factor)
      && shm.system == SystemSize(shm.cfg) && shm.total == PageRound(size, page)
  {
    hide Rings.Shows, Shape, Lists, Sum, Bound, AllocIndex, LevelCount, PageRound;
    shm := null;
    if size == 0 {
      return null, CreateSize;
    }
    var lo, hi := Align(minSize), Align(maxSize);
    if lo == 0 || lo >= hi {
      return null, CreateMinSize;
    }
    if levelType != 0 && levelType != 1 {
      return null, CreateLevelType;
    }
    var level := if levelType == 0 then Linear else Exp;
    var step := if levelType == 0 then Align(factor) else 2;
    var n := LevelCount(level, lo, hi, step);
    var c := Config(level, lo, hi, step, n + 1);
    LevelsCoverMax(c);
    if n == 0 {
      assert false; // DFS_SHMEM_ERR_CREATE_FREELEN
    }
    var total := PageRound(size, page);
    if total == 0 {
      assert false; // DFS_SHMEM_ERR_CREATE_TOTALSIZE
    }
    if !mapped {
      return null, CreateMmap;
    }
    if FREE_NODE * (n + 1) + SHMEM_T + HEADER >= total {
      return null, CreateTotalSizeNotEnough;
    }
    var system := Align(SHMEM_T + FREE_NODE * (n + 1));
    if total - system - HEADER < hi {
      return null, CreateStorageSize;
    }
    shm := new Allocator(c, system, total);
    err := CreateOk;
  }

  // ---- whole runs ----

  datatype Op = DoAlloc(size: nat) | DoSplitAlloc(min: nat) | DoFree(pick: nat) | DoThreshold(value: nat)

  /** Any run of requests: the client may free any address it still holds, in any order. The
      addresses it holds are exactly the allocated blocks, and the statistics add up. */
  method AnyRun(shm: Allocator, ops: seq<Op>) returns (held: seq<int>)
    requires shm.Valid() && forall a :: a in shm.hdr ==> !shm.hdr[a].alloc
    modifies shm, shm.rings.nodes
    ensures shm.Valid()
    ensures NoDup(held) && forall a :: a in held <==> LiveAddr(shm.hdr, a)
    ensures shm.used + Sum(shm.order, shm.hdr, ShmemState.Free) + shm.stCount * HEADER + shm.system == shm.total
    ensures shm.reqs <= shm.used
  {
    hide Rings.Shows, Shape, Lists, Sum, Merged, Mergeable, Carved, Run, Fits, Starved;
    held := [];
    for n := 0 to |ops|
      invariant shm.Valid()
      invariant NoDup(held) && forall a :: a in held <==> LiveAddr(shm.hdr, a)
    {
      match ops[n] {
        case DoAlloc(size) => held := RunAlloc(shm, held, size);
        case DoSplitAlloc(min) => held := RunSplitAlloc(shm, held, min);
        case DoFree(pick) => if |held| > 0 { held := RunFree(shm, held, held[pick % |held|]); }
        case DoThreshold(value) => shm.SetSplitThreshold(value);
      }
    }
    Conservation(shm.order, shm.hdr, shm.system, shm.total);
  }

  method RunAlloc(shm: Allocator, held: seq<int>, size: nat) returns (held': seq<int>)
    requires shm.Valid() && NoDup(held) && forall a :: a in held <==> LiveAddr(shm.hdr, a)
    modifies shm, shm.rings.nodes
    ensures shm.Valid() && NoDup(held') && forall a :: a in held' <==> LiveAddr(shm.hdr, a)
  {
    hide Rings.Shows, Shape, Lists, Sum, Merged, Mergeable, Carved, Run, Fits, Starved;
    ghost var h0, o0, t0 := shm.hdr, shm.order, shm.threshold;
    var addr, err := shm.Alloc(size);
    held' := held;
    if err == ErrNone {
      held' := [addr] + held;
      CarvedIsLive(shm.cfg, o0, h0, shm.system, shm.total, t0, addr - HEADER, size);
      assert forall a :: LiveAddr(shm.hdr, a) <==> LiveAddr(h0, a) || a == addr;
    }
  }

  method RunSplitAlloc(shm: Allocator, held: seq<int>, min: nat) returns (held': seq<int>)
    requires shm.Valid() && NoDup(held) && forall a :: a in held <==> LiveAddr(shm.hdr, a)
    modifies shm, shm.rings.nodes
    ensures shm.Valid() && NoDup(held') && forall a :: a in held' <==> LiveAddr(shm.hdr, a)
  {
    hide Rings.Shows, Shape, Lists, Sum, Merged, Mergeable, Carved, Run;
    ghost var h0 := shm.hdr;
    var addr, act, err := shm.SplitAlloc(min);
    held' := held;
    if err == ErrNone {
      held' := [addr] + held;
      assert forall a :: LiveAddr(shm.hdr, a) <==> LiveAddr(h0, a) || a == addr;
    }
  }

  method RunFree(shm: Allocator, held: seq<int>, addr: int) returns (held': seq<int>)
    requires shm.Valid() && NoDup(held) && forall a :: a in held <==> LiveAddr(shm.hdr, a)
    requires addr in held
    modifies shm, shm.rings.nodes
    ensures shm.Valid() && NoDup(held') && forall a :: a in held' <==> LiveAddr(shm.hdr, a)
  {
    hide Rings.Shows, Shape, Lists, Sum, Merged, Mergeable, Run;
    ghost var h0 := shm.hdr;
    BlockAddress(shm.order, shm.hdr, shm.system, shm.total, addr - HEADER);
    FreedIsGone(shm.cfg, shm.order, shm.hdr, shm.system, shm.total, addr - HEADER);
    var err := shm.Free(addr);
    assert forall a :: LiveAddr(shm.hdr, a) <==> LiveAddr(h0, a) && a != addr;
    WithoutMembers(held, addr);
    held' := Without(held, addr);
  }

  // ---- the gap below min_size ----

  // With a single free block, a request is served exactly when that block is large enough.
  lemma OnlyBlockServes(c: Config, hdr: Headers, free: seq<seq<int>>, available: seq<int>, top: int, a: int, size: nat)
    requires GoodConfig(c) && Lists(c, hdr, free, available, top, {})
    requires a in hdr && !hdr[a].alloc && hdr[a].size >= size
    requires forall b :: b in hdr && !hdr[b].alloc ==> b == a
    ensures Fits(hdr, size) && !Starved(c, hdr, free, size)
  {
    if free[0] != [] {
      var x := free[0][0];
      assert x in free[0];
    }
  }

  // An 8-byte block alone on class 0 blocks a 16-byte request.
  lemma TinyBlockStarves(c: Config, hdr: Headers, free: seq<seq<int>>, available: seq<int>, top: int, a: int, b: int)
    requires GoodConfig(c) && Lists(c, hdr, free, available, top, {}) && c.minSize == 64
    requires a in hdr && !hdr[a].alloc && hdr[a].size == 8 && hdr[a].home == 0
    requires b in hdr && !hdr[b].alloc && hdr[b].home != 0
    requires forall x :: x in hdr && !hdr[x].alloc ==> x == a || x == b
    ensures Starved(c, hdr, free, 16)
  {
    assert a in free[0];
  }

  const TINY := Config(Linear, 64, 1024, 64, 16)

  lemma TwoCuts(act: nat, home: int)
    ensures var h0 := map[808 := Header(false, 3224, act, home)];
      var h1 := Carved(TINY, h0, 64, 808, 8);
      && h1 == map[808 := Header(true, 8, 8, -1), 880 := Header(false, 3152, act, 15)]
      && CarvedOrder([808], h0, 64, 808, 8) == [808, 880]
      && Carved(TINY, h1, 64, 880, 8)
         == map[808 := Header(true, 8, 8, -1), 880 := Header(true, 8, 8, -1), 952 := Header(false, 3080, act, 15)]
      && CarvedOrder([808, 880], h1, 64, 880, 8) == [808, 880, 952]
  {
    var h0 := map[808 := Header(false, 3224, act, home)];
    var h1 := map[808 := Header(true, 8, 8, -1), 880 := Header(false, 3152, act, 15)];
    assert Class(TINY, 3152) == 15 && Class(TINY, 3080) == 15;
    assert Carved(TINY, h0, 64, 808, 8) == h1;
  }

  lemma OneFree(act: nat)
    ensures var h := map[808 := Header(true, 8, 8, -1), 880 := Header(true, 8, 8, -1), 952 := Header(false, 3080, act, 15)];
      var o := [808, 880, 952];
      && Pos(o, 808) == 0 && FreedFrom(o, h, 0) == 0 && FreedTo(o, h, 0) == 1
      && o[0..1] == [808] && Mergeable([808], h)
      && Merged(TINY, h, [808]) == h[808 := Header(false, 8, 8, 0)]
  {
    var h := map[808 := Header(true, 8, 8, -1), 880 := Header(true, 8, 8, -1), 952 := Header(false, 3080, act, 15)];
    MergedAlone(TINY, h, 808);
  }

  // What dfs_shmem_create makes of one page, sizes from 64 to 1024 and steps of 64.
  lemma TinyArena()
    ensures 0 < Align(64) < Align(1024) && Kept(64, 1024, 0, 64) == TINY && SystemSize(TINY) == 808 && PageRound(4096, 4096) == 4096
  {
  }

  method TinySegment() returns (shm: Allocator)
    ensures fresh(shm) && fresh(shm.rings.nodes) && shm.Valid() && shm.cfg == TINY && shm.order == [808] && shm.threshold == 64
    ensures shm.hdr.Keys == {808} && !shm.hdr[808].alloc && shm.hdr[808].size == 3224
  {
    TinyArena();
    hide Rings.Shows, Shape, Lists, Sum, Kept, SystemSize, PageRound, Bound, AllocIndex;
    var made, err := Create(4096, 64, 1024, 0, 64, 4096, true);
    shm := made;
  }

  /** The gap in dfs_shmem_alloc below min_size, reached in four calls on a new segment of one page: two 8-byte blocks are
      taken, the first is freed, and a 16-byte request then fails although a block of
      3080 bytes is free. */
  method SmallRequestStarves() returns (err: Err, largest: nat)
    ensures err == ErrAllocFoundNoFixed && largest == 3080
  {
    hide Rings.Shows, Shape, Lists, Sum, Merged, Mergeable, Carved, CarvedOrder, Run, FreedFrom, FreedTo, Pos, Starved, Fits;
    var shm := TinySegment();
    ghost var act, home := shm.hdr[808].act, shm.hdr[808].home;
    assert shm.hdr == map[808 := Header(false, 3224, act, home)];
    TwoCuts(act, home);
    OnlyBlockServes(TINY, shm.hdr, shm.free, shm.available, shm.top, 808, 8);
    var a, e := shm.Alloc(8);
    OnlyBlockServes(TINY, shm.hdr, shm.free, shm.available, shm.top, 880, 8);
    var b;
    b, e := shm.Alloc(8);
    OneFree(act);
    e := shm.Free(a);
    TinyBlockStarves(TINY, shm.hdr, shm.free, shm.available, shm.top, 808, 952);
    b, err := shm.Alloc(16);
    largest := shm.hdr[952].size;
  }
}

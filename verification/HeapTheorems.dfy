/** What single calls of kernel/mm/heap.c promise, in any heap and for any request. */
module HeapTheorems {
  import opened Arithmetic
  import opened Words
  import opened HeapBlocks
  import opened HeapCoalesce
  import opened HeapOps

  // ---- Separation and accounting -----------------------------------------------------

  /** A live payload lies inside the heap, meets no header and no other live payload. */
  lemma {:induction false} LiveSeparate(s: State, p: nat, q: nat, b: Block)
    requires Inv(s) && p in s.live && q in s.live && b in s.blocks
    ensures p + 1 + s.live[p] <= s.hi
    ensures !(p < b.at < p + 1 + s.live[p])
    ensures p != q ==> p + 1 + s.live[p] <= q || q + 1 + s.live[q] <= p
  {
    TilesIndex(s.blocks, 0, s.hi);
    var i := IndexAt(s.blocks, p);
    var j := IndexAt(s.blocks, q);
    IndexAtBlock(s.blocks, s.hi, Block(p, s.live[p], true));
    IndexAtBlock(s.blocks, s.hi, Block(q, s.live[q], true));
    IndexAtBlock(s.blocks, s.hi, b);
    var k := IndexAt(s.blocks, b.at);
    assert i < k ==> s.blocks[i].End() <= s.blocks[k].at;
    assert k < i ==> s.blocks[k].End() <= s.blocks[i].at;
    assert i < j ==> s.blocks[i].End() <= s.blocks[j].at;
    assert j < i ==> s.blocks[j].End() <= s.blocks[i].at;
  }

  /** Allocated bytes, free bytes and one header per block add up to the heap. */
  lemma {:induction false} Accounting(bs: seq<Block>, lo: nat, hi: nat)
    requires Tiles(bs, lo, hi)
    ensures 16 * SumUnits(bs, true) + 16 * SumUnits(bs, false) + HEADER_BYTES * |bs| == 16 * (hi - lo)
  {
    TilesIndex(bs, lo, hi);
    if bs != [] {
      Accounting(bs[1..], bs[0].End(), hi);
    }
  }

  /** A split costs one header of usable memory; coalescing wins back one header for each
      block that disappears. */
  lemma {:induction false} HeaderCost(bs: seq<Block>, hi: nat, i: nat, need: nat)
    requires Tiles(bs, 0, hi) && i < |bs| && bs[i].units >= need + 2
    ensures var r := Split(bs, i, need);
      SumUnits(r, true) + SumUnits(r, false) + 1 == SumUnits(bs, true) + SumUnits(bs, false)
    ensures var c := Coalesce(bs);
      SumUnits(c, true) + SumUnits(c, false) == SumUnits(bs, true) + SumUnits(bs, false) + |bs| - |c|
  {
    CarveInv(bs, hi, i, need, true);
    CoalesceProperties(bs, 0, hi);
    Accounting(bs, 0, hi);
    Accounting(Split(bs, i, need), 0, hi);
    Accounting(Coalesce(bs), 0, hi);
  }

  // ---- kmalloc -----------------------------------------------------------------------

  /** Rounding is right exactly below 2^32 - 15; above, it wraps to zero. */
  lemma {:induction false} RoundUpExact(n: Word)
    ensures RoundUp(n) % ALIGNMENT == 0
    ensures RoundUp(n) >= n <==> n <= WORD - 16
    ensures n <= WORD - 16 ==> RoundUp(n) < n + ALIGNMENT
    ensures n > WORD - 16 ==> RoundUp(n) == 0
  {
  }

  /** A block of the rounded size, or one granule more, is long enough exactly when rounding did
      not wrap; if it did, the block has at most one granule. */
  lemma {:induction false} LongEnough(n: Word, units: nat)
    requires n > 0 && units in {Need(n), Need(n) + 1}
    ensures 16 * units >= n <==> n <= WORD - 16
    ensures n <= WORD - 16 ==> 16 * units < n + 32
    ensures n > WORD - 16 ==> units <= 1
  {
    RoundUpExact(n);
  }

  ghost predicate Fitting(bs: seq<Block>, need: nat) {
    exists i :: 0 <= i < |bs| && bs[i].Fits(need)
  }

  /** The search takes the lowest fitting block, keeps what was live, and what it hands out
      is as long as asked for or one granule longer. */
  lemma {:induction false} PlaceFirstFit(g: State, need: nat)
    requires Inv(g)
    ensures var (s, r) := Place(g, need);
      && (r.None? ==> s == g)
      && (r.Some? <==> Fitting(g.blocks, need))
      && (r.Some? ==>
            && IndexAt(g.blocks, r.value) < |g.blocks|
            && g.blocks[IndexAt(g.blocks, r.value)].Fits(need)
            && (forall i :: 0 <= i < |g.blocks| && g.blocks[i].Fits(need) ==> r.value <= g.blocks[i].at)
            && r.value in s.live && r.value !in g.live
            && s.live == g.live[r.value := s.live[r.value]] && s.live[r.value] in {need, need + 1})
  {
    var i := FirstFit(g.blocks, need);
    if i < |g.blocks| {
      CarveState(g, i, need);
      IndexAtBlock(g.blocks, g.hi, g.blocks[i]);
      TilesIndex(g.blocks, 0, g.hi);
      forall j | 0 <= j < |g.blocks| && g.blocks[j].Fits(need) ensures g.blocks[i].at <= g.blocks[j].at {
        assert i < j ==> g.blocks[i].End() <= g.blocks[j].at;
      }
    }
  }

  /** kmalloc is first fit by address over the heap it searches last. Its block is the rounded
      size or one granule more, so it is long enough exactly when rounding did not wrap. */
  lemma {:induction false} MallocFirstFit(s: State, n: Word, flags: seq<bool>)
    requires Inv(s) && n > 0
    ensures var (s', r) := Malloc(s, n, flags);
            var g := Grown(s, n, flags);
      && (r.Some? <==> Fitting(g.blocks, Need(n)))
      && (r.Some? ==>
            && IndexAt(g.blocks, r.value) < |g.blocks|
            && g.blocks[IndexAt(g.blocks, r.value)].Fits(Need(n))
            && (forall i :: 0 <= i < |g.blocks| && g.blocks[i].Fits(Need(n)) ==> r.value <= g.blocks[i].at)
            && r.value in s'.live && s'.live[r.value] in {Need(n), Need(n) + 1}
            && (16 * s'.live[r.value] >= n <==> n <= WORD - 16)
            && (n <= WORD - 16 ==> 16 * s'.live[r.value] < n + 32)
            && s'.live == s.live[r.value := s'.live[r.value]])
  {
    GrownInv(s, n, flags);
    PlaceFirstFit(Grown(s, n, flags), Need(n));
    var (s', q) := Malloc(s, n, flags);
    if q.Some? { LongEnough(n, s'.live[q.value]); }
  }

  /** Exactly when kmalloc succeeds: a free block fits already, or the request fits one page
      and some page granted during this call reads zero where its `used` byte goes. Pages are
      not merged when they arrive, so growing never helps a larger request. */
  lemma {:induction false} MallocSucceeds(s: State, n: Word, flags: seq<bool>)
    requires Inv(s) && n > 0
    ensures Malloc(s, n, flags).1.Some? <==>
      || Fitting(s.blocks, Need(n))
      || (Need(n) < PAGE_UNITS && false in Granted(flags, PagesWanted(RoundUp(n))))
  {
    GrownInv(s, n, flags);
    PlaceFirstFit(Grown(s, n, flags), Need(n));
    PagesFitting(s.blocks, s.hi, Granted(flags, PagesWanted(RoundUp(n))), Need(n));
  }

  lemma {:induction false} PagesFitting(bs: seq<Block>, hi: nat, flags: seq<bool>, need: nat)
    ensures Fitting(bs + FreshPages(hi, flags), need)
      <==> Fitting(bs, need) || (need < PAGE_UNITS && false in flags)
    ensures FirstFit(bs, need) < |bs| <==> Fitting(bs, need)
  {
    var pages := FreshPages(hi, flags);
    FreshPagesTile(hi, flags);
    if Fitting(bs, need) {
      var i :| 0 <= i < |bs| && bs[i].Fits(need);
      assert (bs + pages)[i] == bs[i];
    }
    if false in flags && need < PAGE_UNITS {
      var k :| 0 <= k < |flags| && flags[k] == false;
      assert (bs + pages)[|bs| + k] == pages[k];
    }
  }

  /** A request that wraps to zero bytes succeeds on the first heap with a pointer to a payload
      of no bytes at all; what it points to is the header of the next block. */
  lemma {:induction false} WrappedMalloc()
    ensures var (s, r) := Malloc(START, 0xFFFF_FFFF, []);
      r == Some(0) && s.live == map[0 := 0] && s.blocks == [Block(0, 0, true), Block(1, 254, false)]
  {
    var bs := START.blocks;
    var split := [Block(0, 0, false), Block(1, 254, false)];
    assert RoundUp(0xFFFF_FFFF) == 0 && bs[1..] == [] && bs[..0] == [];
    assert Split(bs, 0, 0) == split;
    assert split[..0] == [] && split[1..] == [Block(1, 254, false)];
    assert Mark(split, 0, true) == [Block(0, 0, true), Block(1, 254, false)];
  }

  /** Up to 4080 bytes kmalloc asks for one page when nothing fits, and then fails exactly when
      the page source did, or handed over a page whose `used` byte is not zero. */
  lemma {:induction false} SmallMallocProgress(s: State, n: Word, flags: seq<bool>)
    requires Inv(s) && 1 <= n <= PAGE_BYTES - HEADER_BYTES
    ensures PagesWanted(RoundUp(n)) == 1
    ensures Malloc(s, n, flags).1.None? <==> !Fitting(s.blocks, Need(n)) && (flags == [] || flags[0])
  {
    hide Malloc, Need, RoundUp, PagesWanted, Inv;
    SmallRequest(n);
    MallocSucceeds(s, n, flags);
    assert Granted(flags, 1) == if flags == [] then [] else [flags[0]];
  }

  lemma {:induction false} SmallRequest(n: Word)
    requires 1 <= n <= PAGE_BYTES - HEADER_BYTES
    ensures PagesWanted(RoundUp(n)) == 1 && Need(n) < PAGE_UNITS
  {
    hide RoundUp, PagesWanted;
    RoundUpExact(n);
    assert 0 < RoundUp(n) <= 4080;
    OnePageFor(RoundUp(n));
  }

  lemma {:induction false} OnePageFor(size: Word)
    requires 0 < size <= PAGE_BYTES - HEADER_BYTES
    ensures PagesWanted(size) == 1
  {
    DivUnique(size + 2 * HEADER_BYTES + EXPAND_BYTES - 1, EXPAND_BYTES, 1, size + 2 * HEADER_BYTES - 1);
  }

  /** kfree undoes a kmalloc, down to the same block list, exactly when the heap was coalesced and
      did not have to grow. */
  lemma {:induction false} MallocFreeRoundTrip(s: State, n: Word, flags: seq<bool>)
    requires Inv(s) && n > 0 && Malloc(s, n, flags).1.Some?
    ensures var (s', r) := Malloc(s, n, flags);
      Free(s', r.value) == s <==> Coalesced(s.blocks) && Fitting(s.blocks, Need(n))
  {
    hide Inv, Coalesced, Carve, Free, Need, Fitting, Grown;
    var (s', r) := Malloc(s, n, flags);
    PagesFitting(s.blocks, s.hi, [], Need(n));
    if Fitting(s.blocks, Need(n)) {
      GrownFits(s, n, flags);
      if Coalesced(s.blocks) { CarveFreeRoundTrip(s, FirstFit(s.blocks, Need(n)), Need(n)); }
    } else {
      GrownLonger(s, n, flags);
    }
    MallocFirstFit(s, n, flags);
    MallocInv(s, n, flags);
    FreeKeepsLength(s', r.value);
  }

  lemma {:induction false} GrownFits(s: State, n: Word, flags: seq<bool>)
    requires FirstFit(s.blocks, Need(n)) < |s.blocks|
    ensures Grown(s, n, flags) == s
  {
  }

  lemma {:induction false} GrownLonger(s: State, n: Word, flags: seq<bool>)
    requires Inv(s) && n > 0 && Malloc(s, n, flags).1.Some? && !Fitting(s.blocks, Need(n))
    ensures Malloc(s, n, flags).0.hi > s.hi
  {
    hide Need, Fitting;
    MallocSucceeds(s, n, flags);
    PagesFitting(s.blocks, s.hi, [], Need(n));
  }

  lemma {:induction false} FreeKeepsLength(s: State, p: nat)
    requires Inv(s) && p in s.live
    ensures Free(s, p).hi == s.hi && Coalesced(Free(s, p).blocks)
  {
    FreeInv(s, p);
    IndexAtBlock(s.blocks, s.hi, Block(p, s.live[p], true));
  }

  lemma {:induction false} CarveFreeRoundTrip(s: State, i: nat, need: nat)
    requires Inv(s) && Coalesced(s.blocks) && i < |s.blocks| && s.blocks[i].Fits(need)
    ensures Free(Carve(s, i, need), s.blocks[i].at) == s
  {
    hide Inv, Carve, Mark, SplitIfRoomy, Coalesce, Coalesced, Used, Tiles, IndexAt;
    Basics(s);
    var t, p := Carve(s, i, need), s.blocks[i].at;
    var r := SplitIfRoomy(s.blocks, i, need);
    CarveInv(s.blocks, s.hi, i, need, true);
    CarveState(s, i, need);
    Basics(t);
    CarveIs(s, i, need);
    IndexAtIs(t.blocks, t.hi, i);
    MarkBack(r, i);
    SplitCoalesces(s.blocks, s.hi, i, need);
    assert t.live - {p} == s.live;
  }

  lemma {:induction false} Basics(s: State)
    requires Inv(s)
    ensures Tiles(s.blocks, 0, s.hi) && s.blocks != []
  {
  }

  lemma {:induction false} CarveIs(s: State, i: nat, need: nat)
    requires Inv(s) && i < |s.blocks| && s.blocks[i].Fits(need)
    ensures i < |SplitIfRoomy(s.blocks, i, need)|
    ensures Carve(s, i, need).blocks == Mark(SplitIfRoomy(s.blocks, i, need), i, true)
    ensures Carve(s, i, need).hi == s.hi && i < |Carve(s, i, need).blocks|
    ensures Carve(s, i, need).blocks[i].at == s.blocks[i].at
  {
    CarveInv(s.blocks, s.hi, i, need, true);
  }

  /** Coalescing undoes the split of a free block in a coalesced heap. */
  lemma {:induction false} SplitCoalesces(bs: seq<Block>, hi: nat, i: nat, need: nat)
    requires Tiles(bs, 0, hi) && Coalesced(bs) && i < |bs| && !bs[i].used
    ensures Coalesce(SplitIfRoomy(bs, i, need)) == bs
  {
    hide SplitIfRoomy, Coalesce, Coalesced, Used, Tiles;
    var r := SplitIfRoomy(bs, i, need);
    CarveInv(bs, hi, i, need, true);
    UsedSplit(bs, hi, i, need);
    CoalesceProperties(r, 0, hi);
    CanonicalForm(Coalesce(r), bs, 0, hi);
  }

  lemma {:induction false} IndexAtIs(bs: seq<Block>, hi: nat, i: nat)
    requires Tiles(bs, 0, hi) && i < |bs|
    ensures IndexAt(bs, bs[i].at) == i
  {
    TilesIndex(bs, 0, hi);
    var j := IndexAt(bs, bs[i].at);
    if j < i { assert false; }
  }

  lemma {:induction false} MarkBack(bs: seq<Block>, i: nat)
    requires i < |bs| && !bs[i].used
    ensures i < |Mark(bs, i, true)| && Mark(Mark(bs, i, true), i, false) == bs
  {
    assert Mark(bs, i, true)[i].(used := false) == bs[i];
  }

  lemma {:induction false} SplitUsed(bs: seq<Block>, hi: nat, i: nat, need: nat)
    requires Tiles(bs, 0, hi) && i < |bs| && bs[i].units >= need + 2
    ensures Used(bs) == Used(bs[..i]) + Used([bs[i]]) + Used(bs[i + 1..])
    ensures Used(Split(bs, i, need))
         == Used(bs[..i]) + Used([Block(bs[i].at, need, bs[i].used)]) + Used(bs[i + 1..])
  {
    var head, rest := Block(bs[i].at, need, bs[i].used), Block(bs[i].at + 1 + need, bs[i].units - need - 1, false);
    var mid := [head, rest];
    assert mid[1..] == [rest] && [rest][1..] == [] && mid == [head] + [rest];
    ReplaceTiles(bs, 0, hi, i, 1, mid);
    UsedConcat([head], [rest]);
    assert bs[i..i + 1] == [bs[i]];
  }

  lemma {:induction false} UsedSplit(bs: seq<Block>, hi: nat, i: nat, need: nat)
    requires Tiles(bs, 0, hi) && i < |bs| && !bs[i].used
    ensures Used(SplitIfRoomy(bs, i, need)) == Used(bs)
  {
    if bs[i].units >= need + 2 {
      SplitUsed(bs, hi, i, need);
    }
  }

  // ---- krealloc ----------------------------------------------------------------------

  /** krealloc keeps every other live block; it fails only by leaving the block as it was, and
      exactly when it has to move the block and kmalloc fails. The block is then long enough
      exactly when rounding did not wrap; a size that wraps cuts it to 16 bytes or none. */
  lemma {:induction false} ReallocOutcome(s: State, p: nat, n: Word, flags: seq<bool>)
    requires Inv(s) && p in s.live && n > 0
    ensures var (s', q) := Realloc(s, p, n, flags);
      && (q.None? ==> s'.live == s.live)
      && (q.Some? <==>
            || s.live[p] >= Need(n)
            || Fitting(s.blocks, Need(n))
            || (Need(n) < PAGE_UNITS && false in Granted(flags, PagesWanted(RoundUp(n)))))
      && (q.Some? ==>
            && q.value in s'.live && s'.live - {q.value} == s.live - {p}
            && (q.value == p || q.value !in s.live)
            && (q.value == p <==> s.live[p] >= Need(n))
            && (q.value != p ==> Coalesced(s'.blocks))
            && (16 * s'.live[q.value] >= n <==> n <= WORD - 16)
            && (n <= WORD - 16 ==> 16 * s'.live[q.value] < n + 32)
            && (n > WORD - 16 ==> q.value == p && s'.live[p] <= 1))
  {
    hide Realloc, Need, RoundUp, PagesWanted, Inv, Fitting;
    if s.live[p] >= Need(n) {
      ReallocInPlace(s, p, n, flags);
      LongEnough(n, Realloc(s, p, n, flags).0.live[p]);
    } else {
      ReallocMoves(s, p, n, flags);
      var (s', q) := Realloc(s, p, n, flags);
      if q.Some? { LongEnough(n, s'.live[q.value]); }
      WrappedNeed(n);
    }
  }

  /** heap_expand asks for the least number of 64 KiB units that hold the rounded size and two
      headers, exactly when that sum stays clear of 2^32 (sizes that round to zero included). */
  lemma {:induction false} PagesWantedExact(n: Word)
    ensures var k := PagesWanted(RoundUp(n));
      RoundUp(n) + 2 * HEADER_BYTES <= EXPAND_BYTES * k <==> n <= WORD - 0x10020 || n > WORD - 16
    ensures var k := PagesWanted(RoundUp(n));
      n <= WORD - 0x10020 || n > WORD - 16 ==> EXPAND_BYTES * (k - 1) < RoundUp(n) + 2 * HEADER_BYTES
  {
    RoundUpExact(n);
    RoundUpLimit(n);
    hide RoundUp;
    UnitsFor(RoundUp(n));
  }

  lemma {:induction false} RoundUpLimit(n: Word)
    ensures RoundUp(n) <= WORD - 0x10020 <==> n <= WORD - 0x10020 || n > WORD - 16
  {
  }

  lemma {:induction false} UnitsFor(size: Word)
    requires size % ALIGNMENT == 0
    ensures var k := PagesWanted(size);
      && (size + 2 * HEADER_BYTES <= EXPAND_BYTES * k <==> size <= WORD - 0x10020)
      && (size <= WORD - 0x10020 ==> EXPAND_BYTES * (k - 1) < size + 2 * HEADER_BYTES)
  {
    if size <= WORD - 0x10020 {
      assert size + 2 * HEADER_BYTES + EXPAND_BYTES - 1 < WORD;
    }
  }

  lemma {:induction false} WrappedNeed(n: Word)
    ensures n > WORD - 16 ==> Need(n) == 0
  {
  }

  lemma {:induction false} ReallocInPlace(s: State, p: nat, n: Word, flags: seq<bool>)
    requires Inv(s) && p in s.live && n > 0 && s.live[p] >= Need(n)
    ensures var (s', q) := Realloc(s, p, n, flags);
      && q == Some(p) && p in s'.live && s'.live == s.live[p := s'.live[p]]
      && s'.live[p] in {Need(n), Need(n) + 1}
  {
    hide Need;
    IndexAtBlock(s.blocks, s.hi, Block(p, s.live[p], true));
    CarveInv(s.blocks, s.hi, IndexAt(s.blocks, p), Need(n), true);
  }

  lemma {:induction false} ReallocMoves(s: State, p: nat, n: Word, flags: seq<bool>)
    requires Inv(s) && p in s.live && n > 0 && s.live[p] < Need(n)
    ensures var (s', q) := Realloc(s, p, n, flags);
      && (q.None? ==> s'.live == s.live)
      && (q.Some? <==>
            || Fitting(s.blocks, Need(n))
            || (Need(n) < PAGE_UNITS && false in Granted(flags, PagesWanted(RoundUp(n)))))
      && (q.Some? ==>
            && q.value !in s.live && q.value in s'.live && s'.live[q.value] in {Need(n), Need(n) + 1}
            && Coalesced(s'.blocks) && s'.live == (s.live - {p})[q.value := s'.live[q.value]])
  {
    hide RoundUp, Malloc, Free, Realloc, Fitting, Inv, IndexAt;
    ReallocLive(s, p, n, flags);
    NeedTwice(n);
    MallocFirstFit(s, RoundUp(n), flags);
    MallocSucceeds(s, RoundUp(n), flags);
    MallocInv(s, RoundUp(n), flags);
    var (t, q) := Malloc(s, RoundUp(n), flags);
    if q.Some? {
      FreeLive(t, p);
      FreeKeepsLength(t, p);
    } else {
      MallocFails(s, RoundUp(n), flags);
    }
  }

  lemma {:induction false} NeedTwice(n: Word)
    ensures Need(RoundUp(n)) == Need(n) && RoundUp(RoundUp(n)) == RoundUp(n) && (Need(n) > 0 ==> RoundUp(n) > 0)
  {
    RoundUpTwice(n);
  }

  lemma {:induction false} FreeLive(s: State, p: nat)
    requires Inv(s) && p in s.live
    ensures Free(s, p).live == s.live - {p}
  {
    IndexAtBlock(s.blocks, s.hi, Block(p, s.live[p], true));
  }

  lemma {:induction false} MallocFails(s: State, n: Word, flags: seq<bool>)
    requires Malloc(s, n, flags).1.None?
    ensures Malloc(s, n, flags).0.live == s.live
  {
    hide Carve;
  }

  /** Shrinking a block splits it and merges nothing: the heap is coalesced afterwards exactly when
      it was before, and there is no split, or no free block behind. */
  lemma {:induction false} ShrinkCoalesced(s: State, p: nat, n: Word, flags: seq<bool>)
    requires Inv(s) && p in s.live && n > 0 && s.live[p] >= Need(n)
    ensures var i := IndexAt(s.blocks, p);
      Coalesced(Realloc(s, p, n, flags).0.blocks) <==>
      Coalesced(s.blocks) && (s.live[p] < Need(n) + 2 || i + 1 >= |s.blocks| || s.blocks[i + 1].used)
  {
    hide Need;
    var i, need := IndexAt(s.blocks, p), Need(n);
    IndexAtBlock(s.blocks, s.hi, Block(p, s.live[p], true));
    if s.live[p] >= need + 2 {
      SplitTiles(s.blocks, s.hi, i, need);
      SplitNeighbours(s.blocks, i, need);
      var r := Split(s.blocks, i, need);
      if i + 1 < |s.blocks| {
        assert r[i + 2] == s.blocks[i + 1];
      }
    }
  }

  /** Splitting a used block brings at most one new pair of free neighbours. */
  lemma {:induction false} SplitNeighbours(bs: seq<Block>, i: nat, need: nat)
    requires i < |bs| && bs[i].used && bs[i].units >= need + 2
    ensures Coalesced(bs) && (i + 1 >= |bs| || bs[i + 1].used) ==> Coalesced(Split(bs, i, need))
    ensures Coalesced(Split(bs, i, need)) ==> Coalesced(bs)
  {
    var r := Split(bs, i, need);
    if Coalesced(r) {
      forall x, y | 0 <= x && y == x + 1 && y < |bs| ensures bs[x].used || bs[y].used {
        if y < i {
          assert r[x].used || r[y].used;
        } else if x > i {
          assert r[x + 1].used || r[y + 1].used;
        }
      }
    }
    if Coalesced(bs) && (i + 1 >= |bs| || bs[i + 1].used) {
      forall x, y | 0 <= x && y == x + 1 && y < |r| ensures r[x].used || r[y].used {
        if y < i {
          assert bs[x].used || bs[y].used;
        } else if x > i + 1 {
          assert bs[x - 1].used || bs[y - 1].used;
        }
      }
    }
  }

  /** kmalloc that need not grow keeps a coalesced heap coalesced. */
  lemma {:induction false} MallocCoalesced(s: State, n: Word, flags: seq<bool>)
    requires Inv(s) && Coalesced(s.blocks) && n > 0 && Fitting(s.blocks, Need(n))
    ensures Coalesced(Malloc(s, n, flags).0.blocks)
  {
    PagesFitting(s.blocks, s.hi, [], Need(n));
    CarveCoalesced(s.blocks, FirstFit(s.blocks, Need(n)), Need(n));
  }

  lemma {:induction false} CarveCoalesced(bs: seq<Block>, i: nat, need: nat)
    requires Coalesced(bs) && i < |bs| && bs[i].Fits(need)
    ensures i < |SplitIfRoomy(bs, i, need)|
    ensures Coalesced(Mark(SplitIfRoomy(bs, i, need), i, true))
  {
    var t := SplitIfRoomy(bs, i, need);
    var r := Mark(t, i, true);
    var grown := |t| - |bs|;
    forall x, y | 0 <= x && y == x + 1 && y < |r| ensures r[x].used || r[y].used {
      if y < i {
        assert bs[x].used || bs[y].used;
      } else if x > i {
        assert bs[x - grown].used || bs[y - grown].used;
      }
    }
  }

  // ---- kfree -------------------------------------------------------------------------

  lemma {:induction false} CoveredBy(bs: seq<Block>, lo: nat, hi: nat, g: nat) returns (i: nat)
    requires Tiles(bs, lo, hi) && lo <= g < hi
    ensures i < |bs| && bs[i].at <= g < bs[i].End()
  {
    if g < bs[0].End() {
      i := 0;
    } else {
      i := CoveredBy(bs[1..], bs[0].End(), hi, g);
      i := i + 1;
    }
  }

  /** A block just freed is, or lies in, a free block. */
  lemma {:induction false} FreedLiesInFree(s: State, p: nat)
    requires Inv(s) && IndexAt(s.blocks, p) < |s.blocks|
    ensures var bs := Free(s, p).blocks; exists c :: c in bs && !c.used && c.at <= p < c.End()
  {
    hide Coalesce, Used, Mark;
    var i := IndexAt(s.blocks, p);
    var r, bs := Mark(s.blocks, i, false), Free(s, p).blocks;
    MarkTiles(s.blocks, s.hi, i, false);
    Within(r, 0, s.hi, i);
    CoalesceProperties(r, 0, s.hi);
    var k := CoveredBy(bs, 0, s.hi, p);
    if bs[k].used {
      UsedMember(bs, bs[k]);
      UsedMember(r, bs[k]);
      var j :| 0 <= j < |r| && r[j] == bs[k];
      if j < i { Before(r, 0, s.hi, j, i); }
      if i < j { Before(r, 0, s.hi, i, j); }
      assert false;
    }
  }

  /** Freeing a block a second time right away changes nothing, whether its header is still that
      of a block or was left behind by the merge. */
  lemma {:induction false} FreeTwice(s: State, p: nat)
    requires Inv(s) && p in s.live
    ensures var t := Free(s, p);
      if IndexAt(t.blocks, p) < |t.blocks| then Free(t, p) == t else InFree(t.blocks, p) && FreeStale(t) == t
  {
    hide Coalesce, Mark;
    var t := Free(s, p);
    IndexAtBlock(s.blocks, s.hi, Block(p, s.live[p], true));
    FreeInv(s, p);
    CoalesceIdempotent(t.blocks, 0, t.hi);
    FreedLiesInFree(s, p);
    var c :| c in t.blocks && !c.used && c.at <= p < c.End();
    var j := IndexAt(t.blocks, p);
    if c.at == p {
      IndexAtBlock(t.blocks, t.hi, c);
      MarkSame(t.blocks, j);
    } else if j < |t.blocks| {
      Overlap(t.blocks, t.hi, c, j);
    }
  }

  lemma {:induction false} MarkSame(bs: seq<Block>, i: nat)
    requires i < |bs| && !bs[i].used
    ensures Mark(bs, i, false) == bs
  {
    assert bs[i].(used := false) == bs[i];
  }

  lemma {:induction false} Overlap(bs: seq<Block>, hi: nat, c: Block, j: nat)
    requires Tiles(bs, 0, hi) && c in bs && j < |bs|
    ensures !(c.at < bs[j].at < c.End())
  {
    var i :| 0 <= i < |bs| && bs[i] == c;
    if i < j { Before(bs, 0, hi, i, j); }
    if j < i { Before(bs, 0, hi, j, i); }
  }

  lemma {:induction false} RoundUpTwice(n: Word)
    ensures RoundUp(RoundUp(n)) == RoundUp(n) <= WORD - 16
  {
  }
}

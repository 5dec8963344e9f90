/** The heap of kernel/mm/heap.c over one flat memory: headers sit in the memory they manage
    and are rewritten in place by split, merge and expand. */
module Heap {
  import opened Words
  import opened HeapBlocks
  import opened HeapCoalesce
  import opened HeapOps
  import opened HeapMemory
  import HeapTheorems
  import HeapLocks
  import Memory
  import Spinlock

  class Heap {
    const base: nat
    const mem: array<Granule>
    const lock: Spinlock.Lock
    var heapStart: nat
    var heapEnd: nat
    var heapSize: nat
    ghost var blocks: seq<Block>
    ghost var live: map<nat, nat>

    ghost function Model(): State
      reads this
    {
      State(blocks, heapSize / ALIGNMENT, live)
    }

    ghost predicate Valid()
      reads this, mem
    {
      && heapStart == base && heapSize % ALIGNMENT == 0
      && Represents(mem[..], Model(), base)
      && heapEnd == LastAddr(blocks, base)
    }

    /** The bytes a client sees behind the pointer handed out for p. */
    ghost function Payload(p: nat): (bytes: seq<Granule>)
      reads this, mem
      requires Valid() && p in live
      ensures |bytes| == live[p]
    {
      HeapTheorems.LiveSeparate(Model(), p, p, blocks[0]);
      Slice(mem[..], p + 1, live[p])
    }

    /** What the `used` bytes of the next k pages hold before the heap gets them. */
    ghost function PageFlags(k: nat): seq<bool>
      reads this, mem
      requires heapSize / ALIGNMENT + PAGE_UNITS * k <= mem.Length
    {
      FlagsIn(mem[..], heapSize / ALIGNMENT, k)
    }

    function Ptr(p: Option<nat>): nat {
      if p.None? then 0 else base + ALIGNMENT * p.value + HEADER_BYTES
    }

    /** heap_init, given that the page source hands over a first page. */
    constructor (base: nat, mem: array<Granule>)
      requires 0 < base && base % PAGE_BYTES == 0 && base + ALIGNMENT * mem.Length <= WORD
      requires PAGE_UNITS <= mem.Length
      modifies mem
      ensures Valid() && Model() == START && this.base == base && this.mem == mem
      ensures fresh(lock) && lock.trace == []
    {
      this.base := base;
      this.mem := mem;
      lock := new Spinlock.Lock();
      heapStart := base;
      heapEnd := base;
      heapSize := PAGE_BYTES;
      blocks := START.blocks;
      live := map[];
      new;
      mem[0] := mem[0].(magic := MAGIC, size := PAGE_BYTES - HEADER_BYTES, next := 0, used := 0);
      StartInv();
    }

    /** Reading the fields behind a block pointer. */
    method Load(block: nat, ghost i: nat) returns (b: nat, h: Granule)
      requires Valid() && i < |blocks| && block == AddrOf(blocks, i, base)
      ensures b == blocks[i].at < mem.Length && h == mem[b] && block != 0
      ensures h.size == ALIGNMENT * blocks[i].units && (h.used != 0 <==> blocks[i].used)
      ensures h.next == AddrOf(blocks, i + 1, base) && h.magic == MAGIC
      ensures base + ALIGNMENT * (b + 1 + blocks[i].units) <= WORD && b + 1 + blocks[i].units <= heapSize / ALIGNMENT
    {
      ReadHeader(mem[..], Model(), base, i);
      b := (block - base) / ALIGNMENT;
      h := mem[b];
    }

    method FindFreeBlock(size: Word) returns (block: nat)
      requires Valid() && size % ALIGNMENT == 0
      ensures block == AddrOf(blocks, FirstFit(blocks, size / ALIGNMENT), base)
    {
      block := heapStart;
      ghost var c := 0;
      Within(blocks, 0, heapSize / ALIGNMENT, 0);
      while block != 0
        invariant c <= |blocks| && block == AddrOf(blocks, c, base)
        invariant forall j :: 0 <= j < c ==> !blocks[j].Fits(size / ALIGNMENT)
        decreases |blocks| - c
      {
        var b, h := Load(block, c);
        if h.used == 0 && h.size >= size {
          FirstFitIs(blocks, size / ALIGNMENT, c);
          return;
        }
        block := h.next;
        c := c + 1;
      }
      FirstFitIs(blocks, size / ALIGNMENT, c);
    }

    /** split_block, for a block with room for `size` bytes and another header. */
    method SplitBlock(block: nat, size: Word, ghost i: nat)
      requires Valid() && i < |blocks| && block == AddrOf(blocks, i, base)
      requires size % ALIGNMENT == 0 && blocks[i].units >= size / ALIGNMENT + 2
      modifies this`heapEnd, this`blocks, this`live, mem
      ensures Valid() && Kept(old(mem[..]), mem[..], blocks)
      ensures Model() == SplitState(old(Model()), i, size / ALIGNMENT)
    {
      hide Represents, Kept, Inv, SplitWrites, Split;
      ghost var s, need := Model(), size / ALIGNMENT;
      Bounds(mem[..], s, base);
      var b, h := Load(block, i);
      var newBlock := block + HEADER_BYTES + size;
      var n := (newBlock - base) / ALIGNMENT;
      assert n == b + 1 + need;
      WriteSplit(b, n, size, newBlock);
      if block == heapEnd {
        heapEnd := newBlock;
      }
      SplitRepresents(old(mem[..]), mem[..], s, base, i, size);
      SplitLast(s, i, need, base);
      blocks, live := SplitState(s, i, need).blocks, SplitState(s, i, need).live;
    }

    method WriteSplit(b: nat, n: nat, size: Word, newBlock: Word)
      requires b < n < mem.Length && mem[b].size >= size + HEADER_BYTES
      modifies mem
      ensures SplitWrites(old(mem[..]), mem[..], b, n, size, newBlock)
    {
      mem[n] := mem[n].(magic := MAGIC);
      mem[n] := mem[n].(size := mem[b].size - size - HEADER_BYTES);
      mem[n] := mem[n].(next := mem[b].next);
      mem[n] := mem[n].(used := 0);
      mem[b] := mem[b].(size := size);
      mem[b] := mem[b].(next := newBlock);
    }

    /** merge_blocks. */
    method MergeBlocks()
      requires Valid()
      modifies this`heapEnd, this`blocks, mem
      ensures Valid() && Kept(old(mem[..]), mem[..], old(blocks))
      ensures blocks == Coalesce(old(blocks))
    {
      var current := heapStart;
      ghost var c, hi := 0, heapSize / ALIGNMENT;
      Within(blocks, 0, hi, 0);
      var b, h := Load(current, c);
      while h.next != 0
        invariant Valid() && c < |blocks| && current == AddrOf(blocks, c, base)
        invariant (h.used != 0 <==> blocks[c].used) && h.next == AddrOf(blocks, c + 1, base)
        invariant Used(blocks) == Used(old(blocks)) && CoalescedUpTo(blocks, c)
        invariant Kept(old(mem[..]), mem[..], old(blocks))
        decreases |blocks| - c
      {
        var n, g := Load(h.next, c + 1);
        if h.used == 0 && g.used == 0 {
          ghost var m, bs := mem[..], blocks;
          MergeNext(current, c);
          KeptStep(old(mem[..]), m, mem[..], old(blocks), bs);
        } else {
          current := h.next;
          c := c + 1;
        }
        b, h := Load(current, c);
      }
      MergedIsCoalesce(old(blocks), blocks, hi, c);
    }

    /** The loop body of merge_blocks for a free block with a free successor. */
    method MergeNext(current: nat, ghost c: nat)
      requires Valid() && c + 1 < |blocks| && current == AddrOf(blocks, c, base)
      requires !blocks[c].used && !blocks[c + 1].used
      modifies this`heapEnd, this`blocks, mem
      ensures Valid() && blocks == MergeAt(old(blocks), c) && Used(blocks) == Used(old(blocks))
      ensures Kept(old(mem[..]), mem[..], old(blocks))
      ensures CoalescedUpTo(old(blocks), c) ==> CoalescedUpTo(blocks, c)
    {
      hide Represents, Kept, Inv, CoalescedUpTo, MergeAt;
      ghost var s := Model();
      Bounds(mem[..], s, base);
      var b, h := Load(current, c);
      var n, g := Load(h.next, c + 1);
      Before(blocks, 0, s.hi, c, c + 1);
      mem[b] := mem[b].(size := mem[b].size + HEADER_BYTES + mem[n].size);
      mem[b] := mem[b].(next := mem[n].next);
      if mem[b].next == 0 {
        heapEnd := current;
      }
      assert MergeWrites(old(mem[..]), mem[..], b, n);
      MergeRepresents(old(mem[..]), mem[..], s, base, c);
      MergeLast(s, c, base);
      blocks := MergeAt(blocks, c);
    }

    /** heap_expand: `supply` is how many pages the page source can still hand over. */
    method HeapExpand(size: Word, supply: nat)
      requires Valid() && heapSize / ALIGNMENT + PAGE_UNITS * supply <= mem.Length
      modifies this`heapEnd, this`heapSize, this`blocks, mem
      ensures Valid() && Kept(old(mem[..]), mem[..], old(blocks))
      ensures Model() == Extend(old(Model()),
        Granted(old(PageFlags(supply)), PagesFor(size)))
    {
      hide Represents, Kept, Inv, Extend, Granted, FlagsIn;
      var required := (size + HEADER_BYTES) % WORD;
      var pages := (required + EXPAND_BYTES - 1) % WORD / EXPAND_BYTES;
      AddPages(pages, supply);
    }

    method AddPages(pages: nat, supply: nat)
      requires Valid() && heapSize / ALIGNMENT + PAGE_UNITS * supply <= mem.Length
      modifies this`heapEnd, this`heapSize, this`blocks, mem
      ensures Valid() && Kept(old(mem[..]), mem[..], old(blocks))
      ensures Model() == Extend(old(Model()), Granted(old(PageFlags(supply)), pages))
    {
      hide Represents, Kept, Inv, Extend;
      ghost var s, m0 := Model(), mem[..];
      KeptSame(m0, blocks);
      var i := 0;
      ExtendNone(s, PageFlags(supply));
      while i < pages
        invariant i <= supply && i <= pages
        invariant Valid() && Kept(m0, mem[..], s.blocks)
        invariant Model() == Extend(s, FlagsIn(m0, s.hi, supply)[..i])
        invariant forall g :: s.hi + PAGE_UNITS * i <= g < mem.Length ==> mem[g] == m0[g]
      {
        if i == supply {
          break;
        }
        ghost var t, m := Model(), mem[..];
        GrownSoFar(s, FlagsIn(m0, s.hi, supply), i);
        AddPage();
        KeptTrans(m0, m, mem[..], s.blocks, t.blocks);
        GrowStep(s, t, m0, m[t.hi].used != 0, supply, i);
        i := i + 1;
        GrownSoFar(s, FlagsIn(m0, s.hi, supply), i);
      }
      assert FlagsIn(m0, s.hi, supply)[..i] == Granted(old(PageFlags(supply)), pages);
    }

    /** One page from the source, linked behind the last block. */
    method AddPage()
      requires Valid() && heapSize / ALIGNMENT + PAGE_UNITS <= mem.Length
      modifies this`heapEnd, this`heapSize, this`blocks, mem
      ensures Valid() && Kept(old(mem[..]), mem[..], old(blocks))
      ensures Model() == Extend(old(Model()), [old(mem[heapSize / ALIGNMENT].used) != 0])
      ensures forall g :: heapSize / ALIGNMENT <= g < mem.Length ==> mem[g] == old(mem[g])
    {
      hide Represents, Kept, Inv, Extend, ExpandWrites;
      ghost var s := Model();
      Bounds(mem[..], s, base);
      ghost var flag := mem[s.hi].used != 0;
      Within(blocks, 0, s.hi, |blocks| - 1);
      var newBlock := base + heapSize;
      var n := (newBlock - base) / ALIGNMENT;
      NextPage(base, heapSize);
      var e, h := Load(heapEnd, |blocks| - 1);
      WritePage(n, e, newBlock);
      heapEnd := newBlock;
      heapSize := heapSize + PAGE_BYTES;
      ExpandRepresents(old(mem[..]), mem[..], s, base);
      blocks := Extend(s, [flag]).blocks;
    }

    method WritePage(n: nat, e: nat, newBlock: Word)
      requires e < n < mem.Length
      modifies mem
      ensures ExpandWrites(old(mem[..]), mem[..], e, n, newBlock)
      ensures forall g :: n < g < mem.Length ==> mem[g] == old(mem[g])
    {
      mem[n] := mem[n].(magic := MAGIC);
      mem[n] := mem[n].(size := PAGE_BYTES - HEADER_BYTES);
      mem[n] := mem[n].(next := 0);
      mem[e] := mem[e].(next := newBlock);
    }

    /** kmalloc. Every block live before keeps its length and its bytes. */
    method Kmalloc(size: Word, supply: nat) returns (ptr: nat)
      requires Valid() && heapSize / ALIGNMENT + PAGE_UNITS * supply <= mem.Length
      modifies this, mem, lock
      ensures Valid() && lock.trace == old(lock.trace) + HeapLocks.MallocLocks(size)
      ensures Model() == Malloc(old(Model()), size, old(PageFlags(supply))).0
      ensures ptr == Ptr(Malloc(old(Model()), size, old(PageFlags(supply))).1)
      ensures forall p :: p in old(live) ==> p in live && Payload(p) == old(Payload(p))
    {
      hide Represents, Kept, Inv, Malloc, FlagsIn, Slice, LastAddr;
      ghost var s, flags, m0 := Model(), PageFlags(supply), mem[..];
      Bounds(m0, s, base);
      if size == 0 {
        MallocNothing(s, flags);
        return 0;
      }
      MallocInv(s, size, flags);
      lock.Acquire();
      ptr := Allocate(size, supply);
      lock.Release();
      AllLiveKept(m0, mem[..], s);
    }

    /** kmalloc of a positive size, with the lock held. */
    method Allocate(size: Word, supply: nat) returns (ptr: nat)
      requires Valid() && heapSize / ALIGNMENT + PAGE_UNITS * supply <= mem.Length && size > 0
      modifies this`heapEnd, this`heapSize, this`blocks, this`live, mem
      ensures Valid() && Kept(old(mem[..]), mem[..], old(blocks))
      ensures Model() == Malloc(old(Model()), size, old(PageFlags(supply))).0
      ensures ptr == Ptr(Malloc(old(Model()), size, old(PageFlags(supply))).1)
    {
      hide Represents, Kept, Inv, Grown, Place, Carve, RoundUp, FlagsIn, FirstFit;
      HeapTheorems.RoundUpExact(size);
      ghost var s, flags, m0 := Model(), PageFlags(supply), mem[..];
      Bounds(m0, s, base);
      var block := FindOrGrow(size, supply);
      ghost var g, i, m1 := Model(), FirstFit(blocks, Need(size)), mem[..];
      Bounds(m1, g, base);
      PlaceAt(g, Need(size));
      if block == 0 {
        ptr := 0;
      } else {
        TakeBlock(block, RoundUp(size), i);
        ptr := block + HEADER_BYTES;
        GrownKeeps(s, size, flags);
        KeptTrans(m0, m1, mem[..], s.blocks, g.blocks);
      }
    }

    /** The search of kmalloc, with one try at growing the heap. */
    method FindOrGrow(size: Word, supply: nat) returns (block: nat)
      requires Valid() && heapSize / ALIGNMENT + PAGE_UNITS * supply <= mem.Length
      modifies this`heapEnd, this`heapSize, this`blocks, mem
      ensures Valid() && Kept(old(mem[..]), mem[..], old(blocks))
      ensures Model() == Grown(old(Model()), size, old(PageFlags(supply)))
      ensures block == AddrOf(blocks, FirstFit(blocks, Need(size)), base)
    {
      hide Represents, Kept, Inv, PagesFor, RoundUp, Extend, Granted, FirstFit, FlagsIn;
      Bounds(mem[..], Model(), base);
      KeptSame(mem[..], blocks);
      HeapTheorems.RoundUpExact(size);
      var rounded := RoundUp(size);
      block := FindFreeBlock(rounded);
      if block == 0 {
        HeapExpand((rounded + HEADER_BYTES) % WORD, supply);
        block := FindFreeBlock(rounded);
      }
    }

    /** The end of kmalloc: split the block that was found, and mark it used. */
    method TakeBlock(block: nat, size: Word, ghost i: nat)
      requires Valid() && i < |blocks| && block == AddrOf(blocks, i, base)
      requires size % ALIGNMENT == 0 && blocks[i].Fits(size / ALIGNMENT)
      modifies this`heapEnd, this`blocks, this`live, mem
      ensures Valid() && Model() == Carve(old(Model()), i, size / ALIGNMENT)
      ensures Kept(old(mem[..]), mem[..], old(blocks))
    {
      hide Represents, Kept, Inv, Mark, Split, FirstFit;
      ghost var s, need, m0 := Model(), size / ALIGNMENT, mem[..];
      Bounds(m0, s, base);
      var b, h := Load(block, i);
      CarveState(s, i, need);
      CarveKeeps(s.blocks, s.hi, i, need, true);
      CarveInv(s.blocks, s.hi, i, need, true);
      if h.size >= (size + HEADER_BYTES + ALIGNMENT) % WORD {
        SplitBlock(block, size, i);
        KeptFewer(m0, mem[..], s.blocks, blocks);
      }
      ghost var m1, bs := mem[..], blocks;
      assert blocks == SplitIfRoomy(s.blocks, i, need);
      MarkUsed(b, i, Carve(s, i, need));
      KeptTrans(m0, m1, mem[..], s.blocks, bs);
    }

    method MarkUsed(b: nat, ghost i: nat, ghost t: State)
      requires Valid() && i < |blocks| && b == blocks[i].at && b < mem.Length
      requires Inv(t) && t.blocks == Mark(blocks, i, true) && t.hi == Model().hi
      modifies this`blocks, this`live, mem
      ensures Valid() && Model() == t && Kept(old(mem[..]), mem[..], old(blocks))
    {
      hide Represents, Kept, Inv, Mark;
      ghost var s, m0 := Model(), mem[..];
      Bounds(m0, s, base);
      MarkLast(blocks, i, true, base);
      mem[b] := mem[b].(used := 1);
      MarkRepresents(m0, mem[..], s, t, base, i, 1);
      blocks, live := t.blocks, t.live;
    }

    function Pos(ptr: nat): int { (ptr - HEADER_BYTES - base) / ALIGNMENT }

    /** A pointer kfree and krealloc may be given: null, or a granule of the heap; if the granule
        before it holds the magic, that is the header of a block, or one that a merge left behind
        in what is now a free block. */
    ghost predicate Freeable(ptr: nat)
      reads this, mem
    {
      ptr == 0 ||
      (&& ptr >= base + HEADER_BYTES && (ptr - base) % ALIGNMENT == 0 && Pos(ptr) < mem.Length
       && (mem[Pos(ptr)].magic == MAGIC ==> IndexAt(blocks, Pos(ptr)) < |blocks| || InFree(blocks, Pos(ptr))))
    }

    /** kfree. A pointer without the magic before it is ignored; a header that a merge left behind
        only brings on another merge. */
    method Kfree(ptr: nat)
      requires Valid() && Freeable(ptr)
      modifies this`heapEnd, this`blocks, this`live, mem, lock
      ensures Valid()
      ensures lock.trace == old(lock.trace) + HeapLocks.FreeLocks(if ptr == 0 then None else Some(Pos(ptr)))
      ensures Model() ==
        if ptr == 0 || old(mem[Pos(ptr)].magic) != MAGIC then old(Model())
        else if IndexAt(old(blocks), Pos(ptr)) < |old(blocks)| then Free(old(Model()), Pos(ptr))
        else FreeStale(old(Model()))
      ensures forall p :: p in old(live) && (ptr == 0 || p != Pos(ptr)) ==> p in live && Payload(p) == old(Payload(p))
    {
      hide Represents, Kept, Inv, InFree;
      if ptr == 0 {
        return;
      }
      lock.Acquire();
      var b := (ptr - HEADER_BYTES - base) / ALIGNMENT;
      if IndexAt(blocks, b) < |blocks| { ReadAt(mem[..], Model(), base, b); }
      if mem[b].magic != MAGIC {
        lock.Release();
        AllLiveKept(mem[..], mem[..], Model()) by { Bounds(mem[..], Model(), base); KeptSame(mem[..], blocks); }
        return;
      }
      Release(b);
      lock.Release();
    }

    /** The end of kfree and of krealloc: clear the flag, then merge. */
    method Release(b: nat)
      requires Valid() && (IndexAt(blocks, b) < |blocks| || InFree(blocks, b))
      modifies this`heapEnd, this`blocks, this`live, mem
      ensures Valid()
      ensures Model() == if IndexAt(old(blocks), b) < |old(blocks)| then Free(old(Model()), b) else FreeStale(old(Model()))
      ensures forall p :: p in old(live) && p != b ==> p in live && Payload(p) == old(Payload(p))
    {
      hide Represents, Kept, Inv, Mark, Coalesce, Slice, InFree, Cleared;
      ghost var s, m0 := Model(), mem[..];
      ghost var t := Cleared(s, b);
      Bounds(m0, s, base);
      ClearRepresents(m0, s, base, b);
      mem[b] := mem[b].(used := 0);
      blocks, live := t.blocks, t.live;
      ghost var m1 := mem[..];
      MergeBlocks();
      KeptTrans(m0, m1, mem[..], t.blocks, t.blocks);
      ClearedIs(s, b);
      AllLiveKept(m0, mem[..], t);
    }

    /** krealloc, with the inner kmalloc taken without the lock that is already held. */
    method Krealloc(ptr: nat, size: Word, supply: nat) returns (r: nat)
      requires Valid() && heapSize / ALIGNMENT + PAGE_UNITS * supply <= mem.Length
      requires Freeable(ptr) && (ptr != 0 && mem[Pos(ptr)].magic == MAGIC ==> Pos(ptr) in live)
      modifies this, mem, lock
      ensures Valid()
      ensures lock.trace == old(lock.trace)
        + HeapLocks.ReallocLocks(old(Model()), if ptr == 0 then None else Some(Pos(ptr)), size)
      ensures var t := if ptr == 0 then Malloc(old(Model()), size, old(PageFlags(supply)))
                       else Realloc(old(Model()), Pos(ptr), size, old(PageFlags(supply)));
        Model() == t.0 && r == Ptr(t.1)
      ensures forall p :: p in old(live) && (ptr == 0 || p != Pos(ptr)) ==> p in live && Payload(p) == old(Payload(p))
      ensures ptr != 0 && r == 0 && size != 0 && Pos(ptr) in old(live) ==>
        Pos(ptr) in live && Payload(Pos(ptr)) == old(Payload(Pos(ptr)))
      ensures ptr != 0 && r != 0 ==>
        Pos(ptr) in old(live) && Pos(r) in live && CommonPrefix(old(Payload(Pos(ptr))), Payload(Pos(r)))
    {
      hide Represents, Kept, Inv, Malloc, Realloc, Slice, FlagsIn, CommonPrefix, InFree, HeapLocks.Moves;
      ghost var s, m0, flags := Model(), mem[..], PageFlags(supply);
      Bounds(m0, s, base);
      if ptr == 0 {
        r := Kmalloc(size, supply);
        return;
      }
      if size == 0 {
        ReallocNothing(s, Pos(ptr), flags);
        if Pos(ptr) in live { ReallocLive(s, Pos(ptr), 1, flags); }
        if IndexAt(blocks, Pos(ptr)) < |blocks| { ReadAt(m0, s, base, Pos(ptr)); }
        Kfree(ptr);
        return 0;
      }
      lock.Acquire();
      var b := (ptr - HEADER_BYTES - base) / ALIGNMENT;
      if IndexAt(blocks, b) < |blocks| { ReadAt(m0, s, base, b); }
      if mem[b].magic != MAGIC {
        ReallocMissing(s, b, size, flags);
        HeapLocks.MissingStays(s, b, size);
        lock.Release();
        AllLiveKept(m0, m0, s) by { KeptSame(m0, s.blocks); }
        return 0;
      }
      r := ReallocBlock(b, size, supply);
      lock.Release();
    }

    /** krealloc of a block it has found, for a positive size, with the lock held. */
    method ReallocBlock(b: nat, size: Word, supply: nat) returns (r: nat)
      requires Valid() && heapSize / ALIGNMENT + PAGE_UNITS * supply <= mem.Length
      requires b in live && size > 0
      modifies this, mem, lock
      ensures Valid()
      ensures lock.trace == old(lock.trace)
        + if HeapLocks.Moves(old(Model()), Some(b), size) then HeapLocks.MallocLocks(RoundUp(size)) else []
      ensures var t := Realloc(old(Model()), b, size, old(PageFlags(supply)));
        Model() == t.0 && r == Ptr(t.1)
      ensures forall p :: p in old(live) && p != b ==> p in live && Payload(p) == old(Payload(p))
      ensures r == 0 ==> b in live && Payload(b) == old(Payload(b))
      ensures r != 0 ==> Pos(r) in live && CommonPrefix(old(Payload(b)), Payload(Pos(r)))
    {
      hide Represents, Kept, Inv, Malloc, Realloc, Slice, RoundUp, FlagsIn, CommonPrefix, HeapLocks.Moves;
      ghost var s, m0, flags := Model(), mem[..], PageFlags(supply);
      Bounds(m0, s, base);
      ReallocLive(s, b, size, flags);
      HeapLocks.MovesLive(s, b, size);
      ReadAt(m0, s, base, b);
      HeapTheorems.RoundUpExact(size);
      HeapTheorems.RoundUpTwice(size);
      if mem[b].size >= RoundUp(size) {
        ShrinkInPlace(b, RoundUp(size));
        r := base + ALIGNMENT * b + HEADER_BYTES;
      } else {
        r := Move(b, RoundUp(size), supply);
      }
    }

    /** The branch of krealloc that keeps the block. */
    method ShrinkInPlace(b: nat, size: Word)
      requires Valid() && b in live && size % ALIGNMENT == 0 && live[b] >= size / ALIGNMENT
      requires IndexAt(blocks, b) < |blocks| && blocks[IndexAt(blocks, b)] == Block(b, live[b], true)
      modifies this`heapEnd, this`blocks, this`live, mem
      ensures Valid() && b in live
      ensures var s, i, need := old(Model()), IndexAt(old(blocks), b), size / ALIGNMENT;
        Model() == s.(blocks := SplitIfRoomy(s.blocks, i, need), live := s.live[b := SplitIfRoomy(s.blocks, i, need)[i].units])
      ensures forall p :: p in old(live) && p != b ==> p in live && Payload(p) == old(Payload(p))
      ensures CommonPrefix(old(Payload(b)), Payload(b))
    {
      hide Represents, Kept, Inv, Slice, Split, SplitState;
      ghost var s, m0, i, need := Model(), mem[..], IndexAt(blocks, b), size / ALIGNMENT;
      Bounds(m0, s, base);
      ReadAt(m0, s, base, b);
      HeapTheorems.LiveSeparate(s, b, b, s.blocks[0]);
      if mem[b].size >= (size + HEADER_BYTES + ALIGNMENT) % WORD {
        SplitBlock(base + ALIGNMENT * b, size, i);
        SplitLive(s, i, need);
        AllLiveKept(m0, mem[..], Model());
        SlicePrefix(m0, b + 1, need, s.live[b]);
      } else {
        assert s.live[b := s.blocks[i].units] == s.live;
      }
    }

    /** The branch of krealloc that allocates, copies and frees. */
    method Move(b: nat, size: Word, supply: nat) returns (r: nat)
      requires Valid() && heapSize / ALIGNMENT + PAGE_UNITS * supply <= mem.Length
      requires b in live && size % ALIGNMENT == 0 && live[b] < size / ALIGNMENT && RoundUp(size) == size
      modifies this, mem, lock
      ensures Valid() && lock.trace == old(lock.trace) + HeapLocks.MallocLocks(size)
      ensures var (t, q) := Malloc(old(Model()), size, old(PageFlags(supply)));
        r == Ptr(q) && Model() == if q.None? then t else Free(t, b)
      ensures forall p :: p in old(live) && p != b ==> p in live && Payload(p) == old(Payload(p))
      ensures r == 0 ==> b in live && Payload(b) == old(Payload(b))
      ensures r != 0 ==> Pos(r) in live && CommonPrefix(old(Payload(b)), Payload(Pos(r)))
    {
      hide Represents, Kept, Inv, Malloc, Free, Slice, FlagsIn, RoundUp, CommonPrefix;
      ghost var s, m0, flags := Model(), mem[..], PageFlags(supply);
      Bounds(m0, s, base);
      MallocInv(s, size, flags);
      r := Kmalloc(size, supply);
      if r == 0 {
        return;
      }
      ghost var t := Model();
      var q := (r - HEADER_BYTES - base) / ALIGNMENT;
      Bounds(mem[..], t, base);
      MovedFits(s, t, size, flags, b, q);
      CopyAndRelease(b, q);
    }

    /** memcpy of live block b to the longer live block q, then the end of krealloc. */
    method CopyAndRelease(b: nat, q: nat)
      requires Valid() && b in live && q in live && q != b && live[b] < live[q]
      requires IndexAt(blocks, b) < |blocks| && blocks[IndexAt(blocks, b)].units == live[b]
      requires q + 1 + live[q] <= heapSize / ALIGNMENT && b + 1 + live[b] <= heapSize / ALIGNMENT
      requires b + 1 + live[b] <= q || q + 1 + live[q] <= b
      modifies this`heapEnd, this`blocks, this`live, mem
      ensures Valid() && Model() == Free(old(Model()), b)
      ensures forall p :: p in old(live) && p != b ==> p in live && (p != q ==> Payload(p) == old(Payload(p)))
      ensures q in live && CommonPrefix(old(Payload(b)), Payload(q))
    {
      hide Represents, Kept, Inv, Free, Slice, CommonPrefix, IndexAt;
      ghost var t, m1 := Model(), mem[..];
      Bounds(m1, t, base);
      ReadAt(m1, t, base, b);
      Memory.Memcpy(mem, q + 1, b + 1, mem[b].size / ALIGNMENT);
      CopiedPayload(m1, mem[..], t, base, b, q);
      Release(b);
    }

    /** A client writes anywhere in its own payload: no header and no other payload changes. */
    method ClientStore(p: nat, k: nat, v: Granule)
      requires Valid() && p in live && k < live[p]
      modifies mem
      ensures Valid() && Payload(p) == old(Payload(p))[k := v]
      ensures forall q :: q in live && q != p ==> Payload(q) == old(Payload(q))
    {
      hide Represents, Inv;
      ghost var m0 := mem[..];
      Bounds(m0, Model(), base);
      HeapTheorems.LiveSeparate(Model(), p, p, blocks[0]);
      mem[p + 1 + k] := v;
      PayloadWrites(m0, mem[..], Model(), base, p);
    }

    /** get_allocated_memory. */
    method GetAllocatedMemory() returns (total: nat)
      requires Valid()
      ensures total == ALIGNMENT * SumUnits(blocks, true)
    {
      total := SumBlocks(true);
    }

    /** get_free_memory: whatever is not allocated, but for one header per block. */
    method GetFreeMemory() returns (total: nat)
      requires Valid()
      ensures total == ALIGNMENT * SumUnits(blocks, false)
      ensures total + ALIGNMENT * SumUnits(blocks, true) + HEADER_BYTES * |blocks| == heapSize
    {
      total := SumBlocks(false);
      HeapTheorems.Accounting(blocks, 0, heapSize / ALIGNMENT);
    }

    /** The loop of both: add up the sizes of the blocks with the given flag. */
    method SumBlocks(used: bool) returns (total: nat)
      requires Valid()
      ensures total == ALIGNMENT * SumUnits(blocks, used)
    {
      total := 0;
      var current := heapStart;
      ghost var c := 0;
      Bounds(mem[..], Model(), base);
      while current != 0
        invariant c <= |blocks| && current == AddrOf(blocks, c, base)
        invariant total + ALIGNMENT * SumUnits(blocks[c..], used) == ALIGNMENT * SumUnits(blocks, used)
        decreases |blocks| - c
      {
        var b, h := Load(current, c);
        assert blocks[c..][1..] == blocks[c + 1..];
        if (h.used != 0) == used {
          total := total + h.size;
        }
        current := h.next;
        c := c + 1;
      }
    }
  }
}

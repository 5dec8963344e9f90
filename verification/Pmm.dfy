/** The packed bitmap of kernel/mm/pmm.c: initialisation from the boot loader's memory map,
    allocation, freeing. Each operation is proved against the set-level model in Frames. */
module Pmm {
  import opened Words
  import opened Frames
  import opened Bits

  /** One entry of the memory map. */
  datatype Region = Region(addr: nat, len: nat, available: bool) {
    function End(): nat { addr + len }

    /** The blocks the third pass clears for this entry. */
    predicate Covers(b: nat) { available && addr / BLOCK_BYTES <= b < End() / BLOCK_BYTES }
  }

  function MaxMem(map_: seq<Region>): nat {
    if map_ == [] then 0
    else
      var r, m := map_[|map_| - 1], MaxMem(map_[..|map_| - 1]);
      if r.available && r.End() > m then r.End() else m
  }

  /** Bitmap words needed for the memory map. */
  function Entries(map_: seq<Region>): nat {
    (MaxMem(map_) / BLOCK_BYTES + BITS_PER_ENTRY - 1) / BITS_PER_ENTRY
  }

  /** Where the bitmap goes: the first available entry that is long enough, else address 0. */
  function Placed(map_: seq<Region>, bytes: nat): nat {
    if map_ == [] then 0
    else if map_[0].available && map_[0].len >= bytes then map_[0].addr
    else Placed(map_[1..], bytes)
  }

  /** An entry that can take the bitmap. */
  predicate Takes(r: Region, bytes: nat) { r.available && r.len >= bytes }

  /** The start of the first entry in the map that can take the bitmap, or 0 if there is none. */
  ghost predicate IsPlace(map_: seq<Region>, bytes: nat, addr: nat) {
    || (exists i :: 0 <= i < |map_| && Takes(map_[i], bytes) && addr == map_[i].addr
                    && forall j :: 0 <= j < i ==> !Takes(map_[j], bytes))
    || (addr == 0 && forall j :: 0 <= j < |map_| ==> !Takes(map_[j], bytes))
  }

  lemma {:induction false} PlacedFirst(map_: seq<Region>, bytes: nat)
    ensures IsPlace(map_, bytes, Placed(map_, bytes))
  {
    if map_ != [] && !Takes(map_[0], bytes) {
      var rest := map_[1..];
      PlacedFirst(rest, bytes);
      assert forall j :: 0 < j < |map_| ==> map_[j] == rest[j - 1];
      if i :| 0 <= i < |rest| && Takes(rest[i], bytes) && Placed(rest, bytes) == rest[i].addr
              && forall j :: 0 <= j < i ==> !Takes(rest[j], bytes)
      {
        assert map_[i + 1] == rest[i];
      }
    }
  }

  function BitmapStart(map_: seq<Region>): nat { Placed(map_, 4 * Entries(map_)) / BLOCK_BYTES }

  function BitmapEnd(map_: seq<Region>): nat { BitmapStart(map_) + 4 * Entries(map_) / BLOCK_BYTES + 1 }

  predicate Covered(map_: seq<Region>, b: nat) {
    exists i :: 0 <= i < |map_| && map_[i].Covers(b)
  }

  /** Every available entry ends below 4 GiB. */
  predicate Below4GiB(map_: seq<Region>) {
    forall i :: 0 <= i < |map_| && map_[i].available ==> map_[i].End() < WORD
  }

  lemma {:induction false} MaxMemBounds(map_: seq<Region>, i: nat)
    requires i < |map_| && map_[i].available
    ensures map_[i].End() <= MaxMem(map_)
  {
    if i < |map_| - 1 {
      MaxMemBounds(map_[..|map_| - 1], i);
    }
  }

  lemma {:induction false} CoveredInRange(map_: seq<Region>)
    ensures forall b: nat :: Covered(map_, b) ==> b < MaxMem(map_) / BLOCK_BYTES <= BITS_PER_ENTRY * Entries(map_)
  {
    forall b: nat | Covered(map_, b) ensures b < MaxMem(map_) / BLOCK_BYTES {
      var i :| 0 <= i < |map_| && map_[i].Covers(b);
      MaxMemBounds(map_, i);
    }
  }

  class Pmm {
    var bitmap: array<bv32>
    var maxBlocks: nat
    var usedBlocks: Word

    ghost predicate Valid()
      reads this, bitmap
    {
      maxBlocks < WORD / BLOCK_BYTES && maxBlocks <= BITS_PER_ENTRY * bitmap.Length
    }

    predicate TestBit(bit: nat)
      reads this, bitmap
      requires bit < BITS_PER_ENTRY * bitmap.Length
    {
      Bit(bitmap[bit / BITS_PER_ENTRY], bit % BITS_PER_ENTRY)
    }

    ghost function Used(): set<nat>
      reads this, bitmap
      requires Valid()
    {
      set b | 0 <= b < maxBlocks && TestBit(b)
    }

    ghost function Model(): State
      reads this, bitmap
      requires Valid()
    {
      State(Used(), maxBlocks, usedBlocks)
    }

    /** pmm_init. */
    constructor (map_: seq<Region>)
      requires Below4GiB(map_) && BitmapEnd(map_) <= BITS_PER_ENTRY * Entries(map_)
      ensures Valid() && fresh(bitmap) && bitmap.Length == Entries(map_) && Model() == StartState(map_)
      ensures forall b :: 0 <= b < BITS_PER_ENTRY * bitmap.Length ==>
        (!TestBit(b) <==> Covered(map_, b) && !(BitmapStart(map_) <= b < BitmapEnd(map_)))
    {
      hide MaxMem, Placed, Bit;
      var maxMem := HighestEnd(map_);
      maxBlocks := maxMem / BLOCK_BYTES;
      var size := (maxMem / BLOCK_BYTES + BITS_PER_ENTRY - 1) / BITS_PER_ENTRY;
      bitmap := new bv32[size](_ => 0xFFFF_FFFF);
      usedBlocks := 0;
      var start := PlaceBitmap(map_, 4 * size);
      new;
      forall b | 0 <= b < BITS_PER_ENTRY * bitmap.Length ensures TestBit(b) { AllOnes(b % BITS_PER_ENTRY); }
      CoveredInRange(map_);
      ClearAvailable(map_);
      MarkBitmap(start / BLOCK_BYTES, start / BLOCK_BYTES + 4 * size / BLOCK_BYTES + 1);
    }

    /** The first pass of pmm_init. */
    static method HighestEnd(map_: seq<Region>) returns (maxMem: nat)
      requires Below4GiB(map_)
      ensures maxMem == MaxMem(map_) < WORD
    {
      var i := 0;
      maxMem := 0;
      while i < |map_|
        invariant i <= |map_| && maxMem == MaxMem(map_[..i]) < WORD
      {
        assert map_[..i + 1][..i] == map_[..i];
        if map_[i].available && map_[i].End() > maxMem {
          maxMem := map_[i].End();
        }
        i := i + 1;
      }
      assert map_[..i] == map_;
    }

    static method PlaceBitmap(map_: seq<Region>, bytes: nat) returns (addr: nat)
      ensures addr == Placed(map_, bytes) && IsPlace(map_, bytes, addr)
    {
      PlacedFirst(map_, bytes);
      var i := 0;
      while i < |map_|
        invariant i <= |map_| && Placed(map_[i..], bytes) == Placed(map_, bytes)
      {
        assert map_[i..][1..] == map_[i + 1..];
        if map_[i].available && map_[i].len >= bytes {
          return map_[i].addr;
        }
        i := i + 1;
      }
      return 0;
    }

    method SetBit(bit: nat)
      requires bit < BITS_PER_ENTRY * bitmap.Length
      modifies bitmap
      ensures forall b :: 0 <= b < BITS_PER_ENTRY * bitmap.Length ==> (TestBit(b) <==> b == bit || old(TestBit(b)))
    {
      hide Bit, Mask, With;
      var e := bit / BITS_PER_ENTRY;
      bitmap[e] := With(bitmap[e], Mask(bit % BITS_PER_ENTRY));
      forall b | 0 <= b < BITS_PER_ENTRY * bitmap.Length
        ensures TestBit(b) <==> b == bit || old(TestBit(b))
      {
        Bits.SetBit(old(bitmap[e]), bit % BITS_PER_ENTRY, b % BITS_PER_ENTRY);
      }
    }

    method ClearBit(bit: nat)
      requires bit < BITS_PER_ENTRY * bitmap.Length
      modifies bitmap
      ensures forall b :: 0 <= b < BITS_PER_ENTRY * bitmap.Length ==> (TestBit(b) <==> b != bit && old(TestBit(b)))
    {
      hide Bit, Mask, Without;
      var e := bit / BITS_PER_ENTRY;
      bitmap[e] := Without(bitmap[e], Mask(bit % BITS_PER_ENTRY));
      forall b | 0 <= b < BITS_PER_ENTRY * bitmap.Length
        ensures TestBit(b) <==> b != bit && old(TestBit(b))
      {
        Bits.ClearBit(old(bitmap[e]), bit % BITS_PER_ENTRY, b % BITS_PER_ENTRY);
      }
    }

    /** The third pass of pmm_init: clear the blocks of the available entries. */
    method ClearAvailable(map_: seq<Region>)
      requires Below4GiB(map_)
      requires forall b: nat :: Covered(map_, b) ==> b < BITS_PER_ENTRY * bitmap.Length
      modifies bitmap
      ensures forall b :: 0 <= b < BITS_PER_ENTRY * bitmap.Length ==>
        (TestBit(b) <==> old(TestBit(b)) && !Covered(map_, b))
    {
      var i := 0;
      while i < |map_|
        invariant i <= |map_|
        invariant forall b :: 0 <= b < BITS_PER_ENTRY * bitmap.Length ==>
          (TestBit(b) <==> old(TestBit(b)) && !Covered(map_[..i], b))
      {
        var r := map_[i];
        if r.available {
          var last := r.End() / BLOCK_BYTES - 1;
          assert r.addr / BLOCK_BYTES <= last ==> map_[i].Covers(last) && Covered(map_, last);
          ClearRange(r.addr / BLOCK_BYTES, r.End() / BLOCK_BYTES);
        }
        CoveredSnoc(map_, i);
        i := i + 1;
      }
      assert map_[..i] == map_;
    }

    method ClearRange(from: nat, to: nat)
      requires from <= to && (from < to ==> to <= BITS_PER_ENTRY * bitmap.Length)
      modifies bitmap
      ensures forall b :: 0 <= b < BITS_PER_ENTRY * bitmap.Length ==>
        (TestBit(b) <==> old(TestBit(b)) && !(from <= b < to))
    {
      var block := from;
      while block < to
        invariant from <= block <= to
        invariant forall b :: 0 <= b < BITS_PER_ENTRY * bitmap.Length ==>
          (TestBit(b) <==> old(TestBit(b)) && !(from <= b < block))
      {
        ClearBit(block);
        block := block + 1;
      }
    }

    /** The end of pmm_init: the bitmap's own blocks become used, and are counted. */
    method MarkBitmap(from: nat, to: nat)
      requires from <= to <= BITS_PER_ENTRY * bitmap.Length && usedBlocks == 0 && to < WORD
      modifies bitmap, this`usedBlocks
      ensures usedBlocks == to - from
      ensures forall b :: 0 <= b < BITS_PER_ENTRY * bitmap.Length ==>
        (TestBit(b) <==> old(TestBit(b)) || from <= b < to)
    {
      var block := from;
      while block < to
        invariant from <= block <= to && usedBlocks == block - from
        invariant forall b :: 0 <= b < BITS_PER_ENTRY * bitmap.Length ==>
          (TestBit(b) <==> old(TestBit(b)) || from <= b < block)
      {
        SetBit(block);
        usedBlocks := usedBlocks + 1;
        block := block + 1;
      }
    }

    predicate PageAligned(addr: Word) { addr % BLOCK_BYTES == 0 }

    /** pmm_alloc_page_internal; both public allocators are this with one or the other flag. */
    method AllocPage(alignedOnly: bool) returns (addr: Word)
      requires Valid()
      modifies this`usedBlocks, bitmap
      ensures Valid() && (Model(), addr) == Alloc(old(Model()))
    {
      hide Bit, Alloc;
      var block := 0;
      while block < maxBlocks
        invariant block <= maxBlocks && Model() == old(Model())
        invariant forall b :: 0 <= b < block ==> TestBit(b)
      {
        AddressFits(Model(), block);
        addr := block * BLOCK_BYTES;
        if !TestBit(block) && (!alignedOnly || PageAligned(addr)) {
          AllocIs(Model(), block);
          Take(block);
          return;
        }
        block := block + 1;
      }
      AllocIs(Model(), maxBlocks);
      return 0;
    }

    method Take(block: nat)
      requires Valid() && block < maxBlocks && !TestBit(block)
      modifies this`usedBlocks, bitmap
      ensures Valid() && Model() == State(old(Used()) + {block}, maxBlocks, (old(usedBlocks) + 1) % WORD)
    {
      hide Bit;
      SetBit(block);
      usedBlocks := (usedBlocks + 1) % WORD;
      assert Used() == old(Used()) + {block};
    }

    /** pmm_free_page. */
    method FreePage(page: Word)
      requires Valid()
      modifies this`usedBlocks, bitmap
      ensures Valid() && Model() == Free(old(Model()), page)
    {
      var block := page / BLOCK_BYTES;
      if block >= maxBlocks {
        return;
      }
      if TestBit(block) {
        ClearBit(block);
        usedBlocks := (usedBlocks - 1) % WORD;
        assert Used() == old(Used()) - {block};
      }
    }

    /** pmm_is_page_free. */
    method IsPageFree(page: Word) returns (free: bool)
      requires Valid()
      ensures free <==> page % BLOCK_BYTES == 0 && page / BLOCK_BYTES < maxBlocks && page / BLOCK_BYTES !in Used()
    {
      if page % BLOCK_BYTES != 0 {
        return false;
      }
      var block := page / BLOCK_BYTES;
      if block >= maxBlocks {
        return false;
      }
      return !TestBit(block);
    }
  }

  /** The blocks freed for an entry never reach beyond its end; they start inside it exactly
      when the entry is page-aligned, because its start is rounded down. */
  lemma {:induction false} FreedInsideEntry(r: Region)
    requires r.available && r.addr / BLOCK_BYTES < r.End() / BLOCK_BYTES
    ensures forall b: nat :: r.Covers(b) ==> (b + 1) * BLOCK_BYTES <= r.End()
    ensures (forall b: nat :: r.Covers(b) ==> r.addr <= b * BLOCK_BYTES) <==> r.addr % BLOCK_BYTES == 0
  {
    assert r.Covers(r.addr / BLOCK_BYTES);
  }

  /** The blocks freed for an entry are those that end inside it; where it is page-aligned, the
      blocks that lie in it. */
  lemma {:induction false} CoversExactly(r: Region, b: nat)
    ensures r.Covers(b) <==> r.available && r.addr < (b + 1) * BLOCK_BYTES <= r.End()
    ensures r.available && r.addr <= b * BLOCK_BYTES && (b + 1) * BLOCK_BYTES <= r.End() ==> r.Covers(b)
  {
    QuotientAtMost(r.addr, b);
    QuotientAtMost(r.End(), b);
  }

  lemma {:induction false} QuotientAtMost(x: nat, b: nat)
    ensures x / BLOCK_BYTES <= b <==> x < (b + 1) * BLOCK_BYTES
  {
    var q, r := x / BLOCK_BYTES, x % BLOCK_BYTES;
    assert x == q * BLOCK_BYTES + r;
  }

  /** After pmm_init a block is free exactly when it ends inside some available entry and is not
      marked for the bitmap. */
  lemma {:induction false} StartFreeExactly(map_: seq<Region>, b: nat)
    ensures (b < StartState(map_).max && b !in StartState(map_).used) <==>
      && (exists i :: 0 <= i < |map_| && map_[i].available && map_[i].addr < (b + 1) * BLOCK_BYTES <= map_[i].End())
      && !(BitmapStart(map_) <= b < BitmapEnd(map_))
  {
    hide BitmapStart, BitmapEnd, MaxMem;
    CoveredInRange(map_);
    forall i | 0 <= i < |map_|
      ensures map_[i].Covers(b) <==>
        map_[i].available && map_[i].addr < (b + 1) * BLOCK_BYTES <= map_[i].End()
    {
      CoversExactly(map_[i], b);
    }
  }

  /** The block count is that of the highest end of an available entry, and the bitmap has a bit
      for each block with less than a word to spare. */
  lemma {:induction false} SizesExact(map_: seq<Region>)
    ensures forall i :: 0 <= i < |map_| && map_[i].available ==> map_[i].End() <= MaxMem(map_)
    ensures MaxMem(map_) == 0 || exists i :: 0 <= i < |map_| && map_[i].available && map_[i].End() == MaxMem(map_)
    ensures MaxMem(map_) / BLOCK_BYTES <= BITS_PER_ENTRY * Entries(map_) < MaxMem(map_) / BLOCK_BYTES + BITS_PER_ENTRY
  {
    forall i | 0 <= i < |map_| && map_[i].available ensures map_[i].End() <= MaxMem(map_) {
      MaxMemBounds(map_, i);
    }
    MaxMemAttained(map_);
  }

  lemma {:induction false} MaxMemAttained(map_: seq<Region>)
    ensures MaxMem(map_) == 0 || exists i :: 0 <= i < |map_| && map_[i].available && map_[i].End() == MaxMem(map_)
    decreases |map_|
  {
    if map_ != [] {
      var front := map_[..|map_| - 1];
      MaxMemAttained(front);
      if i :| 0 <= i < |front| && front[i].available && front[i].End() == MaxMem(front) {
        assert map_[i] == front[i];
      }
    }
  }

  ghost function Interval(lo: nat, hi: nat): (s: set<nat>)
    requires lo <= hi
    ensures forall b: nat :: b in s <==> lo <= b < hi
    ensures |s| == hi - lo
    decreases hi
  {
    if lo == hi then {} else Interval(lo, hi - 1) + {hi - 1}
  }

  /** Blocks below the highest address that no available entry covers. */
  ghost function Holes(map_: seq<Region>): set<nat> {
    set b | 0 <= b < MaxMem(map_) / BLOCK_BYTES && !Covered(map_, b) && !(BitmapStart(map_) <= b < BitmapEnd(map_))
  }

  /** The frames used after pmm_init, as its contract gives them. */
  ghost function UsedAtStart(map_: seq<Region>): set<nat> {
    set b | 0 <= b < MaxMem(map_) / BLOCK_BYTES && !(Covered(map_, b) && !(BitmapStart(map_) <= b < BitmapEnd(map_)))
  }

  ghost function StartState(map_: seq<Region>): State {
    State(UsedAtStart(map_), MaxMem(map_) / BLOCK_BYTES, (BitmapEnd(map_) - BitmapStart(map_)) % WORD)
  }

  /** Blocks marked for the bitmap at or above the block count: counted, but never allocated. */
  function Beyond(map_: seq<Region>): (n: nat)
    ensures n <= BitmapEnd(map_) - BitmapStart(map_)
  {
    var max := MaxMem(map_) / BLOCK_BYTES;
    if BitmapEnd(map_) <= max then 0
    else if BitmapStart(map_) <= max then BitmapEnd(map_) - max
    else BitmapEnd(map_) - BitmapStart(map_)
  }

  lemma {:induction false} StartUsed(map_: seq<Region>)
    ensures |UsedAtStart(map_)| == BitmapEnd(map_) - BitmapStart(map_) - Beyond(map_) + |Holes(map_)|
  {
    hide Covered, BitmapStart, MaxMem;
    var start, max := BitmapStart(map_), MaxMem(map_) / BLOCK_BYTES;
    var end := BitmapEnd(map_) - Beyond(map_);
    var own := if start <= end then Interval(start, end) else {};
    assert forall b: nat :: b in own <==> start <= b < BitmapEnd(map_) && b < max;
    assert UsedAtStart(map_) == own + Holes(map_) && own !! Holes(map_);
  }

  lemma {:induction false} StartOffset(map_: seq<Region>)
    requires MaxMem(map_) / BLOCK_BYTES < WORD / BLOCK_BYTES
    ensures Inv(StartState(map_)) && Offset(StartState(map_)) == (Beyond(map_) - |Holes(map_)|) % WORD
  {
    hide Covered, BitmapStart, BitmapEnd, MaxMem, Beyond;
    StartUsed(map_);
    ModShift(BitmapEnd(map_) - BitmapStart(map_), 0, |UsedAtStart(map_)|);
  }

  /** Only the blocks marked for the bitmap are counted at the start, so after any run the
      reported free count exceeds the number of free frames by the number of holes in the memory
      map, less the marked blocks that are beyond the block count. */
  lemma {:induction false} HolesReportedFree(map_: seq<Region>, ops: seq<Op>)
    requires MaxMem(map_) / BLOCK_BYTES < WORD / BLOCK_BYTES
    ensures var s := Run(StartState(map_), ops);
      ReportedFree(s) == (s.max - |s.used| + |Holes(map_)| - Beyond(map_)) % WORD
  {
    hide Offset, StartState, Run, ReportedFree, Beyond, Holes;
    StartOffset(map_);
    var s := Run(StartState(map_), ops);
    ReportedFreeError(StartState(map_), ops);
    LessRemainder(s.max - |s.used|, Beyond(map_) - |Holes(map_)|);
  }

  lemma {:induction false} LessRemainder(x: int, n: int)
    ensures (x - n % WORD) % WORD == (x - n) % WORD
  {
  }

  // ---- Where the bitmap is stored ----------------------------------------------------

  /** Block of the last byte of storage from addr on, counted from the block of addr. */
  lemma {:induction false} LastBlock(addr: nat, bytes: nat)
    requires bytes > 0
    ensures (addr + bytes - 1) / BLOCK_BYTES == addr / BLOCK_BYTES + (addr % BLOCK_BYTES + bytes - 1) / BLOCK_BYTES
  {
  }

  lemma {:induction false} BlocksBetween(lo: nat, x: nat, hi: nat)
    requires lo <= x <= hi
    ensures lo / BLOCK_BYTES <= x / BLOCK_BYTES <= hi / BLOCK_BYTES
  {
  }

  /** The blocks marked for the bitmap hold all of its storage exactly when what it reaches into
      its last block was rounded away with its start; so always when the start is aligned. */
  lemma {:induction false} StorageMarked(map_: seq<Region>)
    requires map_ != [] && Entries(map_) > 0
    ensures var addr, bytes := Placed(map_, 4 * Entries(map_)), 4 * Entries(map_);
      && ((forall x :: addr <= x < addr + bytes ==> BitmapStart(map_) <= x / BLOCK_BYTES < BitmapEnd(map_)) <==>
          (addr % BLOCK_BYTES + bytes - 1) / BLOCK_BYTES <= bytes / BLOCK_BYTES)
      && (addr % BLOCK_BYTES == 0 ==> (addr % BLOCK_BYTES + bytes - 1) / BLOCK_BYTES <= bytes / BLOCK_BYTES)
  {
    hide Placed, Entries;
    var addr, bytes := Placed(map_, 4 * Entries(map_)), 4 * Entries(map_);
    LastBlock(addr, bytes);
    forall x | addr <= x < addr + bytes
      ensures addr / BLOCK_BYTES <= x / BLOCK_BYTES <= (addr + bytes - 1) / BLOCK_BYTES
    {
      BlocksBetween(addr, x, addr + bytes - 1);
    }
    if forall x :: addr <= x < addr + bytes ==> BitmapStart(map_) <= x / BLOCK_BYTES < BitmapEnd(map_) {
      assert (addr + bytes - 1) / BLOCK_BYTES < BitmapEnd(map_);
    }
  }

  /** An entry that starts inside a page, where the condition fails: the first page handed out
      is the one that holds the end of the bitmap. */
  lemma {:induction false} BitmapHandedOut()
    ensures var m := [Region(0x100FA0, 0x8530060, true)];
      && (Placed(m, 4 * Entries(m)) + 4 * Entries(m) - 1) / BLOCK_BYTES == BitmapEnd(m) == 258
      && Alloc(StartState(m)).1 == 258 * BLOCK_BYTES
  {
    var r := Region(0x100FA0, 0x8530060, true);
    var m := [r];
    assert m[..0] == [] && m[0] == r;
    assert MaxMem(m) == 0x8631000 && Entries(m) == 1074;
    assert BitmapStart(m) == 256 && BitmapEnd(m) == 258;
    forall b: nat ensures Covered(m, b) <==> 256 <= b < 0x8631 {
      assert m[0].Covers(b) <==> 256 <= b < 0x8631;
    }
    AllocIs(StartState(m), 258);
  }

  lemma {:induction false} CoveredSnoc(map_: seq<Region>, i: nat)
    requires i < |map_|
    ensures forall b :: Covered(map_[..i + 1], b) <==> Covered(map_[..i], b) || map_[i].Covers(b)
  {
  }

  lemma {:induction false} AllocIs(s: State, b: nat)
    requires Inv(s) && b <= s.max && forall k :: 0 <= k < b ==> k in s.used
    requires b < s.max ==> b !in s.used
    ensures Lowest(s) == b
    ensures Alloc(s) == if b == s.max then (s, 0)
                        else (State(s.used + {b}, s.max, (s.counter + 1) % WORD), b * BLOCK_BYTES)
  {
  }
}

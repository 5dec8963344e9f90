/** How a flat memory represents a heap state: every block's header sits in the memory the
    heap manages, and each link points where the block ends. */
module HeapMemory {
  import opened Words
  import opened HeapBlocks
  import opened HeapCoalesce
  import opened HeapOps
  import HeapTheorems
  import Memory

  const MAGIC: Word := 0xDEADBEEF

  /** Sixteen bytes of memory, seen at the offsets of the fields of heap_block_t. */
  datatype Granule = Granule(magic: Word, size: Word, next: Word, used: nat, pad: nat)

  /** Memory m holds the header of b, in a heap of hi granules at address base. */
  ghost predicate HeaderOf(m: seq<Granule>, b: Block, base: nat, hi: nat) {
    && b.at < |m| && m[b.at].magic == MAGIC && m[b.at].size == ALIGNMENT * b.units
    && (m[b.at].used != 0 <==> b.used)
    && m[b.at].next == if b.End() == hi then 0 else base + ALIGNMENT * b.End()
  }

  ghost predicate Headers(m: seq<Granule>, bs: seq<Block>, base: nat, hi: nat) {
    forall i :: 0 <= i < |bs| ==> HeaderOf(m, bs[i], base, hi)
  }

  ghost predicate Represents(m: seq<Granule>, s: State, base: nat) {
    && 0 < base && base % PAGE_BYTES == 0 && base + ALIGNMENT * |m| <= WORD
    && s.hi <= |m| && Inv(s) && Headers(m, s.blocks, base, s.hi)
  }

  function AddrOf(bs: seq<Block>, i: nat, base: nat): nat {
    if i < |bs| then base + ALIGNMENT * bs[i].at else 0
  }

  function LastAddr(bs: seq<Block>, base: nat): nat
    requires bs != []
  {
    AddrOf(bs, |bs| - 1, base)
  }

  /** The linked list in memory visits the blocks in order. */
  lemma {:induction false} ReadHeader(m: seq<Granule>, s: State, base: nat, i: nat)
    requires Represents(m, s, base) && i < |s.blocks|
    ensures s.blocks[i].End() <= s.hi && HeaderOf(m, s.blocks[i], base, s.hi)
    ensures m[s.blocks[i].at].next == AddrOf(s.blocks, i + 1, base)
  {
    Within(s.blocks, 0, s.hi, i);
  }

  lemma {:induction false} Bounds(m: seq<Granule>, s: State, base: nat)
    requires Represents(m, s, base)
    ensures 0 < base && base % PAGE_BYTES == 0 && base + ALIGNMENT * |m| <= WORD && s.hi <= |m|
    ensures Inv(s) && s.blocks[0].at == 0 && AddrOf(s.blocks, 0, base) == base
  {
    Within(s.blocks, 0, s.hi, 0);
  }

  /** Rewriting headers inside blocks i .. i+k-1 replaces just those blocks. */
  lemma {:induction false} HeadersReplace(m0: seq<Granule>, m1: seq<Granule>, bs: seq<Block>, base: nat, hi: nat,
                       i: nat, k: nat, mid: seq<Block>)
    requires Tiles(bs, 0, hi) && Headers(m0, bs, base, hi) && 0 < k && i + k <= |bs|
    requires |m0| == |m1|
    requires forall g :: 0 <= g < |m0| && !(bs[i].at <= g < bs[i + k - 1].End()) ==> m1[g] == m0[g]
    requires Headers(m1, mid, base, hi)
    ensures Headers(m1, Replace(bs, i, k, mid), base, hi)
  {
    var r := Replace(bs, i, k, mid);
    forall j | 0 <= j < |r| ensures HeaderOf(m1, r[j], base, hi) {
      if j < i {
        Before(bs, 0, hi, j, i);
        assert HeaderOf(m0, bs[j], base, hi);
      } else if j < i + |mid| {
        assert r[j] == mid[j - i];
      } else {
        Before(bs, 0, hi, i + k - 1, j - |mid| + k);
        assert HeaderOf(m0, bs[j - |mid| + k], base, hi);
      }
    }
  }

  // ---- Frames ------------------------------------------------------------------------

  /** No payload granule of a used block of bs differs. */
  ghost predicate Kept(m0: seq<Granule>, m1: seq<Granule>, bs: seq<Block>) {
    && |m0| == |m1|
    && forall b, g :: b in bs && b.used && b.at < g < b.End() && g < |m0| ==> m1[g] == m0[g]
  }

  /** Writing a header, or anything inside a free block, is invisible to the used blocks. */
  lemma {:induction false} KeptWrite(m: seq<Granule>, bs: seq<Block>, hi: nat, i: nat, at: nat, v: Granule)
    requires Tiles(bs, 0, hi) && i < |bs| && at < |m|
    requires at == bs[i].at || (!bs[i].used && bs[i].at < at < bs[i].End())
    ensures Kept(m, m[at := v], bs)
  {
    forall b | b in bs && b.used ensures !(b.at < at < b.End()) {
      var j :| 0 <= j < |bs| && bs[j] == b;
      if j < i { Before(bs, 0, hi, j, i); }
      if i < j { Before(bs, 0, hi, i, j); }
    }
  }

  lemma {:induction false} KeptSame(m: seq<Granule>, bs: seq<Block>)
    ensures Kept(m, m, bs)
  {
  }

  lemma {:induction false} KeptTrans(m0: seq<Granule>, m1: seq<Granule>, m2: seq<Granule>, bs: seq<Block>, cs: seq<Block>)
    requires Kept(m0, m1, bs) && Kept(m1, m2, cs)
    requires forall b :: b in bs && b.used ==> b in cs
    ensures Kept(m0, m2, bs)
  {
  }

  /** len granules from `from` on; empty when they would not fit. */
  function Slice(m: seq<Granule>, from: nat, len: nat): seq<Granule> {
    if from + len <= |m| then m[from..from + len] else []
  }

  /** The two payloads agree as far as both reach. */
  ghost predicate CommonPrefix(x: seq<Granule>, y: seq<Granule>) {
    forall k :: 0 <= k < |x| && k < |y| ==> x[k] == y[k]
  }

  lemma {:induction false} KeptPayload(m0: seq<Granule>, m1: seq<Granule>, bs: seq<Block>, p: nat, n: nat)
    requires Kept(m0, m1, bs) && Block(p, n, true) in bs
    ensures Slice(m1, p + 1, n) == Slice(m0, p + 1, n)
  {
    var b := Block(p, n, true);
    if p + 1 + n <= |m0| {
      forall g | p < g < p + 1 + n ensures m1[g] == m0[g] {
        assert b.at < g < b.End();
      }
    }
  }

  /** What is kept of the used blocks is kept of every live payload. */
  lemma {:induction false} LiveKept(m0: seq<Granule>, m1: seq<Granule>, s: State, p: nat)
    requires Inv(s) && Kept(m0, m1, s.blocks) && p in s.live
    ensures Slice(m1, p + 1, s.live[p]) == Slice(m0, p + 1, s.live[p])
  {
    KeptPayload(m0, m1, s.blocks, p, s.live[p]);
  }

  lemma {:induction false} AllLiveKept(m0: seq<Granule>, m1: seq<Granule>, s: State)
    requires Inv(s) && Kept(m0, m1, s.blocks)
    ensures forall p :: p in s.live ==> Slice(m1, p + 1, s.live[p]) == Slice(m0, p + 1, s.live[p])
  {
    forall p | p in s.live ensures Slice(m1, p + 1, s.live[p]) == Slice(m0, p + 1, s.live[p]) {
      LiveKept(m0, m1, s, p);
    }
  }

  lemma {:induction false} KeptFewer(m0: seq<Granule>, m1: seq<Granule>, bs: seq<Block>, cs: seq<Block>)
    requires Kept(m0, m1, cs) && forall b :: b in bs && b.used ==> b in cs
    ensures Kept(m0, m1, bs)
  {
  }

  // ---- The header writes of each operation -------------------------------------------

  lemma {:induction false} LastOfReplace(bs: seq<Block>, i: nat, k: nat, mid: seq<Block>)
    requires 0 < k && i + k <= |bs| && mid != []
    ensures var r := Replace(bs, i, k, mid);
      r != [] && r[|r| - 1] == if i + k == |bs| then mid[|mid| - 1] else bs[|bs| - 1]
  {
  }

  predicate SplitWrites(m0: seq<Granule>, m1: seq<Granule>, b: nat, n: nat, size: Word, newBlock: Word) {
    && b < n < |m0| && m0[b].size >= size + HEADER_BYTES
    && m1 == m0[n := m0[n].(magic := MAGIC, size := m0[b].size - size - HEADER_BYTES, next := m0[b].next, used := 0)]
               [b := m0[b].(size := size, next := newBlock)]
  }

  lemma {:induction false} SplitHeaders(m0: seq<Granule>, m1: seq<Granule>, s: State, base: nat, i: nat, need: nat)
    requires Represents(m0, s, base) && i < |s.blocks| && s.blocks[i].units >= need + 2
    requires ALIGNMENT * need < WORD && base + ALIGNMENT * (s.blocks[i].at + 1 + need) < WORD
    requires SplitWrites(m0, m1, s.blocks[i].at, s.blocks[i].at + 1 + need,
                         ALIGNMENT * need, base + ALIGNMENT * (s.blocks[i].at + 1 + need))
    ensures Headers(m1, Split(s.blocks, i, need), base, s.hi)
  {
    var b := s.blocks[i];
    ReadHeader(m0, s, base, i);
    var mid := [Block(b.at, need, b.used), Block(b.at + 1 + need, b.units - need - 1, false)];
    assert HeaderOf(m1, mid[0], base, s.hi);
    assert HeaderOf(m1, mid[1], base, s.hi);
    HeadersReplace(m0, m1, s.blocks, base, s.hi, i, 1, mid);
  }

  lemma {:induction false} SplitKept(m0: seq<Granule>, m1: seq<Granule>, bs: seq<Block>, hi: nat, i: nat, need: nat, size: Word, newBlock: Word)
    requires Tiles(bs, 0, hi) && i < |bs| && bs[i].units >= need + 2
    requires SplitWrites(m0, m1, bs[i].at, bs[i].at + 1 + need, size, newBlock)
    ensures Kept(m0, m1, Split(bs, i, need))
  {
    var r, b, n := Split(bs, i, need), bs[i].at, bs[i].at + 1 + need;
    SplitTiles(bs, hi, i, need);
    KeptWrite(m0, r, hi, i + 1, n, m1[n]);
    KeptWrite(m0[n := m1[n]], r, hi, i, b, m1[b]);
    KeptTrans(m0, m0[n := m1[n]], m1, r, r);
  }

  lemma {:induction false} SplitLast(s: State, i: nat, need: nat, base: nat)
    requires Inv(s) && 0 < base && i < |s.blocks| && s.blocks[i].units >= need + 2
    ensures var r := Split(s.blocks, i, need);
      && r != []
      && (AddrOf(s.blocks, i, base) == LastAddr(s.blocks, base) ==>
            LastAddr(r, base) == base + ALIGNMENT * (s.blocks[i].at + 1 + need))
      && (AddrOf(s.blocks, i, base) != LastAddr(s.blocks, base) ==> LastAddr(r, base) == LastAddr(s.blocks, base))
  {
    LastOnly(s, i, base);
    SplitTiles(s.blocks, s.hi, i, need);
    LastOfReplace(s.blocks, i, 1, [Block(s.blocks[i].at, need, s.blocks[i].used),
                                   Block(s.blocks[i].at + 1 + need, s.blocks[i].units - need - 1, false)]);
  }

  /** heap_end is compared by address; only the last block has the last block's address. */
  lemma {:induction false} LastOnly(s: State, i: nat, base: nat)
    requires Inv(s) && i < |s.blocks|
    ensures AddrOf(s.blocks, i, base) == LastAddr(s.blocks, base) <==> i + 1 == |s.blocks|
  {
    if i + 1 < |s.blocks| { Before(s.blocks, 0, s.hi, i, |s.blocks| - 1); }
  }

  lemma {:induction false} ReadAt(m: seq<Granule>, s: State, base: nat, p: nat)
    requires Represents(m, s, base) && IndexAt(s.blocks, p) < |s.blocks|
    ensures p < |m| && m[p].magic == MAGIC && m[p].size == ALIGNMENT * s.blocks[IndexAt(s.blocks, p)].units
  {
    ReadHeader(m, s, base, IndexAt(s.blocks, p));
  }

  lemma {:induction false} FirstFitIs(bs: seq<Block>, need: nat, c: nat)
    requires c <= |bs| && forall j :: 0 <= j < c ==> !bs[j].Fits(need)
    requires c < |bs| ==> bs[c].Fits(need)
    ensures FirstFit(bs, need) == c
  {
  }

  lemma {:induction false} SplitRepresents(m0: seq<Granule>, m1: seq<Granule>, s: State, base: nat, i: nat, size: Word)
    requires Represents(m0, s, base) && i < |s.blocks|
    requires size % ALIGNMENT == 0 && s.blocks[i].units >= size / ALIGNMENT + 2
    requires var n := s.blocks[i].at + 1 + size / ALIGNMENT;
      base + ALIGNMENT * n < WORD && SplitWrites(m0, m1, s.blocks[i].at, n, size, base + ALIGNMENT * n)
    ensures Represents(m1, SplitState(s, i, size / ALIGNMENT), base)
    ensures Kept(m0, m1, Split(s.blocks, i, size / ALIGNMENT))
  {
    var need := size / ALIGNMENT;
    SplitHeaders(m0, m1, s, base, i, need);
    SplitKept(m0, m1, s.blocks, s.hi, i, need, size, base + ALIGNMENT * (s.blocks[i].at + 1 + need));
    SplitInv(s, i, need);
  }

  /** Blocks i and i+1, both free, as one. */
  function MergeAt(bs: seq<Block>, i: nat): seq<Block>
    requires i + 1 < |bs|
  {
    Replace(bs, i, 2, [Block(bs[i].at, bs[i].units + 1 + bs[i + 1].units, false)])
  }

  lemma {:induction false} MergeAtUsed(bs: seq<Block>, hi: nat, i: nat)
    requires Tiles(bs, 0, hi) && i + 1 < |bs| && !bs[i].used && !bs[i + 1].used
    ensures Tiles(MergeAt(bs, i), 0, hi) && Used(MergeAt(bs, i)) == Used(bs)
  {
    var b := Block(bs[i].at, bs[i].units + 1 + bs[i + 1].units, false);
    Before(bs, 0, hi, i, i + 1);
    NoUsed(bs[i..i + 2]);
    NoUsed([b]);
    assert [b][1..] == [];
    ReplaceTiles(bs, 0, hi, i, 2, [b]);
  }

  lemma {:induction false} UsedStay(bs: seq<Block>, cs: seq<Block>)
    requires Used(bs) == Used(cs)
    ensures forall b :: b in bs && b.used ==> b in cs
  {
    forall b | b in bs && b.used ensures b in cs {
      UsedMember(bs, b);
      UsedMember(cs, b);
    }
  }

  ghost predicate CoalescedUpTo(bs: seq<Block>, c: nat) {
    forall i, j :: 0 <= i && j == i + 1 && j <= c && j < |bs| ==> bs[i].used || bs[j].used
  }

  lemma {:induction false} MergedIsCoalesce(bs: seq<Block>, merged: seq<Block>, hi: nat, c: nat)
    requires Tiles(bs, 0, hi) && Tiles(merged, 0, hi) && Used(merged) == Used(bs)
    requires CoalescedUpTo(merged, c) && c + 1 >= |merged|
    ensures merged == Coalesce(bs)
  {
    CoalesceProperties(bs, 0, hi);
    CanonicalForm(merged, Coalesce(bs), 0, hi);
  }

  lemma {:induction false} KeptStep(m0: seq<Granule>, m1: seq<Granule>, m2: seq<Granule>, bs: seq<Block>, cs: seq<Block>)
    requires Kept(m0, m1, bs) && Kept(m1, m2, cs) && Used(bs) == Used(cs)
    ensures Kept(m0, m2, bs)
  {
    UsedStay(bs, cs);
    KeptTrans(m0, m1, m2, bs, cs);
  }

  lemma {:induction false} MergeLast(s: State, i: nat, base: nat)
    requires Inv(s) && 0 < base && i + 1 < |s.blocks|
    ensures var r := MergeAt(s.blocks, i);
      && r != []
      && LastAddr(r, base) == if i + 2 == |s.blocks| then AddrOf(s.blocks, i, base) else LastAddr(s.blocks, base)
  {
    LastOfReplace(s.blocks, i, 2, [Block(s.blocks[i].at, s.blocks[i].units + 1 + s.blocks[i + 1].units, false)]);
  }

  predicate MergeWrites(m0: seq<Granule>, m1: seq<Granule>, b: nat, n: nat) {
    && b < n < |m0| && m0[b].size + HEADER_BYTES + m0[n].size < WORD
    && m1 == m0[b := m0[b].(size := m0[b].size + HEADER_BYTES + m0[n].size, next := m0[n].next)]
  }

  lemma {:induction false} MergeHeaders(m0: seq<Granule>, m1: seq<Granule>, s: State, base: nat, i: nat)
    requires Represents(m0, s, base) && i + 1 < |s.blocks| && !s.blocks[i].used && !s.blocks[i + 1].used
    requires MergeWrites(m0, m1, s.blocks[i].at, s.blocks[i + 1].at)
    ensures Headers(m1, MergeAt(s.blocks, i), base, s.hi) && Kept(m0, m1, s.blocks)
  {
    var bs := s.blocks;
    var b := Block(bs[i].at, bs[i].units + 1 + bs[i + 1].units, false);
    Before(bs, 0, s.hi, i, i + 1);
    assert HeaderOf(m0, bs[i], base, s.hi) && HeaderOf(m0, bs[i + 1], base, s.hi);
    assert HeaderOf(m1, b, base, s.hi);
    HeadersReplace(m0, m1, bs, base, s.hi, i, 2, [b]);
    KeptWrite(m0, bs, s.hi, i, bs[i].at, m1[bs[i].at]);
  }

  lemma {:induction false} MergeInv(s: State, i: nat)
    requires Inv(s) && i + 1 < |s.blocks| && !s.blocks[i].used && !s.blocks[i + 1].used
    ensures Inv(s.(blocks := MergeAt(s.blocks, i))) && Used(MergeAt(s.blocks, i)) == Used(s.blocks)
  {
    MergeAtUsed(s.blocks, s.hi, i);
    UsedStay(s.blocks, MergeAt(s.blocks, i));
  }

  lemma {:induction false} MergeRepresents(m0: seq<Granule>, m1: seq<Granule>, s: State, base: nat, i: nat)
    requires Represents(m0, s, base) && i + 1 < |s.blocks| && !s.blocks[i].used && !s.blocks[i + 1].used
    requires MergeWrites(m0, m1, s.blocks[i].at, s.blocks[i + 1].at)
    ensures Represents(m1, s.(blocks := MergeAt(s.blocks, i)), base)
    ensures Used(MergeAt(s.blocks, i)) == Used(s.blocks) && Kept(m0, m1, s.blocks)
    ensures forall c: nat :: c <= i && CoalescedUpTo(s.blocks, c) ==> CoalescedUpTo(MergeAt(s.blocks, i), c)
  {
    MergeHeaders(m0, m1, s, base, i);
    MergeInv(s, i);
  }

  lemma {:induction false} MarkHeaders(m0: seq<Granule>, m1: seq<Granule>, s: State, base: nat, i: nat, v: nat)
    requires Represents(m0, s, base) && i < |s.blocks| && s.blocks[i].at < |m0|
    requires m1 == m0[s.blocks[i].at := m0[s.blocks[i].at].(used := v)]
    ensures Headers(m1, Mark(s.blocks, i, v != 0), base, s.hi) && Kept(m0, m1, s.blocks)
  {
    ReadHeader(m0, s, base, i);
    HeadersReplace(m0, m1, s.blocks, base, s.hi, i, 1, [s.blocks[i].(used := v != 0)]);
    KeptWrite(m0, s.blocks, s.hi, i, s.blocks[i].at, m1[s.blocks[i].at]);
  }

  lemma {:induction false} MarkRepresents(m0: seq<Granule>, m1: seq<Granule>, s: State, t: State, base: nat, i: nat, v: nat)
    requires Represents(m0, s, base) && i < |s.blocks| && s.blocks[i].at < |m0|
    requires m1 == m0[s.blocks[i].at := m0[s.blocks[i].at].(used := v)]
    requires t.blocks == Mark(s.blocks, i, v != 0) && t.hi == s.hi && Inv(t)
    ensures Represents(m1, t, base) && Kept(m0, m1, s.blocks)
  {
    MarkHeaders(m0, m1, s, base, i, v);
  }

  lemma {:induction false} MarkLast(bs: seq<Block>, i: nat, used: bool, base: nat)
    requires i < |bs|
    ensures Mark(bs, i, used) != [] && LastAddr(Mark(bs, i, used), base) == LastAddr(bs, base)
  {
  }

  predicate ExpandWrites(m0: seq<Granule>, m1: seq<Granule>, e: nat, n: nat, newBlock: Word) {
    && e < n < |m0|
    && m1 == m0[n := m0[n].(magic := MAGIC, size := PAGE_BYTES - HEADER_BYTES, next := 0)]
               [e := m0[e].(next := newBlock)]
  }

  /** Where the page behind a heap of `size` bytes begins, in granules. */
  lemma {:induction false} NextPage(base: nat, size: nat)
    requires size % ALIGNMENT == 0
    ensures (base + size - base) / ALIGNMENT == size / ALIGNMENT
    ensures base + size == base + ALIGNMENT * (size / ALIGNMENT)
    ensures (size + PAGE_BYTES) % ALIGNMENT == 0
    ensures (size + PAGE_BYTES) / ALIGNMENT == size / ALIGNMENT + PAGE_UNITS
  {
  }

  /** Linking a new page at the end of the heap, its `used` byte left as found. */
  lemma {:induction false} ExpandHeaders(m0: seq<Granule>, m1: seq<Granule>, s: State, base: nat)
    requires Represents(m0, s, base) && s.hi + PAGE_UNITS <= |m0| && base + ALIGNMENT * s.hi < WORD
    requires ExpandWrites(m0, m1, s.blocks[|s.blocks| - 1].at, s.hi, base + ALIGNMENT * s.hi)
    ensures var t := s.blocks + [Block(s.hi, PAGE_UNITS - 1, m0[s.hi].used != 0)];
      Headers(m1, t, base, s.hi + PAGE_UNITS)
  {
    var last := |s.blocks| - 1;
    var t := s.blocks + [Block(s.hi, PAGE_UNITS - 1, m0[s.hi].used != 0)];
    forall j | 0 <= j < |t| ensures HeaderOf(m1, t[j], base, s.hi + PAGE_UNITS) {
      if j <= last {
        ReadHeader(m0, s, base, j);
        Within(s.blocks, 0, s.hi, j);
        if j < last { Before(s.blocks, 0, s.hi, j, last); }
      }
    }
  }

  lemma {:induction false} ExpandKept(m0: seq<Granule>, m1: seq<Granule>, bs: seq<Block>, hi: nat, newBlock: Word)
    requires Tiles(bs, 0, hi) && bs != []
    requires ExpandWrites(m0, m1, bs[|bs| - 1].at, hi, newBlock)
    ensures Kept(m0, m1, bs)
  {
    var last := |bs| - 1;
    var e := bs[last].at;
    var mid := m0[hi := m1[hi]];
    KeptWrite(mid, bs, hi, last, e, m1[e]);
    forall b | b in bs ensures b.End() <= hi {
      var j :| 0 <= j < |bs| && bs[j] == b;
      Within(bs, 0, hi, j);
    }
    KeptTrans(m0, mid, m1, bs, bs);
  }

  /** Writing into the payload of a free block disturbs nothing. */
  lemma {:induction false} StaleWrite(m: seq<Granule>, s: State, base: nat, p: nat, v: Granule)
    requires Represents(m, s, base) && InFree(s.blocks, p)
    ensures p < |m| && Represents(m[p := v], s, base) && Kept(m, m[p := v], s.blocks)
  {
    var b :| b in s.blocks && !b.used && b.at < p < b.End();
    var i :| 0 <= i < |s.blocks| && s.blocks[i] == b;
    Within(s.blocks, 0, s.hi, i);
    KeptWrite(m, s.blocks, s.hi, i, p, v);
    forall j | 0 <= j < |s.blocks| ensures HeaderOf(m[p := v], s.blocks[j], base, s.hi) {
      if j < i { Before(s.blocks, 0, s.hi, j, i); }
      if i < j { Before(s.blocks, 0, s.hi, i, j); }
      assert HeaderOf(m, s.blocks[j], base, s.hi);
    }
  }

  lemma {:induction false} InFreeWithin(m: seq<Granule>, s: State, base: nat, p: nat)
    requires Represents(m, s, base) && InFree(s.blocks, p)
    ensures p < |m|
  {
    TilesIndex(s.blocks, 0, s.hi);
  }

  /** Clearing the flag of a block, or of a header left behind in a free block. */
  lemma {:induction false} ClearRepresents(m: seq<Granule>, s: State, base: nat, p: nat)
    requires Represents(m, s, base) && (IndexAt(s.blocks, p) < |s.blocks| || InFree(s.blocks, p))
    ensures p < |m|
    ensures var n, t := m[p := m[p].(used := 0)], Cleared(s, p);
      && Represents(n, t, base) && Inv(t) && Kept(m, n, t.blocks)
      && t.hi == s.hi && LastAddr(t.blocks, base) == LastAddr(s.blocks, base)
  {
    hide Represents, Kept, Inv, Mark, InFree;
    var i := IndexAt(s.blocks, p);
    Bounds(m, s, base);
    if i < |s.blocks| {
      ReadAt(m, s, base, p);
      UnmarkInv(s, i);
      var n := m[p := m[p].(used := 0)];
      MarkRepresents(m, n, s, Unmark(s, i), base, i, 0);
      MarkLast(s.blocks, i, false, base);
      KeptFewer(m, n, Unmark(s, i).blocks, s.blocks);
    } else {
      InFreeWithin(m, s, base, p);
      StaleWrite(m, s, base, p, m[p].(used := 0));
    }
  }

  /** Whatever a client writes into its own payload, the heap and all other payloads stand. */
  lemma {:induction false} PayloadWrites(m0: seq<Granule>, m1: seq<Granule>, s: State, base: nat, q: nat)
    requires Represents(m0, s, base) && q in s.live && |m1| == |m0|
    requires forall g :: 0 <= g < |m0| && !(q < g < q + 1 + s.live[q]) ==> m1[g] == m0[g]
    ensures Represents(m1, s, base)
    ensures forall p :: p in s.live && p != q ==> Slice(m1, p + 1, s.live[p]) == Slice(m0, p + 1, s.live[p])
  {
    hide Inv;
    Bounds(m0, s, base);
    forall i | 0 <= i < |s.blocks| ensures HeaderOf(m1, s.blocks[i], base, s.hi) {
      HeapTheorems.LiveSeparate(s, q, q, s.blocks[i]);
      assert HeaderOf(m0, s.blocks[i], base, s.hi);
    }
    forall p | p in s.live && p != q ensures Slice(m1, p + 1, s.live[p]) == Slice(m0, p + 1, s.live[p]) {
      HeapTheorems.LiveSeparate(s, p, q, s.blocks[0]);
      SliceSame(m0, m1, p + 1, s.live[p]);
    }
  }

  lemma {:induction false} SliceSame(m0: seq<Granule>, m1: seq<Granule>, from: nat, len: nat)
    requires |m0| == |m1| && forall g :: from <= g < from + len && g < |m0| ==> m1[g] == m0[g]
    ensures Slice(m1, from, len) == Slice(m0, from, len)
  {
  }

  lemma {:induction false} SlicePrefix(m: seq<Granule>, from: nat, n: nat, len: nat)
    requires n <= len && from + len <= |m|
    ensures CommonPrefix(Slice(m, from, len), Slice(m, from, n))
  {
  }

  lemma {:induction false} SplitLive(s: State, i: nat, need: nat)
    requires Inv(s) && i < |s.blocks| && s.blocks[i].units >= need + 2 && s.blocks[i].at in s.live
    ensures var t := SplitState(s, i, need); var r := SplitIfRoomy(s.blocks, i, need);
      Inv(t) && t.hi == s.hi && t.blocks == r && i < |r| && r[i].units == need && t.live == s.live[s.blocks[i].at := need]
  {
    SplitInv(s, i, need);
    SplitTiles(s.blocks, s.hi, i, need);
  }

  /** After krealloc's inner kmalloc both blocks are live, apart, and the new one is longer. */
  lemma {:induction false} MovedFits(s: State, t: State, size: Word, flags: seq<bool>, b: nat, q: nat)
    requires Inv(s) && b in s.live && s.live[b] < size / ALIGNMENT && RoundUp(size) == size
    requires (t, Some(q)) == Malloc(s, size, flags)
    ensures Inv(t) && b in t.live && t.live[b] == s.live[b] && q in t.live && q != b && t.live[b] < t.live[q]
    ensures IndexAt(t.blocks, b) < |t.blocks| && t.blocks[IndexAt(t.blocks, b)].units == s.live[b]
    ensures q + 1 + t.live[q] <= t.hi && b + 1 + t.live[b] <= t.hi
    ensures b + 1 + t.live[b] <= q || q + 1 + t.live[q] <= b
  {
    MallocInv(s, size, flags);
    GrownInv(s, size, flags);
    HeapTheorems.PlaceFirstFit(Grown(s, size, flags), Need(size));
    IndexAtBlock(t.blocks, t.hi, Block(b, t.live[b], true));
    HeapTheorems.LiveSeparate(t, b, q, t.blocks[0]);
    HeapTheorems.LiveSeparate(t, q, b, t.blocks[0]);
  }

  lemma {:induction false} CopiedCells(m0: seq<Granule>, m1: seq<Granule>, dst: nat, src: nat, n: nat)
    requires dst + n <= |m0| && src + n <= |m0| && (src + n <= dst || dst + n <= src)
    requires m1 == Memory.CopyAscending(m0, dst, src, n)
    ensures |m1| == |m0|
    ensures forall g :: 0 <= g < |m0| && !(dst <= g < dst + n) ==> m1[g] == m0[g]
    ensures m1[dst..dst + n] == m0[src..src + n]
  {
    Memory.MovesWhenNotInside(m0, dst, src, n);
  }

  /** memcpy from live payload b to the longer live payload q. */
  lemma {:induction false} CopiedPayload(m0: seq<Granule>, m1: seq<Granule>, s: State, base: nat, b: nat, q: nat)
    requires Represents(m0, s, base) && b in s.live && q in s.live && s.live[b] < s.live[q]
    requires q + 1 + s.live[q] <= s.hi && b + 1 + s.live[b] <= s.hi
    requires b + 1 + s.live[b] <= q || q + 1 + s.live[q] <= b
    requires m1 == Memory.CopyAscending(m0, q + 1, b + 1, s.live[b])
    ensures Represents(m1, s, base)
    ensures forall p :: p in s.live && p != q ==> Slice(m1, p + 1, s.live[p]) == Slice(m0, p + 1, s.live[p])
    ensures CommonPrefix(Slice(m0, b + 1, s.live[b]), Slice(m1, q + 1, s.live[q]))
  {
    hide Represents, Inv, CommonPrefix, Slice;
    hide Memory.CopyAscending;
    Bounds(m0, s, base);
    CopiedCells(m0, m1, q + 1, b + 1, s.live[b]);
    PayloadWrites(m0, m1, s, base, q);
    CopiedPrefix(m0, m1, q + 1, b + 1, s.live[b], s.live[q]);
  }

  lemma {:induction false} CopiedPrefix(m0: seq<Granule>, m1: seq<Granule>, dst: nat, src: nat, n: nat, len: nat)
    requires |m1| == |m0| && src + n <= |m0| && dst + len <= |m0| && n <= len
    requires m1[dst..dst + n] == m0[src..src + n]
    ensures CommonPrefix(Slice(m0, src, n), Slice(m1, dst, len))
  {
    var x, y := m0[src..src + n], m1[dst..dst + len];
    assert y[..n] == x;
    forall k | 0 <= k < n ensures x[k] == y[k] {
      assert y[..n][k] == x[k];
    }
  }

  // ---- Growing page by page ----------------------------------------------------------

  /** What the `used` bytes of the k pages from `from` on happen to hold. */
  ghost function FlagsIn(m: seq<Granule>, from: nat, k: nat): (fs: seq<bool>)
    requires from + PAGE_UNITS * k <= |m|
    ensures |fs| == k
  {
    seq(k, j requires 0 <= j < k => m[from + PAGE_UNITS * j].used != 0)
  }

  lemma {:induction false} FreshPagesSnoc(hi: nat, fs: seq<bool>, f: bool)
    ensures FreshPages(hi, fs + [f]) == FreshPages(hi, fs) + FreshPages(hi + PAGE_UNITS * |fs|, [f])
  {
    FreshPagesTile(hi, fs + [f]);
    FreshPagesTile(hi, fs);
    FreshPagesTile(hi + PAGE_UNITS * |fs|, [f]);
  }

  lemma {:induction false} ExpandRepresents(m0: seq<Granule>, m1: seq<Granule>, s: State, base: nat)
    requires Represents(m0, s, base) && s.hi + PAGE_UNITS <= |m0| && base + ALIGNMENT * s.hi < WORD
    requires ExpandWrites(m0, m1, s.blocks[|s.blocks| - 1].at, s.hi, base + ALIGNMENT * s.hi)
    ensures var t := Extend(s, [m0[s.hi].used != 0]);
      && Represents(m1, t, base) && t.blocks != [] && LastAddr(t.blocks, base) == base + ALIGNMENT * s.hi
      && t.hi == s.hi + PAGE_UNITS && t.live == s.live
    ensures Kept(m0, m1, s.blocks)
  {
    ExpandHeaders(m0, m1, s, base);
    ExpandKept(m0, m1, s.blocks, s.hi, base + ALIGNMENT * s.hi);
    ExtendInv(s, [m0[s.hi].used != 0]);
    OnePage(s.hi, m0[s.hi].used != 0);
  }

  lemma {:induction false} GrownSoFar(s: State, fs: seq<bool>, i: nat)
    requires i <= |fs|
    ensures var t := Extend(s, fs[..i]);
      t.hi == s.hi + PAGE_UNITS * i && t.live == s.live && forall b :: b in s.blocks ==> b in t.blocks
  {
  }

  lemma {:induction false} GrowStep(s: State, t: State, m0: seq<Granule>, flag: bool, k: nat, i: nat)
    requires i < k && s.hi + PAGE_UNITS * k <= |m0|
    requires t == Extend(s, FlagsIn(m0, s.hi, k)[..i])
    requires flag <==> m0[s.hi + PAGE_UNITS * i].used != 0
    ensures Extend(t, [flag]) == Extend(s, FlagsIn(m0, s.hi, k)[..i + 1])
  {
    var flags := FlagsIn(m0, s.hi, k);
    assert flags[..i + 1] == flags[..i] + [flags[i]];
    ExtendSnoc(s, flags[..i], flags[i]);
  }

  lemma {:induction false} OnePage(hi: nat, flag: bool)
    ensures FreshPages(hi, [flag]) == [Block(hi, PAGE_UNITS - 1, flag)]
  {
    assert [flag][1..] == [];
  }

  lemma {:induction false} ExtendNone(s: State, fs: seq<bool>)
    ensures Extend(s, fs[..0]) == s
  {
  }

  lemma {:induction false} ExtendSnoc(s: State, fs: seq<bool>, f: bool)
    ensures Extend(Extend(s, fs), [f]) == Extend(s, fs + [f])
  {
    FreshPagesSnoc(s.hi, fs, f);
  }
}

/** kmalloc, kfree and krealloc as transitions between block lists, and what holds in every
    reachable state. The class in Heap.dfy is proved to take exactly these transitions. */
module HeapOps {
  import opened Words
  import opened HeapBlocks
  import opened HeapCoalesce

  /** `live` maps each position handed out by kmalloc or krealloc to its payload length. */
  datatype State = State(blocks: seq<Block>, hi: nat, live: map<nat, nat>)

  ghost predicate Inv(s: State) {
    && s.blocks != [] && Tiles(s.blocks, 0, s.hi) && s.hi % PAGE_UNITS == 0
    && forall p :: p in s.live ==> Block(p, s.live[p], true) in s.blocks
  }

  /** The size a request is rounded to, in 32-bit arithmetic. */
  function RoundUp(n: Word): Word {
    var x := (n + ALIGNMENT - 1) % WORD;
    x - x % ALIGNMENT
  }

  function Need(n: Word): nat { RoundUp(n) / ALIGNMENT }

  /** Pages heap_expand asks for. */
  function PagesFor(size: Word): nat {
    var required := (size + HEADER_BYTES) % WORD;
    (required + EXPAND_BYTES - 1) % WORD / EXPAND_BYTES
  }

  /** Pages asked for when kmalloc found no block for the rounded size. */
  function PagesWanted(size: Word): nat { PagesFor((size + HEADER_BYTES) % WORD) }

  /** Index of the first free block with at least `need` payload granules, or |bs|. */
  function FirstFit(bs: seq<Block>, need: nat): (i: nat)
    ensures i <= |bs|
    ensures i < |bs| ==> bs[i].Fits(need)
    ensures forall j :: 0 <= j < i ==> !bs[j].Fits(need)
  {
    if bs == [] || bs[0].Fits(need) then 0 else 1 + FirstFit(bs[1..], need)
  }

  /** Index of the block whose header is at p, or |bs|. */
  function IndexAt(bs: seq<Block>, p: nat): (i: nat)
    ensures i <= |bs|
    ensures i < |bs| ==> bs[i].at == p
    ensures forall j :: 0 <= j < i ==> bs[j].at != p
  {
    if bs == [] || bs[0].at == p then 0 else 1 + IndexAt(bs[1..], p)
  }

  /** The blocks made of pages appended at hi; flags are what their used bytes happen to hold. */
  function FreshPages(hi: nat, flags: seq<bool>): seq<Block>
    decreases |flags|
  {
    if flags == [] then []
    else [Block(hi, PAGE_UNITS - 1, flags[0])] + FreshPages(hi + PAGE_UNITS, flags[1..])
  }

  function Split(bs: seq<Block>, i: nat, need: nat): seq<Block>
    requires i < |bs| && bs[i].units >= need + 2
  {
    Replace(bs, i, 1, [Block(bs[i].at, need, bs[i].used),
                       Block(bs[i].at + 1 + need, bs[i].units - need - 1, false)])
  }

  function SplitIfRoomy(bs: seq<Block>, i: nat, need: nat): seq<Block>
    requires i < |bs|
  {
    if bs[i].units >= need + 2 then Split(bs, i, need) else bs
  }

  /** split_block on a state: a live block shrinks to what stays in front. */
  function SplitState(s: State, i: nat, need: nat): State
    requires i < |s.blocks| && s.blocks[i].units >= need + 2
  {
    var at := s.blocks[i].at;
    State(Split(s.blocks, i, need), s.hi, if at in s.live then s.live[at := need] else s.live)
  }

  function Mark(bs: seq<Block>, i: nat, used: bool): seq<Block>
    requires i < |bs|
  {
    Replace(bs, i, 1, [bs[i].(used := used)])
  }

  function Extend(s: State, flags: seq<bool>): State {
    State(s.blocks + FreshPages(s.hi, flags), s.hi + PAGE_UNITS * |flags|, s.live)
  }

  /** What the page source hands over of `flags`: no more than was asked for. */
  function Granted(flags: seq<bool>, wanted: nat): seq<bool> {
    if |flags| <= wanted then flags else flags[..wanted]
  }

  /** The heap kmalloc searches last: as it was if a block fits, else with the granted pages. */
  function Grown(s: State, n: Word, flags: seq<bool>): State {
    if FirstFit(s.blocks, Need(n)) < |s.blocks| then s
    else Extend(s, Granted(flags, PagesWanted(RoundUp(n))))
  }

  /** Hand out block i, split if it is roomy. */
  function Carve(g: State, i: nat, need: nat): State
    requires i < |g.blocks|
  {
    var bs := Mark(SplitIfRoomy(g.blocks, i, need), i, true);
    State(bs, g.hi, g.live[bs[i].at := bs[i].units])
  }

  function Place(g: State, need: nat): (State, Option<nat>) {
    var i := FirstFit(g.blocks, need);
    if i == |g.blocks| then (g, None) else (Carve(g, i, need), Some(g.blocks[i].at))
  }

  function Malloc(s: State, n: Word, flags: seq<bool>): (State, Option<nat>) {
    if n == 0 then (s, None) else Place(Grown(s, n, flags), Need(n))
  }

  function Free(s: State, p: nat): State {
    var i := IndexAt(s.blocks, p);
    if i == |s.blocks| then s
    else State(Coalesce(Mark(s.blocks, i, false)), s.hi, s.live - {p})
  }

  /** p lies in the payload of a free block. */
  ghost predicate InFree(bs: seq<Block>, p: nat) {
    exists b :: b in bs && !b.used && b.at < p < b.End()
  }

  /** kfree where the magic is found but no block: a header that a merge left behind. */
  function FreeStale(s: State): State { s.(blocks := Coalesce(s.blocks)) }

  function Realloc(s: State, p: nat, n: Word, flags: seq<bool>): (State, Option<nat>) {
    if n == 0 then (Free(s, p), None) else
    var i := IndexAt(s.blocks, p);
    if i == |s.blocks| then (s, None)
    else if s.blocks[i].units >= Need(n) then
      var bs := SplitIfRoomy(s.blocks, i, Need(n));
      (State(bs, s.hi, s.live[p := bs[i].units]), Some(p))
    else
      var (s', q) := Malloc(s, RoundUp(n), flags);
      if q.None? then (s', None) else (Free(s', p), q)
  }

  // ---- Each transition keeps the invariant -------------------------------------------

  lemma {:induction false} IndexAtBlock(bs: seq<Block>, hi: nat, b: Block)
    requires Tiles(bs, 0, hi) && b in bs
    ensures IndexAt(bs, b.at) < |bs| && bs[IndexAt(bs, b.at)] == b
  {
    TilesIndex(bs, 0, hi);
    var j :| 0 <= j < |bs| && bs[j] == b;
    var i := IndexAt(bs, b.at);
    if i < j { assert false; }
  }

  lemma {:induction false} SameAt(bs: seq<Block>, hi: nat, b: Block, i: nat)
    requires Tiles(bs, 0, hi) && b in bs && i < |bs| && b.at == bs[i].at
    ensures b == bs[i]
  {
    IndexAtBlock(bs, hi, b);
    IndexAtBlock(bs, hi, bs[i]);
  }

  /** Every block but the i-th is still there. */
  lemma {:induction false} KeepsOthers(bs: seq<Block>, i: nat, mid: seq<Block>)
    requires i < |bs|
    ensures forall b :: b in bs && b != bs[i] ==> b in Replace(bs, i, 1, mid)
  {
    assert bs == bs[..i] + [bs[i]] + bs[i + 1..];
  }

  lemma {:induction false} FreshPagesTile(hi: nat, flags: seq<bool>)
    ensures Tiles(FreshPages(hi, flags), hi, hi + PAGE_UNITS * |flags|)
    ensures |FreshPages(hi, flags)| == |flags|
    ensures forall k :: 0 <= k < |flags| ==>
      FreshPages(hi, flags)[k] == Block(hi + PAGE_UNITS * k, PAGE_UNITS - 1, flags[k])
    decreases |flags|
  {
    if flags != [] {
      FreshPagesTile(hi + PAGE_UNITS, flags[1..]);
    }
  }

  lemma {:induction false} ExtendInv(s: State, flags: seq<bool>)
    requires Inv(s)
    ensures Inv(Extend(s, flags))
  {
    FreshPagesTile(s.hi, flags);
    TilesJoin(s.blocks, FreshPages(s.hi, flags), 0, s.hi, s.hi + PAGE_UNITS * |flags|);
  }

  lemma {:induction false} SplitTiles(bs: seq<Block>, hi: nat, i: nat, need: nat)
    requires Tiles(bs, 0, hi) && i < |bs| && bs[i].units >= need + 2
    ensures var r := Split(bs, i, need);
      && Tiles(r, 0, hi) && |r| == |bs| + 1
      && r[i] == Block(bs[i].at, need, bs[i].used)
      && r[i + 1] == Block(bs[i].at + 1 + need, bs[i].units - need - 1, false)
  {
    var mid := [Block(bs[i].at, need, bs[i].used), Block(bs[i].at + 1 + need, bs[i].units - need - 1, false)];
    assert mid[1..] == [mid[1]] && mid[1..][1..] == [];
    ReplaceTiles(bs, 0, hi, i, 1, mid);
  }

  lemma {:induction false} MarkTiles(bs: seq<Block>, hi: nat, i: nat, used: bool)
    requires Tiles(bs, 0, hi) && i < |bs|
    ensures var r := Mark(bs, i, used);
      Tiles(r, 0, hi) && |r| == |bs| && r[i] == bs[i].(used := used)
  {
    assert [bs[i].(used := used)][1..] == [];
    ReplaceTiles(bs, 0, hi, i, 1, [bs[i].(used := used)]);
  }

  /** Splitting block i if it is roomy, then giving it the flag `used`. */
  lemma {:induction false} CarveInv(bs: seq<Block>, hi: nat, i: nat, need: nat, used: bool)
    requires Tiles(bs, 0, hi) && i < |bs|
    ensures var r := SplitIfRoomy(bs, i, need);
      && i < |r| && r[i].at == bs[i].at && r[i].used == bs[i].used
      && Tiles(r, 0, hi) && Tiles(Mark(r, i, used), 0, hi)
      && Mark(r, i, used)[i] == r[i].(used := used)
      && (bs[i].units >= need ==> r[i].units == need || r[i].units == need + 1)
  {
    if bs[i].units >= need + 2 {
      SplitTiles(bs, hi, i, need);
    }
    MarkTiles(SplitIfRoomy(bs, i, need), hi, i, used);
  }

  lemma {:induction false} CarveKeeps(bs: seq<Block>, hi: nat, i: nat, need: nat, used: bool)
    requires Tiles(bs, 0, hi) && i < |bs|
    ensures forall b :: b in bs && b != bs[i] ==> b in SplitIfRoomy(bs, i, need)
    ensures i < |SplitIfRoomy(bs, i, need)|
    ensures forall b :: b in bs && b != bs[i] ==> b in Mark(SplitIfRoomy(bs, i, need), i, used)
  {
    var r := SplitIfRoomy(bs, i, need);
    CarveInv(bs, hi, i, need, used);
    if bs[i].units >= need + 2 {
      KeepsOthers(bs, i, [Block(bs[i].at, need, bs[i].used), Block(bs[i].at + 1 + need, bs[i].units - need - 1, false)]);
    }
    KeepsOthers(r, i, [r[i].(used := used)]);
    forall b | b in bs && b != bs[i] ensures b != r[i] {
      if b.at == bs[i].at { SameAt(bs, hi, b, i); }
    }
  }

  lemma {:induction false} SplitInv(s: State, i: nat, need: nat)
    requires Inv(s) && i < |s.blocks| && s.blocks[i].units >= need + 2
    ensures Inv(SplitState(s, i, need))
  {
    SplitTiles(s.blocks, s.hi, i, need);
    CarveKeeps(s.blocks, s.hi, i, need, true);
    var b, r := s.blocks[i], SplitState(s, i, need);
    forall q | q in r.live ensures Block(q, r.live[q], true) in r.blocks {
      if q == b.at {
        SameAt(s.blocks, s.hi, Block(q, s.live[q], true), i);
        assert r.blocks[i] == Block(q, need, true);
      }
    }
  }

  /** Carving a free block makes it live and leaves every other block that is used in place. */
  lemma {:induction false} CarveState(g: State, i: nat, need: nat)
    requires Inv(g) && i < |g.blocks| && g.blocks[i].Fits(need)
    ensures var s := Carve(g, i, need); var p := g.blocks[i].at;
      && Inv(s) && p !in g.live && p in s.live
      && s.live == g.live[p := s.live[p]] && s.live[p] in {need, need + 1}
      && s.blocks == Mark(SplitIfRoomy(g.blocks, i, need), i, true)
      && i < |s.blocks| && s.blocks[i] == Block(p, s.live[p], true)
  {
    CarveInv(g.blocks, g.hi, i, need, true);
    CarveKeeps(g.blocks, g.hi, i, need, true);
    var p := g.blocks[i].at;
    var s := Carve(g, i, need);
    if p in g.live { SameAt(g.blocks, g.hi, Block(p, g.live[p], true), i); }
    forall q | q in s.live ensures Block(q, s.live[q], true) in s.blocks {
      if q == p { assert s.blocks[i] in s.blocks; }
    }
  }

  lemma {:induction false} PlaceAt(g: State, need: nat)
    ensures var i := FirstFit(g.blocks, need);
      Place(g, need) == if i == |g.blocks| then (g, None) else (Carve(g, i, need), Some(g.blocks[i].at))
  {
  }

  lemma {:induction false} PlaceInv(g: State, need: nat)
    requires Inv(g)
    ensures Inv(Place(g, need).0)
    ensures Place(g, need).1.Some? ==> Place(g, need).1.value !in g.live
    ensures forall p :: p in g.live ==> p in Place(g, need).0.live && Place(g, need).0.live[p] == g.live[p]
  {
    var i := FirstFit(g.blocks, need);
    if i < |g.blocks| {
      CarveState(g, i, need);
    }
  }

  lemma {:induction false} GrownInv(s: State, n: Word, flags: seq<bool>)
    requires Inv(s)
    ensures Inv(Grown(s, n, flags)) && Grown(s, n, flags).live == s.live
  {
    ExtendInv(s, Granted(flags, PagesWanted(RoundUp(n))));
  }

  lemma {:induction false} GrownKeeps(s: State, n: Word, flags: seq<bool>)
    ensures forall b :: b in s.blocks ==> b in Grown(s, n, flags).blocks
  {
  }

  lemma {:induction false} MallocInv(s: State, n: Word, flags: seq<bool>)
    requires Inv(s)
    ensures Inv(Malloc(s, n, flags).0)
    ensures Malloc(s, n, flags).1.Some? ==> Malloc(s, n, flags).1.value !in s.live
    ensures forall p :: p in s.live ==> p in Malloc(s, n, flags).0.live && Malloc(s, n, flags).0.live[p] == s.live[p]
  {
    GrownInv(s, n, flags);
    PlaceInv(Grown(s, n, flags), Need(n));
  }

  lemma {:induction false} MallocNothing(s: State, flags: seq<bool>)
    ensures Malloc(s, 0, flags) == (s, None)
  {
  }

  /** The heap between kfree's flag write and its merge. */
  function Unmark(s: State, i: nat): State
    requires i < |s.blocks|
  {
    State(Mark(s.blocks, i, false), s.hi, s.live - {s.blocks[i].at})
  }

  lemma {:induction false} UnmarkInv(s: State, i: nat)
    requires Inv(s) && i < |s.blocks|
    ensures Inv(Unmark(s, i))
    ensures forall b :: b in Mark(s.blocks, i, false) && b.used ==> b in s.blocks
  {
    MarkTiles(s.blocks, s.hi, i, false);
    KeepsOthers(s.blocks, i, [s.blocks[i].(used := false)]);
  }

  /** The same wherever the flag is that kfree clears: a block's, or one in a free block. */
  function Cleared(s: State, p: nat): State {
    var i := IndexAt(s.blocks, p);
    if i < |s.blocks| then Unmark(s, i) else s
  }

  lemma {:induction false} ClearedIs(s: State, p: nat)
    ensures var t := Cleared(s, p);
      t.(blocks := Coalesce(t.blocks)) ==
      if IndexAt(s.blocks, p) < |s.blocks| then Free(s, p) else FreeStale(s)
    ensures Cleared(s, p).live == if IndexAt(s.blocks, p) < |s.blocks| then s.live - {p} else s.live
  {
  }

  lemma {:induction false} CoalesceInv(s: State)
    requires Inv(s)
    ensures Inv(s.(blocks := Coalesce(s.blocks))) && Coalesced(Coalesce(s.blocks))
  {
    CoalesceProperties(s.blocks, 0, s.hi);
    forall q | q in s.live ensures Block(q, s.live[q], true) in Coalesce(s.blocks) {
      UsedMember(s.blocks, Block(q, s.live[q], true));
      UsedMember(Coalesce(s.blocks), Block(q, s.live[q], true));
    }
  }

  lemma {:induction false} FreeInv(s: State, p: nat)
    requires Inv(s)
    ensures Inv(Free(s, p))
    ensures IndexAt(s.blocks, p) < |s.blocks| ==> Coalesced(Free(s, p).blocks)
  {
    var i := IndexAt(s.blocks, p);
    if i < |s.blocks| {
      UnmarkInv(s, i);
      CoalesceInv(Unmark(s, i));
    }
  }

  lemma {:induction false} ReallocInv(s: State, p: nat, n: Word, flags: seq<bool>)
    requires Inv(s) && p in s.live
    ensures Inv(Realloc(s, p, n, flags).0)
  {
    FreeInv(s, p);
    var i := IndexAt(s.blocks, p);
    IndexAtBlock(s.blocks, s.hi, Block(p, s.live[p], true));
    CarveInv(s.blocks, s.hi, i, Need(n), true);
    CarveKeeps(s.blocks, s.hi, i, Need(n), true);
    MallocInv(s, RoundUp(n), flags);
    FreeInv(Malloc(s, RoundUp(n), flags).0, p);
    if n != 0 && s.blocks[i].units >= Need(n) {
      var bs := SplitIfRoomy(s.blocks, i, Need(n));
      forall q | q in s.live && q != p ensures Block(q, s.live[q], true) in bs {}
      assert bs[i] == Block(p, bs[i].units, true);
    }
  }

  lemma {:induction false} ReallocNothing(s: State, p: nat, flags: seq<bool>)
    ensures Realloc(s, p, 0, flags) == (Free(s, p), None)
    ensures IndexAt(s.blocks, p) == |s.blocks| ==> Free(s, p) == s
  {
  }

  lemma {:induction false} ReallocMissing(s: State, p: nat, n: Word, flags: seq<bool>)
    requires IndexAt(s.blocks, p) == |s.blocks| && n > 0
    ensures Realloc(s, p, n, flags) == (s, None)
  {
  }

  lemma {:induction false} ReallocLive(s: State, p: nat, n: Word, flags: seq<bool>)
    requires Inv(s) && p in s.live && n > 0
    ensures var i := IndexAt(s.blocks, p);
      && i < |s.blocks| && s.blocks[i] == Block(p, s.live[p], true)
      && i < |SplitIfRoomy(s.blocks, i, Need(n))|
      && Realloc(s, p, n, flags) ==
         if s.live[p] >= Need(n) then
           var bs := SplitIfRoomy(s.blocks, i, Need(n));
           (State(bs, s.hi, s.live[p := bs[i].units]), Some(p))
         else
           var (t, q) := Malloc(s, RoundUp(n), flags);
           if q.None? then (t, None) else (Free(t, p), q)
  {
    hide SplitIfRoomy, Malloc, Free, RoundUp;
    IndexAtBlock(s.blocks, s.hi, Block(p, s.live[p], true));
    CarveInv(s.blocks, s.hi, IndexAt(s.blocks, p), Need(n), true);
  }

  // ---- Runs --------------------------------------------------------------------------

  datatype Op = DoMalloc(n: Word, flags: seq<bool>) | DoFree(p: nat) | DoRealloc(p: nat, n: Word, flags: seq<bool>)

  /** A client only frees or resizes what it holds. */
  predicate Enabled(s: State, op: Op) { op.DoMalloc? || op.p in s.live }

  function Step(s: State, op: Op): State
    requires Enabled(s, op)
  {
    match op
    case DoMalloc(n, flags) => Malloc(s, n, flags).0
    case DoFree(p) => Free(s, p)
    case DoRealloc(p, n, flags) => Realloc(s, p, n, flags).0
  }

  predicate Runnable(s: State, ops: seq<Op>)
    decreases |ops|
  {
    ops == [] || (Enabled(s, ops[0]) && Runnable(Step(s, ops[0]), ops[1..]))
  }

  function Run(s: State, ops: seq<Op>): State
    requires Runnable(s, ops)
    decreases |ops|
  {
    if ops == [] then s else Run(Step(s, ops[0]), ops[1..])
  }

  /** heap_init's heap: one page, one free block. */
  const START := State([Block(0, PAGE_UNITS - 1, false)], PAGE_UNITS, map[])

  lemma {:induction false} StepInv(s: State, op: Op)
    requires Inv(s) && Enabled(s, op)
    ensures Inv(Step(s, op))
  {
    match op
    case DoMalloc(n, flags) => MallocInv(s, n, flags);
    case DoFree(p) => FreeInv(s, p);
    case DoRealloc(p, n, flags) => ReallocInv(s, p, n, flags);
  }

  lemma {:induction false} RunInv(s: State, ops: seq<Op>)
    requires Inv(s) && Runnable(s, ops)
    ensures Inv(Run(s, ops))
    decreases |ops|
  {
    if ops != [] {
      StepInv(s, ops[0]);
      RunInv(Step(s, ops[0]), ops[1..]);
    }
  }

  lemma {:induction false} StartInv()
    ensures Inv(START)
  {
    assert START.blocks[1..] == [];
  }
}

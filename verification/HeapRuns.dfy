/** What holds of the heap of kernel/mm/heap.c over whole runs of kmalloc, kfree and krealloc. */
module HeapRuns {
  import opened Words
  import opened HeapBlocks
  import opened HeapCoalesce
  import opened HeapOps
  import opened HeapTheorems

  // ---- Sizes of blocks ---------------------------------------------------------------

  ghost predicate Positive(bs: seq<Block>) {
    forall b :: b in bs ==> b.units > 0
  }

  lemma {:induction false} ReplaceMembers(bs: seq<Block>, i: nat, mid: seq<Block>, b: Block)
    requires i < |bs|
    ensures b in Replace(bs, i, 1, mid) <==> b in bs[..i] || b in mid || b in bs[i + 1..]
    ensures b in bs <==> b in bs[..i] || b == bs[i] || b in bs[i + 1..]
  {
    assert bs == bs[..i] + [bs[i]] + bs[i + 1..];
  }

  /** Taking block i makes a block of no bytes exactly when it is split at zero. */
  lemma {:induction false} CarvePositive(bs: seq<Block>, i: nat, need: nat, used: bool)
    requires Positive(bs) && i < |bs| && bs[i].units >= need
    ensures i < |SplitIfRoomy(bs, i, need)|
    ensures Positive(SplitIfRoomy(bs, i, need)) <==> need > 0 || bs[i].units < 2
    ensures Positive(Mark(SplitIfRoomy(bs, i, need), i, used)) <==> need > 0 || bs[i].units < 2
  {
    var t := SplitIfRoomy(bs, i, need);
    if bs[i].units >= need + 2 {
      var head, rest := Block(bs[i].at, need, bs[i].used), Block(bs[i].at + 1 + need, bs[i].units - need - 1, false);
      forall b ensures b in t <==> b in bs[..i] || b in [head, rest] || b in bs[i + 1..] {
        ReplaceMembers(bs, i, [head, rest], b);
      }
      assert head in t && rest in t && t[i] == head;
    }
    MarkPositive(t, i, used);
  }

  lemma {:induction false} MarkPositive(bs: seq<Block>, i: nat, used: bool)
    requires i < |bs|
    ensures Positive(Mark(bs, i, used)) <==> Positive(bs)
  {
    var m := bs[i].(used := used);
    var r := Mark(bs, i, used);
    forall b ensures b in r <==> b in bs[..i] || b == m || b in bs[i + 1..] {
      ReplaceMembers(bs, i, [m], b);
    }
    forall b ensures b in bs <==> b in bs[..i] || b == bs[i] || b in bs[i + 1..] {
      ReplaceMembers(bs, i, [m], b);
    }
    assert m in r && bs[i] in bs;
  }

  lemma {:induction false} CoalescePositive(bs: seq<Block>)
    requires Positive(bs)
    ensures Positive(Coalesce(bs))
  {
    if |bs| > 1 {
      CoalescePositive(bs[1..]);
    }
  }

  lemma {:induction false} GrownPositive(s: State, n: Word, flags: seq<bool>)
    requires Positive(s.blocks)
    ensures Positive(Grown(s, n, flags).blocks)
  {
    FreshPagesTile(s.hi, Granted(flags, PagesWanted(RoundUp(n))));
  }

  /** The block kmalloc would take is too short to be split for a request of no bytes. */
  ghost predicate TakesTiny(g: State, need: nat) {
    var i := FirstFit(g.blocks, need);
    i < |g.blocks| ==> g.blocks[i].units < 2
  }

  /** All blocks keep at least 16 bytes exactly when the size does not wrap, or kmalloc fails, or
      the block it takes is too short to split. */
  lemma {:induction false} MallocPositive(s: State, n: Word, flags: seq<bool>)
    requires Inv(s) && Positive(s.blocks) && n > 0
    ensures Positive(Malloc(s, n, flags).0.blocks) <==> n <= WORD - 16 || TakesTiny(Grown(s, n, flags), 0)
  {
    hide RoundUp, Grown, Positive;
    var g := Grown(s, n, flags);
    var i := FirstFit(g.blocks, Need(n));
    GrownPositive(s, n, flags);
    NeedPositive(n);
    if i < |g.blocks| {
      CarvePositive(g.blocks, i, Need(n), true);
    }
  }

  lemma {:induction false} NeedPositive(n: Word)
    requires n > 0
    ensures Need(n) > 0 <==> n <= WORD - 16
  {
    RoundUpExact(n);
  }

  /** For krealloc the same, of the block it is given. */
  lemma {:induction false} ReallocPositive(s: State, p: nat, n: Word, flags: seq<bool>)
    requires Inv(s) && Positive(s.blocks) && p in s.live
    ensures Positive(Realloc(s, p, n, flags).0.blocks) <==> n <= WORD - 16 || s.live[p] < 2
  {
    hide RoundUp, Positive, Malloc;
    var i := IndexAt(s.blocks, p);
    IndexAtBlock(s.blocks, s.hi, Block(p, s.live[p], true));
    if n == 0 {
      FreePositive(s, p);
    } else {
      NeedPositive(n);
      if s.live[p] >= Need(n) {
        CarvePositive(s.blocks, i, Need(n), true);
      } else {
        RoundUpTwice(n);
        RoundUpExact(n);
        MallocPositive(s, RoundUp(n), flags);
        FreePositive(Malloc(s, RoundUp(n), flags).0, p);
      }
    }
  }

  lemma {:induction false} FreePositive(s: State, p: nat)
    requires Positive(s.blocks)
    ensures Positive(Free(s, p).blocks)
  {
    hide Positive;
    var i := IndexAt(s.blocks, p);
    if i < |s.blocks| {
      MarkPositive(s.blocks, i, false);
      CoalescePositive(Mark(s.blocks, i, false));
    }
  }

  predicate Unwrapped(op: Op) { op.DoFree? || op.n <= WORD - 16 }

  /** In every run whose requests do not wrap every block holds at least 16 bytes. */
  lemma {:induction false} RunPositive(s: State, ops: seq<Op>)
    requires Inv(s) && Runnable(s, ops) && Positive(s.blocks)
    requires forall k :: 0 <= k < |ops| ==> Unwrapped(ops[k])
    ensures Positive(Run(s, ops).blocks)
    decreases |ops|
  {
    hide Inv, Positive, Malloc, Free, Realloc;
    if ops != [] {
      StepInv(s, ops[0]);
      StepPositive(s, ops[0]);
      RunPositive(Step(s, ops[0]), ops[1..]);
    }
  }

  lemma {:induction false} StepPositive(s: State, op: Op)
    requires Inv(s) && Enabled(s, op) && Positive(s.blocks) && Unwrapped(op)
    ensures Positive(Step(s, op).blocks)
  {
    hide Inv, Positive, Malloc, Free, Realloc;
    match op
    case DoMalloc(n, flags) => if n > 0 { MallocPositive(s, n, flags); } else { MallocNothing(s, flags); }
    case DoFree(p) => FreePositive(s, p);
    case DoRealloc(p, n, flags) => ReallocPositive(s, p, n, flags);
  }

  // ---- Leaks -------------------------------------------------------------------------

  /** Every used block is one a client holds. */
  ghost predicate UsedAreLive(s: State) {
    forall b :: b in s.blocks && b.used ==> b.at in s.live
  }

  predicate AllZero(flags: seq<bool>) { true !in flags }

  /** The `used` bytes of the pages that kmalloc links. */
  function Linked(s: State, n: Word, flags: seq<bool>): seq<bool> {
    if FirstFit(s.blocks, Need(n)) < |s.blocks| then [] else Granted(flags, PagesWanted(RoundUp(n)))
  }

  /** The same for a whole operation. */
  function LinkedBy(s: State, op: Op): seq<bool> {
    match op
    case DoMalloc(n, flags) => if n == 0 then [] else Linked(s, n, flags)
    case DoFree(p) => []
    case DoRealloc(p, n, flags) =>
      var i := IndexAt(s.blocks, p);
      if n == 0 || i == |s.blocks| || s.blocks[i].units >= Need(n) then [] else Linked(s, RoundUp(n), flags)
  }

  /** Every page linked during the run reads zero where its `used` byte goes. */
  predicate ZeroPages(s: State, ops: seq<Op>)
    requires Runnable(s, ops)
    decreases |ops|
  {
    ops == [] || (AllZero(LinkedBy(s, ops[0])) && ZeroPages(Step(s, ops[0]), ops[1..]))
  }

  lemma {:induction false} GrownLeaks(s: State, n: Word, flags: seq<bool>)
    requires Inv(s)
    ensures UsedAreLive(Grown(s, n, flags)) <==> UsedAreLive(s) && AllZero(Linked(s, n, flags))
  {
    if FirstFit(s.blocks, Need(n)) == |s.blocks| {
      ExtendLeaks(s, Linked(s, n, flags));
    }
  }

  /** A page that arrives with a used byte is held by nobody. */
  lemma {:induction false} ExtendLeaks(s: State, fs: seq<bool>)
    requires Inv(s)
    ensures UsedAreLive(Extend(s, fs)) <==> UsedAreLive(s) && AllZero(fs)
  {
    hide Tiles;
    var pages := FreshPages(s.hi, fs);
    FreshPagesTile(s.hi, fs);
    var t := Extend(s, fs);
    forall k | 0 <= k < |fs| ensures pages[k] in t.blocks && pages[k].at !in s.live && pages[k].used == fs[k] {
      assert t.blocks[|s.blocks| + k] == pages[k];
      if pages[k].at in s.live { LiveBelow(s, pages[k].at); }
    }
    if UsedAreLive(t) {
      assert forall b :: b in s.blocks ==> b in t.blocks;
      assert forall k :: 0 <= k < |fs| ==> !fs[k];
    }
    if UsedAreLive(s) && AllZero(fs) {
      assert forall k :: 0 <= k < |fs| ==> fs[k] in fs;
      assert forall b :: b in pages ==> !b.used;
    }
  }

  lemma {:induction false} LiveBelow(s: State, p: nat)
    requires Inv(s) && p in s.live
    ensures p < s.hi
  {
    LiveSeparate(s, p, p, s.blocks[0]);
  }

  lemma {:induction false} CarveMembers(bs: seq<Block>, i: nat, need: nat, used: bool, b: Block)
    requires i < |bs| && i < |SplitIfRoomy(bs, i, need)|
    requires b in SplitIfRoomy(bs, i, need) || b in Mark(SplitIfRoomy(bs, i, need), i, used)
    ensures b in bs || b.at == bs[i].at || !b.used
  {
    var t := SplitIfRoomy(bs, i, need);
    ReplaceMembers(t, i, [t[i].(used := used)], b);
    if bs[i].units >= need + 2 {
      var head, rest := Block(bs[i].at, need, bs[i].used), Block(bs[i].at + 1 + need, bs[i].units - need - 1, false);
      ReplaceMembers(bs, i, [head, rest], b);
      assert t[i] == head;
    }
  }

  /** Cutting block p, and giving it the flag of a held block, neither makes nor mends a leak. */
  lemma {:induction false} CarveLeaks(s: State, i: nat, need: nat, live: map<nat, nat>)
    requires Inv(s) && i < |s.blocks| && i < |SplitIfRoomy(s.blocks, i, need)|
    requires live.Keys == s.live.Keys + {s.blocks[i].at} && (s.blocks[i].used ==> s.blocks[i].at in s.live)
    ensures UsedAreLive(s) <==> UsedAreLive(State(Mark(SplitIfRoomy(s.blocks, i, need), i, true), s.hi, live))
    ensures s.blocks[i].used ==>
      (UsedAreLive(s) <==> UsedAreLive(State(SplitIfRoomy(s.blocks, i, need), s.hi, live)))
  {
    hide Mark, SplitIfRoomy, Inv;
    var bs := s.blocks;
    var t, m := SplitIfRoomy(bs, i, need), Mark(SplitIfRoomy(bs, i, need), i, true);
    Parts(s);
    CarveKeeps(bs, s.hi, i, need, true);
    forall b | b in bs && b.used && b != bs[i] ensures b in t && b in m && (b.at in s.live <==> b.at in live) {
      if b.at == bs[i].at { SameAt(bs, s.hi, b, i); }
    }
    forall b | (b in t || b in m) && b.used ensures b in bs || b.at in live {
      CarveMembers(bs, i, need, true, b);
    }
  }

  lemma {:induction false} Parts(s: State)
    requires Inv(s)
    ensures Tiles(s.blocks, 0, s.hi) && s.blocks != []
    ensures forall p :: p in s.live ==> Block(p, s.live[p], true) in s.blocks
  {
  }

  lemma {:induction false} PlaceLeaks(g: State, need: nat)
    requires Inv(g)
    ensures UsedAreLive(Place(g, need).0) <==> UsedAreLive(g)
  {
    hide UsedAreLive, Mark, SplitIfRoomy;
    var i := FirstFit(g.blocks, need);
    if i < |g.blocks| {
      CarveState(g, i, need);
      CarveInv(g.blocks, g.hi, i, need, true);
      CarveLeaks(g, i, need, Carve(g, i, need).live);
    }
  }

  lemma {:induction false} MallocLeaks(s: State, n: Word, flags: seq<bool>)
    requires Inv(s) && n > 0
    ensures UsedAreLive(Malloc(s, n, flags).0) <==> UsedAreLive(s) && AllZero(Linked(s, n, flags))
  {
    hide UsedAreLive, Grown, Linked, Place;
    GrownInv(s, n, flags);
    GrownLeaks(s, n, flags);
    PlaceLeaks(Grown(s, n, flags), Need(n));
  }

  lemma {:induction false} UnmarkLeaks(s: State, i: nat)
    requires Inv(s) && i < |s.blocks| && s.blocks[i].used && s.blocks[i].at in s.live
    ensures UsedAreLive(Unmark(s, i)) <==> UsedAreLive(s)
  {
    hide Mark, Inv;
    var bs, p := s.blocks, s.blocks[i].at;
    var r := Mark(bs, i, false);
    Parts(s);
    UnmarkInv(s, i);
    MarkTiles(bs, s.hi, i, false);
    forall b | b in bs && b.used && b != bs[i] ensures b in r && b.at != p {
      MarkKeeps(bs, i, b);
      if b.at == p { SameAt(bs, s.hi, b, i); }
    }
    forall b | b in r && b.used ensures b in bs && b.at != p {
      if b.at == p { SameAt(r, s.hi, b, i); }
    }
  }

  lemma {:induction false} MarkKeeps(bs: seq<Block>, i: nat, b: Block)
    requires i < |bs| && b in bs && b != bs[i]
    ensures b in Mark(bs, i, false)
  {
    KeepsOthers(bs, i, [bs[i].(used := false)]);
  }

  lemma {:induction false} CoalesceLeaks(s: State)
    requires Inv(s)
    ensures UsedAreLive(s.(blocks := Coalesce(s.blocks))) <==> UsedAreLive(s)
  {
    hide Coalesce, Inv, Used;
    Parts(s);
    CoalesceProperties(s.blocks, 0, s.hi);
    forall b ensures b in Coalesce(s.blocks) && b.used <==> b in s.blocks && b.used {
      UsedMember(s.blocks, b);
      UsedMember(Coalesce(s.blocks), b);
    }
  }

  lemma {:induction false} FreeLeaks(s: State, p: nat)
    requires Inv(s) && p in s.live
    ensures UsedAreLive(Free(s, p)) <==> UsedAreLive(s)
  {
    hide UsedAreLive, Coalesce, Mark;
    var i := IndexAt(s.blocks, p);
    IndexAtBlock(s.blocks, s.hi, Block(p, s.live[p], true));
    UnmarkInv(s, i);
    UnmarkLeaks(s, i);
    CoalesceLeaks(Unmark(s, i));
  }

  lemma {:induction false} ReallocLeaks(s: State, p: nat, n: Word, flags: seq<bool>)
    requires Inv(s) && p in s.live
    ensures UsedAreLive(Realloc(s, p, n, flags).0) <==> UsedAreLive(s) && AllZero(LinkedBy(s, DoRealloc(p, n, flags)))
  {
    hide UsedAreLive, SplitIfRoomy, Mark, Malloc, Free, RoundUp, Linked;
    var i := IndexAt(s.blocks, p);
    IndexAtBlock(s.blocks, s.hi, Block(p, s.live[p], true));
    if n == 0 {
      FreeLeaks(s, p);
    } else if s.live[p] >= Need(n) {
      CarveInv(s.blocks, s.hi, i, Need(n), true);
      CarveLeaks(s, i, Need(n), s.live[p := SplitIfRoomy(s.blocks, i, Need(n))[i].units]);
    } else {
      RoundUpPositive(s, p, n);
      MallocLeaks(s, RoundUp(n), flags);
      MallocInv(s, RoundUp(n), flags);
      var (t, q) := Malloc(s, RoundUp(n), flags);
      if q.Some? { FreeLeaks(t, p); }
    }
  }

  lemma {:induction false} RoundUpPositive(s: State, p: nat, n: Word)
    requires p in s.live && s.live[p] < Need(n)
    ensures RoundUp(n) > 0
  {
  }

  lemma {:induction false} StepLeaks(s: State, op: Op)
    requires Inv(s) && Enabled(s, op)
    ensures UsedAreLive(Step(s, op)) <==> UsedAreLive(s) && AllZero(LinkedBy(s, op))
  {
    hide UsedAreLive, Malloc, Free, Realloc, Linked, Inv;
    match op
    case DoMalloc(n, flags) => if n > 0 { MallocLeaks(s, n, flags); } else { MallocNothing(s, flags); }
    case DoFree(p) => FreeLeaks(s, p);
    case DoRealloc(p, n, flags) => ReallocLeaks(s, p, n, flags);
  }

  /** In the states a run reaches, every used block is one a client holds, exactly when every
      page that was linked on the way read zero: a page that did not is lost for good. */
  lemma {:induction false} RunUsedAreLive(s: State, ops: seq<Op>)
    requires Inv(s) && Runnable(s, ops)
    ensures Inv(Run(s, ops)) && (UsedAreLive(Run(s, ops)) <==> UsedAreLive(s) && ZeroPages(s, ops))
    decreases |ops|
  {
    hide UsedAreLive, Inv, LinkedBy;
    if ops != [] {
      StepInv(s, ops[0]);
      StepLeaks(s, ops[0]);
      RunUsedAreLive(Step(s, ops[0]), ops[1..]);
    }
  }

  // ---- The empty heap ----------------------------------------------------------------

  /** A heap nobody holds anything of, right after a kfree, is one free block exactly when it has
      no leak. */
  lemma {:induction false} EmptyIsOneBlock(f: State)
    requires Inv(f) && Coalesced(f.blocks) && f.live == map[]
    ensures f.hi > 0
    ensures f.blocks == [Block(0, f.hi - 1, false)] <==> UsedAreLive(f)
  {
    TilesIndex(f.blocks, 0, f.hi);
    var one := [Block(0, f.hi - 1, false)];
    assert one[1..] == [];
    if UsedAreLive(f) {
      NoUsed(f.blocks);
      CanonicalForm(f.blocks, one, 0, f.hi);
    }
  }

  /** Whatever was allocated, grown and resized before, and in whatever order it is freed: when
      the last live block is freed the heap is one free block, all but one header of it,
      exactly when every page that was linked read zero. */
  lemma {:induction false} FreeingAllRestoresOneBlock(ops: seq<Op>, last: nat)
    requires Runnable(START, ops)
    requires Run(START, ops).live.Keys == {last}
    ensures var f := Free(Run(START, ops), last);
      f.hi > 0 && f.live == map[] && (f.blocks == [Block(0, f.hi - 1, false)] <==> ZeroPages(START, ops))
  {
    hide Coalesce, ZeroPages, Inv;
    StartInv();
    var s := Run(START, ops);
    RunUsedAreLive(START, ops);
    Parts(s);
    IndexAtBlock(s.blocks, s.hi, Block(last, s.live[last], true));
    FreeInv(s, last);
    FreeLeaks(s, last);
    EmptyIsOneBlock(Free(s, last));
  }

  // ---- Every reachable state ---------------------------------------------------------

  /** The reachable heap: tiled, its blocks accounted for, its live payloads apart; and if no
      request wrapped, every block holds at least 16 bytes. */
  lemma {:induction false} ReachableHeap(ops: seq<Op>, p: nat, q: nat)
    requires Runnable(START, ops)
    ensures var s := Run(START, ops);
      && Tiles(s.blocks, 0, s.hi)
      && 16 * SumUnits(s.blocks, true) + 16 * SumUnits(s.blocks, false) + HEADER_BYTES * |s.blocks| == 16 * s.hi
      && ((forall k :: 0 <= k < |ops| ==> Unwrapped(ops[k])) ==> Positive(s.blocks))
      && (p in s.live && q in s.live && p != q ==>
            (p + 1 + s.live[p] <= q || q + 1 + s.live[q] <= p) && p + 1 + s.live[p] <= s.hi)
  {
    StartInv();
    RunInv(START, ops);
    var s := Run(START, ops);
    Parts(s);
    Accounting(s.blocks, 0, s.hi);
    if forall k :: 0 <= k < |ops| ==> Unwrapped(ops[k]) {
      RunPositive(START, ops);
    }
    if p in s.live && q in s.live {
      LiveSeparate(s, p, q, s.blocks[0]);
    }
  }
}

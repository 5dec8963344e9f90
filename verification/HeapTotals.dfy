/** What get_allocated_memory and get_free_memory of kernel/mm/heap.c answer, in terms of what
    clients hold, over single calls and whole runs. */
module HeapTotals {
  import opened Words
  import opened HeapBlocks
  import opened HeapCoalesce
  import opened HeapOps
  import opened HeapTheorems
  import opened HeapRuns

  // ---- Sums over block lists ---------------------------------------------------------

  lemma {:induction false} SumConcat(a: seq<Block>, b: seq<Block>, used: bool)
    ensures SumUnits(a + b, used) == SumUnits(a, used) + SumUnits(b, used)
  {
    if a == [] {
      assert a + b == b;
    } else {
      SumConcat(a[1..], b, used);
      assert (a + b)[1..] == a[1..] + b;
    }
  }

  lemma {:induction false} SumOne(b: Block, used: bool)
    ensures SumUnits([b], used) == if b.used == used then b.units else 0
  {
    assert [b][1..] == [];
  }

  /** Used blocks count as used and as nothing else. */
  lemma {:induction false} SumOfUsed(bs: seq<Block>)
    ensures SumUnits(bs, true) == SumUnits(Used(bs), true) && SumUnits(Used(bs), false) == 0
    ensures (forall b :: b in bs ==> b.used) ==> SumUnits(bs, false) == 0
  {
    if bs != [] {
      SumOfUsed(bs[1..]);
      assert bs[0].used ==> Used(bs)[1..] == Used(bs[1..]);
    }
  }

  /** Replacing one block changes the used total by what is used in its place. */
  lemma {:induction false} SumReplace(bs: seq<Block>, i: nat, mid: seq<Block>, used: bool)
    requires i < |bs|
    ensures SumUnits(Replace(bs, i, 1, mid), used) + SumUnits([bs[i]], used) == SumUnits(bs, used) + SumUnits(mid, used)
  {
    hide SumUnits;
    var pre, post := bs[..i], bs[i + 1..];
    SumConcat(pre, mid, used);
    SumConcat(pre + mid, post, used);
    SumConcat(pre, [bs[i]], used);
    SumConcat(pre + [bs[i]], post, used);
    assert bs == pre + [bs[i]] + post;
  }

  lemma {:induction false} MarkSum(bs: seq<Block>, i: nat, used: bool)
    requires i < |bs|
    ensures SumUnits(Mark(bs, i, used), true) + (if bs[i].used then bs[i].units else 0)
         == SumUnits(bs, true) + (if used then bs[i].units else 0)
  {
    var m := bs[i].(used := used);
    SumReplace(bs, i, [m], true);
    SumOne(m, true);
    SumOne(bs[i], true);
  }

  lemma {:induction false} SplitSum(bs: seq<Block>, hi: nat, i: nat, need: nat)
    requires Tiles(bs, 0, hi) && i < |bs|
    ensures i < |SplitIfRoomy(bs, i, need)|
    ensures SumUnits(SplitIfRoomy(bs, i, need), true) + (if bs[i].used then bs[i].units else 0)
         == SumUnits(bs, true) + (if bs[i].used then SplitIfRoomy(bs, i, need)[i].units else 0)
  {
    if bs[i].units >= need + 2 {
      var head, rest := Block(bs[i].at, need, bs[i].used), Block(bs[i].at + 1 + need, bs[i].units - need - 1, false);
      SplitTiles(bs, hi, i, need);
      SumReplace(bs, i, [head, rest], true);
      assert [head, rest] == [head] + [rest];
      SumConcat([head], [rest], true);
      SumOne(head, true);
      SumOne(rest, true);
      SumOne(bs[i], true);
    }
  }

  lemma {:induction false} CoalesceSum(bs: seq<Block>, hi: nat)
    requires Tiles(bs, 0, hi)
    ensures SumUnits(Coalesce(bs), true) == SumUnits(bs, true)
  {
    hide SumUnits, Coalesce;
    CoalesceProperties(bs, 0, hi);
    SumOfUsed(bs);
    SumOfUsed(Coalesce(bs));
  }

  /** How many of the pages arrive with their `used` byte set. */
  function Lost(flags: seq<bool>): nat {
    if flags == [] then 0 else (if flags[0] then 1 else 0) + Lost(flags[1..])
  }

  lemma {:induction false} NoneLost(flags: seq<bool>)
    ensures Lost(flags) == 0 <==> AllZero(flags)
  {
    if flags != [] {
      NoneLost(flags[1..]);
      assert true in flags <==> flags[0] || true in flags[1..];
    }
  }

  lemma {:induction false} FreshSum(hi: nat, flags: seq<bool>)
    ensures SumUnits(FreshPages(hi, flags), true) == (PAGE_UNITS - 1) * Lost(flags)
    decreases |flags|
  {
    if flags != [] {
      FreshSum(hi + PAGE_UNITS, flags[1..]);
    }
  }

  // ---- Single calls ------------------------------------------------------------------

  function Allocated(s: State): nat { SumUnits(s.blocks, true) }

  lemma {:induction false} GrownSum(s: State, n: Word, flags: seq<bool>)
    ensures Allocated(Grown(s, n, flags)) == Allocated(s) + (PAGE_UNITS - 1) * Lost(Linked(s, n, flags))
  {
    hide SumUnits, FreshPages, RoundUp, PagesWanted;
    if FirstFit(s.blocks, Need(n)) == |s.blocks| {
      var fs := Linked(s, n, flags);
      SumConcat(s.blocks, FreshPages(s.hi, fs), true);
      FreshSum(s.hi, fs);
    }
  }

  lemma {:induction false} CarveSum(g: State, i: nat, need: nat)
    requires Inv(g) && i < |g.blocks| && g.blocks[i].Fits(need)
    ensures Allocated(Carve(g, i, need)) == Allocated(g) + Carve(g, i, need).live[g.blocks[i].at]
  {
    hide SumUnits, SplitIfRoomy, Mark, Inv;
    Basics(g);
    SplitSum(g.blocks, g.hi, i, need);
    CarveInv(g.blocks, g.hi, i, need, true);
    MarkSum(SplitIfRoomy(g.blocks, i, need), i, true);
  }

  /** kmalloc raises the allocated total by the length of the block it hands out, and by every
      page that arrives with its `used` byte set. */
  lemma {:induction false} MallocSum(s: State, n: Word, flags: seq<bool>)
    requires Inv(s) && n > 0
    ensures var (s', r) := Malloc(s, n, flags);
      Allocated(s') == Allocated(s) + (PAGE_UNITS - 1) * Lost(Linked(s, n, flags))
        + if r.Some? && r.value in s'.live then s'.live[r.value] else 0
    ensures Malloc(s, n, flags).1.Some? ==> Malloc(s, n, flags).1.value in Malloc(s, n, flags).0.live
  {
    hide SumUnits, Grown, Carve, Linked, Need, Inv, Allocated;
    var g := Grown(s, n, flags);
    GrownInv(s, n, flags);
    GrownSum(s, n, flags);
    PlaceAt(g, Need(n));
    var i := FirstFit(g.blocks, Need(n));
    if i < |g.blocks| {
      CarveSum(g, i, Need(n));
      CarveState(g, i, Need(n));
    }
  }

  /** kfree lowers it by the length of the block it takes back. */
  lemma {:induction false} FreeSum(s: State, p: nat)
    requires Inv(s) && p in s.live
    ensures Allocated(Free(s, p)) + s.live[p] == Allocated(s)
  {
    hide SumUnits, Mark, Coalesce, Inv;
    Basics(s);
    var i := IndexAt(s.blocks, p);
    HeldBlock(s, p);
    MarkTiles(s.blocks, s.hi, i, false);
    MarkSum(s.blocks, i, false);
    CoalesceSum(Mark(s.blocks, i, false), s.hi);
  }

  lemma {:induction false} HeldBlock(s: State, p: nat)
    requires Inv(s) && p in s.live
    ensures var i := IndexAt(s.blocks, p); i < |s.blocks| && s.blocks[i] == Block(p, s.live[p], true)
  {
    IndexAtBlock(s.blocks, s.hi, Block(p, s.live[p], true));
  }

  /** krealloc changes it by the difference of the two lengths. */
  lemma {:induction false} ReallocSum(s: State, p: nat, n: Word, flags: seq<bool>)
    requires Inv(s) && p in s.live && n > 0
    ensures var (s', q) := Realloc(s, p, n, flags);
      && (q.Some? ==> q.value in s'.live)
      && Allocated(s') + (if q.Some? && q.value in s'.live then s.live[p] else 0)
         == Allocated(s) + (PAGE_UNITS - 1) * Lost(LinkedBy(s, DoRealloc(p, n, flags)))
            + if q.Some? && q.value in s'.live then s'.live[q.value] else 0
  {
    hide SumUnits, Malloc, Free, SplitIfRoomy, RoundUp, Need, Linked, Inv, Realloc;
    Basics(s);
    HeldBlock(s, p);
    ReallocLive(s, p, n, flags);
    var i := IndexAt(s.blocks, p);
    if s.live[p] >= Need(n) {
      SplitSum(s.blocks, s.hi, i, Need(n));
    } else {
      RoundUpPositive(s, p, n);
      MallocSum(s, RoundUp(n), flags);
      MallocInv(s, RoundUp(n), flags);
      var (t, q) := Malloc(s, RoundUp(n), flags);
      if q.Some? {
        FreeSum(t, p);
        FreeLive(t, p);
      }
    }
  }

  // ---- Whole runs --------------------------------------------------------------------

  /** The lengths of all live payloads together. */
  ghost function Total(live: map<nat, nat>): nat {
    if live == map[] then 0
    else var p :| p in live; live[p] + Total(live - {p})
  }

  lemma {:induction false} TotalWithout(live: map<nat, nat>, p: nat)
    requires p in live
    ensures Total(live) == live[p] + Total(live - {p})
    decreases |live|
  {
    var q :| q in live && Total(live) == live[q] + Total(live - {q});
    if q != p {
      TotalWithout(live - {q}, p);
      TotalWithout(live - {p}, q);
      assert live - {q} - {p} == live - {p} - {q};
    }
  }

  lemma {:induction false} TotalWith(live: map<nat, nat>, p: nat, n: nat)
    ensures Total(live[p := n]) + (if p in live then live[p] else 0) == Total(live) + n
  {
    TotalWithout(live[p := n], p);
    assert live[p := n] - {p} == live - {p};
    if p in live {
      TotalWithout(live, p);
    } else {
      assert live - {p} == live;
    }
  }

  lemma {:induction false} MallocTotal(s: State, n: Word, flags: seq<bool>)
    requires Inv(s) && n > 0
    ensures var s' := Malloc(s, n, flags).0;
      Allocated(s') + Total(s.live) == Allocated(s) + Total(s'.live) + (PAGE_UNITS - 1) * Lost(Linked(s, n, flags))
  {
    hide Malloc, Inv, Allocated, Linked, Need, Fitting;
    MallocSum(s, n, flags);
    var (s', r) := Malloc(s, n, flags);
    MallocFirstFit(s, n, flags);
    if r.Some? {
      MallocInv(s, n, flags);
      TotalWith(s.live, r.value, s'.live[r.value]);
    } else {
      MallocFails(s, n, flags);
    }
  }

  lemma {:induction false} FreeTotal(s: State, p: nat)
    requires Inv(s) && p in s.live
    ensures Allocated(Free(s, p)) + Total(s.live) == Allocated(s) + Total(Free(s, p).live)
  {
    hide Free, Inv, Allocated;
    FreeSum(s, p);
    FreeLive(s, p);
    TotalWithout(s.live, p);
  }

  lemma {:induction false} ReallocTotal(s: State, p: nat, n: Word, flags: seq<bool>)
    requires Inv(s) && p in s.live && n > 0
    ensures var s' := Realloc(s, p, n, flags).0;
      Allocated(s') + Total(s.live) == Allocated(s) + Total(s'.live)
        + (PAGE_UNITS - 1) * Lost(LinkedBy(s, DoRealloc(p, n, flags)))
  {
    hide Realloc, Inv, Allocated, LinkedBy, Need, Fitting, Granted;
    ReallocSum(s, p, n, flags);
    ReallocOutcome(s, p, n, flags);
    var (s', q) := Realloc(s, p, n, flags);
    if q.Some? {
      TotalWithout(s.live, p);
      TotalWithout(s'.live, q.value);
    }
  }

  lemma {:induction false} StepTotal(s: State, op: Op)
    requires Inv(s) && Enabled(s, op)
    ensures var t := HeapOps.Step(s, op);
      Allocated(t) + Total(s.live) == Allocated(s) + Total(t.live) + (PAGE_UNITS - 1) * Lost(LinkedBy(s, op))
  {
    hide Inv, Allocated, Malloc, Free, Realloc, Linked;
    match op
    case DoMalloc(n, flags) => if n > 0 { MallocTotal(s, n, flags); } else { MallocNothing(s, flags); }
    case DoFree(p) => FreeTotal(s, p);
    case DoRealloc(p, n, flags) =>
      if n > 0 {
        ReallocTotal(s, p, n, flags);
      } else {
        ReallocNothing(s, p, flags);
        FreeTotal(s, p);
      }
  }

  /** Pages that arrived with their `used` byte set, over the run. */
  function LostIn(s: State, ops: seq<Op>): nat
    requires Runnable(s, ops)
    decreases |ops|
  {
    if ops == [] then 0 else Lost(LinkedBy(s, ops[0])) + LostIn(HeapOps.Step(s, ops[0]), ops[1..])
  }

  lemma {:induction false} RunTotal(s: State, ops: seq<Op>)
    requires Inv(s) && Runnable(s, ops)
    ensures var t := Run(s, ops);
      Allocated(t) + Total(s.live) == Allocated(s) + Total(t.live) + (PAGE_UNITS - 1) * LostIn(s, ops)
    decreases |ops|
  {
    hide Inv, Allocated, LinkedBy;
    if ops != [] {
      StepInv(s, ops[0]);
      StepTotal(s, ops[0]);
      RunTotal(HeapOps.Step(s, ops[0]), ops[1..]);
    }
  }

  lemma {:induction false} NoneLostIn(s: State, ops: seq<Op>)
    requires Runnable(s, ops)
    ensures LostIn(s, ops) == 0 <==> ZeroPages(s, ops)
    decreases |ops|
  {
    hide LinkedBy;
    if ops != [] {
      NoneLost(LinkedBy(s, ops[0]));
      NoneLostIn(HeapOps.Step(s, ops[0]), ops[1..]);
    }
  }

  /** In every reachable state the allocated memory is what clients hold and the pages that were
      lost on arrival; exactly what they hold if and only if every linked page read zero. The rest
      of the heap, less a header for each block, is free. */
  lemma {:induction false} ReachableTotals(ops: seq<Op>)
    requires Runnable(START, ops)
    ensures var s := Run(START, ops);
      && SumUnits(s.blocks, true) == Total(s.live) + (PAGE_UNITS - 1) * LostIn(START, ops)
      && (SumUnits(s.blocks, true) == Total(s.live) <==> ZeroPages(START, ops))
      && SumUnits(s.blocks, false) == s.hi - |s.blocks| - SumUnits(s.blocks, true)
  {
    hide SumUnits, Run, Total, LostIn, ZeroPages, Inv, Tiles, START;
    StartInv();
    RunInv(START, ops);
    RunTotal(START, ops);
    NoneLostIn(START, ops);
    StartSum();
    var s := Run(START, ops);
    Basics(s);
    Accounting(s.blocks, 0, s.hi);
  }

  lemma {:induction false} StartSum()
    ensures Allocated(START) == 0 && Total(START.live) == 0
  {
    SumOne(START.blocks[0], true);
    assert START.blocks == [START.blocks[0]];
  }
}

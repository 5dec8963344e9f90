/** The heap of kernel/mm/heap.c on the pages of kernel/mm/vmm.c. heap_expand takes it for granted
    that each page follows the last one, and links it as if it did; here is why it does. */
module HeapPages {
  import opened Words
  import opened HeapBlocks
  import opened HeapCoalesce
  import opened HeapOps
  import HeapRuns
  import Frames
  import opened Paging
  import PagingRuns

  /** PAGE_PRESENT | PAGE_WRITE */
  const PAGE_FLAGS := 3

  /** The loop of heap_expand on the page source: up to k pages, stopping at the first failure;
      where that leaves the page tables, and the addresses of the pages. */
  function Taken(vm: Vm, k: nat): (Vm, seq<Word>)
    decreases k
  {
    if k == 0 then (vm, [])
    else
      var (t, virt) := AllocPage(vm, PAGE_FLAGS);
      if virt == 0 then (t, [])
      else
        var (u, rest) := Taken(t, k - 1);
        (u, [virt] + rest)
  }

  /** Pages an operation asks for: none unless kmalloc finds no block. */
  function Asked(s: HeapOps.State, op: Op): nat {
    match op
    case DoMalloc(n, flags) => if n == 0 then 0 else AskedFor(s, n)
    case DoFree(p) => 0
    case DoRealloc(p, n, flags) =>
      var i := IndexAt(s.blocks, p);
      if n == 0 || i == |s.blocks| || s.blocks[i].units >= Need(n) then 0 else AskedFor(s, RoundUp(n))
  }

  function AskedFor(s: HeapOps.State, n: Word): nat {
    if FirstFit(s.blocks, Need(n)) < |s.blocks| then 0 else PagesWanted(RoundUp(n))
  }

  /** The `used` bytes the operation meets are those of the pages it gets. */
  predicate Fed(s: HeapOps.State, vm: Vm, op: Op) {
    match op
    case DoMalloc(n, flags) => |flags| == |Taken(vm, Asked(s, op)).1|
    case DoFree(p) => true
    case DoRealloc(p, n, flags) => |flags| == |Taken(vm, Asked(s, op)).1|
  }

  /** The next page of the source, if there is one, starts where the heap at `base` ends. */
  ghost predicate Adjacent(s: HeapOps.State, vm: Vm, base: nat) {
    && Paging.Inv(vm) && NextOk(vm)
    && (PagingRuns.Stuck(vm) || (PagingRuns.FreshAbove(vm) && vm.next == base + ALIGNMENT * s.hi))
  }

  // ---- The page source ---------------------------------------------------------------

  /** The pages of one expansion follow one another, from next_virt on. */
  lemma {:induction false} TakenContiguous(vm: Vm, k: nat)
    requires Paging.Inv(vm) && NextOk(vm) && (PagingRuns.Stuck(vm) || PagingRuns.FreshAbove(vm))
    requires vm.next + FRAME_BYTES * k < WORD
    ensures var (u, pages) := Taken(vm, k);
      && Paging.Inv(u) && NextOk(u) && |pages| <= k
      && (forall i :: 0 <= i < |pages| ==> pages[i] == vm.next + FRAME_BYTES * i)
      && (PagingRuns.Stuck(u) || (PagingRuns.FreshAbove(u) && u.next == vm.next + FRAME_BYTES * |pages|))
      && (PagingRuns.Stuck(vm) ==> pages == [] && PagingRuns.Stuck(u))
    decreases k
  {
    hide Paging.Inv, PagingRuns.Stuck, PagingRuns.FreshAbove, AllocPage;
    if k > 0 {
      var (t, virt) := AllocPage(vm, PAGE_FLAGS);
      if PagingRuns.Stuck(vm) {
        PagingRuns.StuckStays(vm, PAGE_FLAGS);
      } else {
        PagingRuns.AllocFreshAbove(vm, PAGE_FLAGS);
        FailedPage(vm);
        if virt != 0 {
          TakenContiguous(t, k - 1);
        }
      }
    }
  }

  lemma {:induction false} FailedPage(vm: Vm)
    requires Paging.Inv(vm) && NextOk(vm)
    ensures var (t, virt) := AllocPage(vm, PAGE_FLAGS);
      virt == 0 && t.next == vm.next ==> t == vm
  {
    AllocPageOutcome(vm, PAGE_FLAGS);
  }

  // ---- The heap ----------------------------------------------------------------------

  /** An operation given no more pages than it asks for links all of them. */
  lemma {:induction false} LinksAll(s: HeapOps.State, op: Op)
    requires op.DoFree? || |op.flags| <= Asked(s, op)
    ensures |HeapRuns.LinkedBy(s, op)| == if op.DoFree? then 0 else |op.flags|
  {
    hide FirstFit, PagesWanted, RoundUp;
  }

  lemma {:induction false} FedFlags(s: HeapOps.State, vm: Vm, op: Op)
    ensures Fed(s, vm, op) <==> op.DoFree? || |op.flags| == |Taken(vm, Asked(s, op)).1|
  {
    hide Taken, Asked;
  }

  lemma {:induction false} NoneTaken(s: HeapOps.State, vm: Vm, op: Op)
    ensures op.DoFree? ==> Taken(vm, Asked(s, op)).1 == []
  {
  }

  /** An operation makes the heap longer by the pages it links. */
  lemma {:induction false} StepLength(s: HeapOps.State, op: Op)
    requires HeapOps.Inv(s) && Enabled(s, op)
    ensures HeapOps.Step(s, op).hi == s.hi + PAGE_UNITS * |HeapRuns.LinkedBy(s, op)|
  {
    hide Malloc, RoundUp, PagesWanted, Coalesce, Mark;
    match op
    case DoMalloc(n, flags) => if n > 0 { MallocLength(s, n, flags); } else { MallocNothing(s, flags); }
    case DoFree(p) =>
    case DoRealloc(p, n, flags) =>
      if n > 0 { ReallocLength(s, p, n, flags); }
  }

  lemma {:induction false} ReallocLength(s: HeapOps.State, p: nat, n: Word, flags: seq<bool>)
    requires HeapOps.Inv(s) && p in s.live && n > 0
    ensures Realloc(s, p, n, flags).0.hi == s.hi + PAGE_UNITS * |HeapRuns.LinkedBy(s, DoRealloc(p, n, flags))|
  {
    hide Malloc, Realloc, RoundUp, PagesWanted, Coalesce, SplitIfRoomy, Mark, HeapRuns.Linked;
    ReallocLive(s, p, n, flags);
    if s.live[p] < Need(n) {
      HeapRuns.RoundUpPositive(s, p, n);
      MallocLength(s, RoundUp(n), flags);
    }
  }

  lemma {:induction false} MallocLength(s: HeapOps.State, n: Word, flags: seq<bool>)
    requires n > 0
    ensures Malloc(s, n, flags).0.hi == s.hi + PAGE_UNITS * |HeapRuns.Linked(s, n, flags)|
  {
    hide RoundUp, PagesWanted, SplitIfRoomy, Mark;
  }

  /** One operation: every page it links starts where the heap, as it stands then, ends; and so
      will the next one. */
  lemma {:induction false} StepAdjacent(s: HeapOps.State, vm: Vm, op: Op, base: nat)
    requires HeapOps.Inv(s) && Enabled(s, op) && Fed(s, vm, op) && Adjacent(s, vm, base)
    requires vm.next + FRAME_BYTES * Asked(s, op) < WORD
    ensures var (u, pages) := Taken(vm, Asked(s, op));
      && |pages| == |HeapRuns.LinkedBy(s, op)|
      && (forall i :: 0 <= i < |pages| ==> pages[i] == base + ALIGNMENT * (s.hi + PAGE_UNITS * i))
      && Adjacent(HeapOps.Step(s, op), u, base)
  {
    hide HeapOps.Inv, Paging.Inv, PagingRuns.Stuck, PagingRuns.FreshAbove, Taken, Asked, Fed, HeapOps.Step, HeapRuns.LinkedBy;
    TakenContiguous(vm, Asked(s, op));
    FedFlags(s, vm, op);
    NoneTaken(s, vm, op);
    LinksAll(s, op);
    StepLength(s, op);
  }

  // ---- Runs --------------------------------------------------------------------------

  /** The client frees only what it holds, the pages come from the page tables, and next_virt does
      not wrap. */
  predicate Runs(s: HeapOps.State, vm: Vm, ops: seq<Op>)
    decreases |ops|
  {
    ops == [] ||
    (&& Enabled(s, ops[0]) && Fed(s, vm, ops[0]) && vm.next + FRAME_BYTES * Asked(s, ops[0]) < WORD
     && Runs(HeapOps.Step(s, ops[0]), Taken(vm, Asked(s, ops[0])).0, ops[1..]))
  }

  /** Every page linked in the run is at the address where the heap has it. */
  predicate PagesInPlace(s: HeapOps.State, vm: Vm, ops: seq<Op>, base: nat)
    decreases |ops|
  {
    ops == [] ||
    var (u, pages) := Taken(vm, Asked(s, ops[0]));
    && Enabled(s, ops[0])
    && |pages| == |HeapRuns.LinkedBy(s, ops[0])|
    && (forall i :: 0 <= i < |pages| ==> pages[i] == base + ALIGNMENT * (s.hi + PAGE_UNITS * i))
    && PagesInPlace(HeapOps.Step(s, ops[0]), u, ops[1..], base)
  }

  lemma {:induction false} RunInPlace(s: HeapOps.State, vm: Vm, ops: seq<Op>, base: nat)
    requires HeapOps.Inv(s) && Adjacent(s, vm, base) && Runs(s, vm, ops)
    ensures PagesInPlace(s, vm, ops, base)
    decreases |ops|
  {
    hide HeapOps.Inv, Adjacent, Taken, Asked, Fed, HeapOps.Step, HeapRuns.LinkedBy, Enabled;
    if ops != [] {
      StepAdjacent(s, vm, ops[0], base);
      StepInv(s, ops[0]);
      RunInPlace(HeapOps.Step(s, ops[0]), Taken(vm, Asked(s, ops[0])).0, ops[1..], base);
    }
  }

  /** The first page, which heap_init asks for right after vmm_init. */
  lemma {:induction false} FirstPage(m: seq<Word>, pmm: Frames.State)
    requires Frames.Inv(pmm) && 0 in pmm.used && ENTRIES * pmm.max <= |m| && PagingRuns.TwoFree(pmm)
    ensures var (vm, virt) := AllocPage(PagingRuns.Init(m, pmm), PAGE_FLAGS);
      virt != 0 ==> virt == DYNAMIC_BASE && Adjacent(HeapOps.START, vm, DYNAMIC_BASE)
  {
    hide PagingRuns.Init, AllocPage, Paging.Inv, PagingRuns.FreshAbove, PagingRuns.Stuck, PagingRuns.Conserved;
    var vm := PagingRuns.Init(m, pmm);
    PagingRuns.InitConserved(m, pmm);
    InitNext(m, pmm);
    PagingRuns.AllocFreshAbove(vm, PAGE_FLAGS);
  }

  lemma {:induction false} InitNext(m: seq<Word>, pmm: Frames.State)
    ensures PagingRuns.Init(m, pmm).next == DYNAMIC_BASE
  {
  }

  /** From the start of the kernel on, and over every run of heap operations: each page is where
      the heap takes it to be, failing allocations and failing calls included. */
  lemma {:induction false} EveryPageInPlace(m: seq<Word>, pmm: Frames.State, ops: seq<Op>)
    requires Frames.Inv(pmm) && 0 in pmm.used && ENTRIES * pmm.max <= |m| && PagingRuns.TwoFree(pmm)
    requires var (vm, virt) := AllocPage(PagingRuns.Init(m, pmm), PAGE_FLAGS);
      virt != 0 && Runs(HeapOps.START, vm, ops)
    ensures var (vm, virt) := AllocPage(PagingRuns.Init(m, pmm), PAGE_FLAGS);
      virt == DYNAMIC_BASE && PagesInPlace(HeapOps.START, vm, ops, virt)
  {
    hide PagingRuns.Init, AllocPage, Runs, PagesInPlace, Adjacent;
    FirstPage(m, pmm);
    StartInv();
    RunInPlace(HeapOps.START, AllocPage(PagingRuns.Init(m, pmm), PAGE_FLAGS).0, ops, DYNAMIC_BASE);
  }
}

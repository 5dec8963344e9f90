/** The physical frame allocator of kernel/mm/pmm.c, on the set of used frames and the counter
    it reports from. The class in Pmm.dfy keeps both in a packed bitmap. */
module Frames {
  import opened Arithmetic
  import opened Words

  const BLOCK_BYTES := 4096

  /** `counter` is pmm_used_blocks. */
  datatype State = State(used: set<nat>, max: nat, counter: Word)

  ghost predicate Inv(s: State) {
    s.max < WORD / BLOCK_BYTES && forall b :: b in s.used ==> b < s.max
  }

  /** The lowest frame from b on that is not used, or max. */
  function LowestFrom(used: set<nat>, max: nat, b: nat): (r: nat)
    requires b <= max
    ensures b <= r <= max && (r < max ==> r !in used)
    ensures forall k :: b <= k < r ==> k in used
    decreases max - b
  {
    if b == max || b !in used then b else LowestFrom(used, max, b + 1)
  }

  function Lowest(s: State): nat { LowestFrom(s.used, s.max, 0) }

  /** pmm_alloc_page and pmm_alloc_page_aligned: 0 stands for failure, and for frame 0. */
  function Alloc(s: State): (r: (State, Word))
    ensures r.1 % BLOCK_BYTES == 0
  {
    var b := Lowest(s);
    if b == s.max then (s, 0)
    else (State(s.used + {b}, s.max, (s.counter + 1) % WORD), b * BLOCK_BYTES % WORD)
  }

  function Free(s: State, page: Word): State {
    var b := page / BLOCK_BYTES;
    if b < s.max && b in s.used then State(s.used - {b}, s.max, (s.counter - 1) % WORD) else s
  }

  /** pmm_get_free_page_count. */
  function ReportedFree(s: State): Word { (s.max - s.counter) % WORD }

  // ---- Single calls ------------------------------------------------------------------

  lemma {:induction false} AllocInv(s: State)
    requires Inv(s)
    ensures Inv(Alloc(s).0) && Alloc(s).1 == if Lowest(s) < s.max then Lowest(s) * BLOCK_BYTES else 0
  {
    AddressFits(s, Lowest(s));
  }

  lemma {:induction false} AddressFits(s: State, b: nat)
    requires Inv(s) && b <= s.max
    ensures 0 <= b * BLOCK_BYTES < WORD
    ensures b * BLOCK_BYTES / BLOCK_BYTES == b && b * BLOCK_BYTES % BLOCK_BYTES == 0
  {
    DivUnique(b * BLOCK_BYTES, BLOCK_BYTES, b, 0);
  }

  /** Freeing what was allocated restores the allocator exactly when there was a frame to
      allocate, or there are none at all: the failure value 0 is also the address of frame 0. */
  lemma {:induction false} AllocFreeRoundTrip(s: State)
    requires Inv(s)
    ensures Free(Alloc(s).0, Alloc(s).1) == s <==> s.max == 0 || exists b :: 0 <= b < s.max && b !in s.used
  {
    var b := Lowest(s);
    AddressFits(s, b);
    if b < s.max {
      assert s.used + {b} - {b} == s.used;
    } else if s.max > 0 {
      assert 0 in s.used && 0 !in Free(s, 0).used;
    }
  }

  /** A null result means that every frame is used, exactly when frame 0 is used or there are no
      frames. */
  lemma {:induction false} NullMeansFull(s: State)
    requires Inv(s)
    ensures (Alloc(s).1 == 0 <==> forall b :: 0 <= b < s.max ==> b in s.used) <==> s.max == 0 || 0 in s.used
  {
    var b := Lowest(s);
    if 0 in s.used && b < s.max {
      assert b != 0;
    }
  }

  // ---- Runs --------------------------------------------------------------------------

  datatype Op = DoAlloc | DoFree(page: Word)

  function Step(s: State, op: Op): State {
    match op
    case DoAlloc => Alloc(s).0
    case DoFree(page) => Free(s, page)
  }

  function Run(s: State, ops: seq<Op>): State
    decreases |ops|
  {
    if ops == [] then s else Run(Step(s, ops[0]), ops[1..])
  }

  /** How far pmm_used_blocks is off from the number of used frames, modulo 2^32. */
  ghost function Offset(s: State): Word { (s.counter - |s.used|) % WORD }

  lemma {:induction false} StepCounter(s: State, op: Op)
    requires Inv(s)
    ensures Inv(Step(s, op)) && Step(s, op).max == s.max && Offset(Step(s, op)) == Offset(s)
  {
    match op
    case DoAlloc =>
      AllocInv(s);
      if Lowest(s) < s.max { ModShift(s.counter, 1, |s.used| + 1); }
    case DoFree(page) =>
      var b := page / BLOCK_BYTES;
      if b < s.max && b in s.used {
        assert s.used == s.used - {b} + {b};
        ModShift(s.counter, -1, |s.used| - 1);
      }
  }

  lemma {:induction false} ModShift(c: int, d: int, n: int)
    ensures ((c + d) % WORD - n) % WORD == (c - (n - d)) % WORD
  {
  }

  /** Over every run pmm_used_blocks stays off by the same amount. */
  lemma {:induction false} RunCounter(s: State, ops: seq<Op>)
    requires Inv(s)
    ensures Inv(Run(s, ops)) && Run(s, ops).max == s.max && Offset(Run(s, ops)) == Offset(s)
    decreases |ops|
  {
    hide Offset;
    if ops != [] {
      StepCounter(s, ops[0]);
      RunCounter(Step(s, ops[0]), ops[1..]);
    }
  }

  /** The free count reported after any run is the number of free frames less the offset the
      allocator started with. */
  lemma {:induction false} ReportedFreeError(s: State, ops: seq<Op>)
    requires Inv(s)
    ensures var t := Run(s, ops);
      ReportedFree(t) == (t.max - |t.used| - Offset(s)) % WORD
  {
    RunCounter(s, ops);
    var t := Run(s, ops);
    Complement(t.max, t.counter, |t.used|);
  }

  lemma {:induction false} Complement(m: int, c: int, n: int)
    ensures (m - c) % WORD == (m - n - (c - n) % WORD) % WORD
  {
  }
}

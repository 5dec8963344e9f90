/** What kernel/mm/heap.c does with its lock along each call, and which calls come back from it.
    The class in Heap.dfy is proved to perform exactly these operations. */
module HeapLocks {
  import opened Words
  import opened HeapBlocks
  import opened HeapCoalesce
  import opened HeapOps
  import opened Spinlock

  function MallocLocks(n: Word): seq<LockOp> { if n == 0 then [] else [Acquire, Release] }

  function FreeLocks(p: Option<nat>): seq<LockOp> { if p.None? then [] else [Acquire, Release] }

  /** The lock is taken first and released last. */
  predicate Guarded(ops: seq<LockOp>) {
    |ops| >= 2 && ops[0] == Acquire && ops[|ops| - 1] == Release
  }

  /** krealloc has to move the block at p. */
  predicate Moves(s: State, p: Option<nat>, n: Word) {
    p.Some? && n > 0 &&
    var i := IndexAt(s.blocks, p.value);
    i < |s.blocks| && s.blocks[i].units < Need(n)
  }

  /** krealloc, with the operations of the kmalloc it calls in their place; p is None for null, and
      a position without a block for a pointer without the magic before it. */
  function ReallocLocks(s: State, p: Option<nat>, n: Word): seq<LockOp> {
    if p.None? then MallocLocks(n)
    else if n == 0 then FreeLocks(p)
    else [Acquire] + (if Moves(s, p, n) then MallocLocks(RoundUp(n)) else []) + [Release]
  }

  lemma {:induction false} MovingNeedsBytes(s: State, p: Option<nat>, n: Word)
    requires Moves(s, p, n)
    ensures MallocLocks(RoundUp(n)) == [Acquire, Release]
  {
  }

  /** Every call of kmalloc and kfree, failing or not, comes back from its locking; a call of
      krealloc does exactly when it need not move the block. Whatever touches the heap does so
      between an acquire and a release. */
  lemma {:induction false} CallReturns(s: State, p: Option<nat>, n: Word)
    ensures Finishes(Thread(0, MallocLocks(n))) && Finishes(Thread(0, FreeLocks(p)))
    ensures Finishes(Thread(0, ReallocLocks(s, p, n))) <==> !Moves(s, p, n)
    ensures n > 0 ==> Guarded(MallocLocks(n)) && (p.None? || Guarded(FreeLocks(p))) && Guarded(ReallocLocks(s, p, n))
  {
    hide Moves;
    CompletesExactly(Thread(0, MallocLocks(n)));
    CompletesExactly(Thread(0, FreeLocks(p)));
    CompletesExactly(Thread(0, ReallocLocks(s, p, n)));
    PathsReturn(s, p, n, []);
    assert MallocLocks(n) + [] == MallocLocks(n) && FreeLocks(p) + [] == FreeLocks(p);
    assert ReallocLocks(s, p, n) + [] == ReallocLocks(s, p, n);
  }

  /** The same with more to do afterwards. */
  lemma {:induction false} PathsReturn(s: State, p: Option<nat>, n: Word, rest: seq<LockOp>)
    ensures Reacquires(Thread(0, MallocLocks(n) + rest)) == Reacquires(Thread(0, rest))
    ensures Reacquires(Thread(0, FreeLocks(p) + rest)) == Reacquires(Thread(0, rest))
    ensures Reacquires(Thread(0, ReallocLocks(s, p, n) + rest)) == (Moves(s, p, n) || Reacquires(Thread(0, rest)))
  {
    hide Moves;
    BalancedPair();
    if Moves(s, p, n) {
      MovingNeedsBytes(s, p, n);
      assert p.Some? && n > 0 by { MovesCall(s, p, n); }
      var todo := ReallocLocks(s, p, n) + rest;
      assert todo == [Acquire, Acquire, Release, Release] + rest;
      assert todo[1..][0] == Acquire;
    } else {
      NoMove(s, p, n);
    }
  }

  lemma {:induction false} MissingStays(s: State, p: nat, n: Word)
    requires IndexAt(s.blocks, p) == |s.blocks|
    ensures !Moves(s, Some(p), n)
  {
  }

  lemma {:induction false} MovesLive(s: State, p: nat, n: Word)
    requires Inv(s) && p in s.live && n > 0
    ensures Moves(s, Some(p), n) <==> s.live[p] < Need(n)
  {
    IndexAtBlock(s.blocks, s.hi, Block(p, s.live[p], true));
  }

  lemma {:induction false} MovesCall(s: State, p: Option<nat>, n: Word)
    requires Moves(s, p, n)
    ensures p.Some? && n > 0
  {
  }

  lemma {:induction false} NoMove(s: State, p: Option<nat>, n: Word)
    requires !Moves(s, p, n)
    ensures ReallocLocks(s, p, n) in {[], [Acquire, Release]}
  {
    assert [Acquire] + [] + [Release] == [Acquire, Release];
  }

  function OpLocks(s: State, op: Op): seq<LockOp> {
    match op
    case DoMalloc(n, flags) => MallocLocks(n)
    case DoFree(p) => FreeLocks(Some(p))
    case DoRealloc(p, n, flags) => ReallocLocks(s, Some(p), n)
  }

  function RunLocks(s: State, ops: seq<Op>): seq<LockOp>
    requires Runnable(s, ops)
    decreases |ops|
  {
    if ops == [] then [] else OpLocks(s, ops[0]) + RunLocks(HeapOps.Step(s, ops[0]), ops[1..])
  }

  predicate NeverMoves(s: State, ops: seq<Op>)
    requires Runnable(s, ops)
    decreases |ops|
  {
    ops == [] ||
    (&& !(ops[0].DoRealloc? && Moves(s, Some(ops[0].p), ops[0].n))
     && NeverMoves(HeapOps.Step(s, ops[0]), ops[1..]))
  }

  lemma {:induction false} RunReacquires(s: State, ops: seq<Op>)
    requires Runnable(s, ops)
    ensures Reacquires(Thread(0, RunLocks(s, ops))) <==> !NeverMoves(s, ops)
    decreases |ops|
  {
    hide Moves, HeapOps.Step, MallocLocks, FreeLocks, ReallocLocks;
    if ops != [] {
      RunReacquires(HeapOps.Step(s, ops[0]), ops[1..]);
      var rest := RunLocks(HeapOps.Step(s, ops[0]), ops[1..]);
      match ops[0]
      case DoMalloc(n, flags) => PathsReturn(s, None, n, rest);
      case DoFree(p) => PathsReturn(s, Some(p), 0, rest);
      case DoRealloc(p, n, flags) => PathsReturn(s, Some(p), n, rest);
    }
  }

  /** A thread gets through a whole run of calls exactly when none of them moves a block. */
  lemma {:induction false} RunReturns(s: State, ops: seq<Op>)
    requires Runnable(s, ops)
    ensures Finishes(Thread(0, RunLocks(s, ops))) <==> NeverMoves(s, ops)
  {
    RunReacquires(s, ops);
    CompletesExactly(Thread(0, RunLocks(s, ops)));
  }
}

/** kernel/cpu/spinlock.c on one processor: what happens to a single thread whose lock
    operations nobody interrupts. The interleaved use is in InputSystem. */
module Spinlock {
  datatype LockOp = Acquire | Release

  /** The lock word, and the operations the thread still has to do. */
  datatype Thread = Thread(word: nat, todo: seq<LockOp>)

  /** One atomic exchange: acquiring succeeds when the old word was 0, else the thread spins. */
  function Step(t: Thread): Thread {
    if t.todo == [] then t
    else match t.todo[0]
      case Acquire => if t.word == 0 then Thread(1, t.todo[1..]) else Thread(1, t.todo)
      case Release => Thread(0, t.todo[1..])
  }

  function Steps(t: Thread, n: nat): Thread
    decreases n
  {
    if n == 0 then t else Steps(Step(t), n - 1)
  }

  /** The thread acquires the lock while it holds it. */
  predicate Reacquires(t: Thread)
    decreases |t.todo|
  {
    t.todo != [] &&
    match t.todo[0]
    case Acquire => t.word != 0 || Reacquires(Thread(1, t.todo[1..]))
    case Release => Reacquires(Thread(0, t.todo[1..]))
  }

  lemma {:induction false} SpinsForever(t: Thread, n: nat)
    requires Reacquires(t)
    ensures Steps(t, n).todo != []
    decreases n
  {
    if n > 0 {
      SpinsForever(Step(t), n - 1);
    }
  }

  lemma {:induction false} Completes(t: Thread)
    requires !Reacquires(t)
    ensures Steps(t, |t.todo|).todo == []
    decreases |t.todo|
  {
    if t.todo != [] {
      Completes(Step(t));
    }
  }

  ghost predicate Finishes(t: Thread) { exists n: nat :: Steps(t, n).todo == [] }

  /** The lock is not recursive: a thread gets through its operations exactly when it never
      acquires the lock while holding it. */
  lemma {:induction false} CompletesExactly(t: Thread)
    ensures Finishes(t) <==> !Reacquires(t)
  {
    if Reacquires(t) {
      forall n: nat ensures Steps(t, n).todo != [] { SpinsForever(t, n); }
    } else {
      Completes(t);
    }
  }

  /** A lock that keeps the operations its holder performs on it, in order. */
  class Lock {
    ghost var trace: seq<LockOp>

    constructor ()
      ensures trace == []
    {
      trace := [];
    }

    /** spinlock_lock. */
    method Acquire()
      modifies this
      ensures trace == old(trace) + [LockOp.Acquire]
    {
      trace := trace + [LockOp.Acquire];
    }

    /** spinlock_unlock. */
    method Release()
      modifies this
      ensures trace == old(trace) + [LockOp.Release]
    {
      trace := trace + [LockOp.Release];
    }
  }

  /** A thread goes through the operations a, and comes out with the lock free. */
  ghost predicate Balanced(a: seq<LockOp>) {
    forall b: seq<LockOp> :: Reacquires(Thread(0, a + b)) == Reacquires(Thread(0, b))
  }

  lemma {:induction false} BalancedPair()
    ensures Balanced([]) && Balanced([Acquire, Release])
  {
    forall b: seq<LockOp> ensures Reacquires(Thread(0, [] + b)) == Reacquires(Thread(0, b)) {
      assert [] + b == b;
    }
    forall b: seq<LockOp> ensures Reacquires(Thread(0, [Acquire, Release] + b)) == Reacquires(Thread(0, b)) {
      assert ([Acquire, Release] + b)[1..] == [Release] + b && ([Release] + b)[1..] == b;
    }
  }
}

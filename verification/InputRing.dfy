/** The ring of key events of drivers/input/input.c: the queue it denotes, and its operations
    on the static array, one at a time. Ring.Push and Ring.Pop are also the critical sections
    of the interleaved system in InputSystem. */
module InputRing {

  const SIZE := 256

  datatype Event = Event(pressed: bool, scancode: nat, ascii: char)

  /** What input_pop_event returns when there is nothing to pop. */
  const ZERO := Event(true, 0, '\0')

  datatype Ring = Ring(buffer: seq<Event>, head: nat, tail: nat) {
    predicate Ok() { |buffer| == SIZE && head < SIZE && tail < SIZE }

    /** The events in the ring, oldest first. */
    function Queued(): (q: seq<Event>)
      requires Ok()
      ensures |q| == if tail <= head then head - tail else SIZE - tail + head
    {
      if tail <= head then buffer[tail..head] else buffer[tail..] + buffer[..head]
    }

    function Next(): (n: nat)
      requires head < SIZE
      ensures n == if head == SIZE - 1 then 0 else head + 1
    {
      (head + 1) % SIZE
    }

    function TailNext(): (n: nat)
      requires tail < SIZE
      ensures n == if tail == SIZE - 1 then 0 else tail + 1
    {
      (tail + 1) % SIZE
    }
  }

  lemma {:induction false} StoreKeepsQueue(r: Ring, e: Event)
    requires r.Ok()
    ensures r.(buffer := r.buffer[r.head := e]).Queued() == r.Queued()
  {
  }

  lemma {:induction false} AdvanceHead(r: Ring)
    requires r.Ok() && r.Next() != r.tail
    ensures r.(head := r.Next()).Queued() == r.Queued() + [r.buffer[r.head]]
  {
  }

  lemma {:induction false} AdvanceTail(r: Ring)
    requires r.Ok() && r.head != r.tail
    ensures r.Queued() == [r.buffer[r.tail]] + r.(tail := r.TailNext()).Queued()
  {
  }

  /** 255 events fit: a push is refused exactly when that many are queued. */
  lemma {:induction false} FullAt255(r: Ring)
    requires r.Ok()
    ensures r.Next() == r.tail <==> |r.Queued()| == SIZE - 1
    ensures r.head == r.tail <==> r.Queued() == []
  {
  }

  class InputBuffer {
    const buffer: array<Event>
    var head: nat
    var tail: nat

    ghost function Model(): Ring
      reads this, buffer
    {
      Ring(buffer[..], head, tail)
    }

    ghost predicate Valid()
      reads this, buffer
    {
      Model().Ok()
    }

    /** The part of input_init that concerns the ring. */
    constructor ()
      ensures Valid() && fresh(buffer) && Model().Queued() == []
    {
      buffer := new Event[SIZE](_ => ZERO);
      head, tail := 0, 0;
    }

    /** input_push_event, its lock held. */
    method Push(e: Event)
      requires Valid()
      modifies this`head, buffer
      ensures Valid()
      ensures Model().Queued() ==
        if |old(Model().Queued())| < SIZE - 1 then old(Model().Queued()) + [e] else old(Model().Queued())
    {
      hide Ring.Queued;
      FullAt255(Model());
      var next := (head + 1) % SIZE;
      if next != tail {
        StoreKeepsQueue(Model(), e);
        AdvanceHead(Model().(buffer := Model().buffer[head := e]));
        buffer[head] := e;
        head := next;
      }
    }

    /** input_pop_event, its lock held. */
    method Pop() returns (e: Event)
      requires Valid()
      modifies this`tail
      ensures Valid()
      ensures var q := old(Model().Queued());
        if q == [] then e == ZERO && Model().Queued() == [] else q == [e] + Model().Queued()
    {
      hide Ring.Queued;
      FullAt255(Model());
      e := ZERO;
      if tail != head {
        AdvanceTail(Model());
        e := buffer[tail];
        tail := (tail + 1) % SIZE;
      }
    }

    /** input_has_events. */
    method HasEvents() returns (any: bool)
      requires Valid()
      ensures any <==> Model().Queued() != []
    {
      FullAt255(Model());
      return head != tail;
    }
  }
}

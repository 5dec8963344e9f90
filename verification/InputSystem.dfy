/** One consumer and any number of producers of key events, interleaved at the steps of
    spinlock.c and input.c: each atomic exchange, each read and each write is a step. */
module InputSystem {
  import opened InputRing

  /** Where a producer is in input_push_event. */
  datatype Producer =
    | Idle
    | Wants(e: Event)                // before the exchange
    | Spins(e: Event)                // reading the lock word until it is 0
    | Has(e: Event)                  // holding the lock; head is read next
    | Checks(e: Event, next: nat)    // tail is read next, and compared
    | Stores(e: Event, next: nat)    // buffer[head] is written next
    | Advances(e: Event, next: nat)  // head is written next
    | Unlocks
  {
    predicate Holding() { !Idle? && !Wants? && !Spins? }
  }

  /** Where the consumer is: in input_has_events (CHead), or in input_pop_event. `checked` says
      that the pop follows a true answer of input_has_events. */
  datatype Consumer =
    | CIdle
    | CHead(h: nat)
    | CWants(checked: bool)
    | CSpins(checked: bool)
    | CHas(checked: bool)
    | CReads(checked: bool)
    | CAdvances(checked: bool, e: Event)
    | CUnlocks(checked: bool, got: bool)
  {
    predicate Holding() { CHas? || CReads? || CAdvances? || CUnlocks? }
  }

  /** One finished input_pop_event. */
  datatype Pop = Pop(checked: bool, got: bool)

  datatype Sys = Sys(lock: nat, ring: Ring, producers: seq<Producer>, consumer: Consumer,
                     accepted: seq<Event>, popped: seq<Event>, pops: seq<Pop>)

  /** Who moves: producer i (starting to push e if it is idle), or the consumer (starting with
      input_has_events if it is idle, or with a bare pop). */
  datatype Act = Produce(i: nat, e: Event) | Consume(bare: bool)

  function StepProducer(s: Sys, i: nat, e: Event): Sys
    requires i < |s.producers|
  {
    match s.producers[i]
    case Idle => At(s, i, Wants(e))
    case Wants(e) => At(s.(lock := 1), i, if s.lock == 0 then Has(e) else Spins(e))
    case Spins(e) => At(s, i, if s.lock == 0 then Wants(e) else Spins(e))
    case Has(e) => if s.ring.head < SIZE then At(s, i, Checks(e, s.ring.Next())) else s
    case Checks(e, next) => At(s, i, if next != s.ring.tail then Stores(e, next) else Unlocks)
    case Stores(e, next) =>
      if s.ring.head < |s.ring.buffer|
      then At(s.(ring := s.ring.(buffer := s.ring.buffer[s.ring.head := e])), i, Advances(e, next))
      else s
    case Advances(e, next) => At(s.(ring := s.ring.(head := next), accepted := s.accepted + [e]), i, Unlocks)
    case Unlocks => At(s.(lock := 0), i, Idle)
  }

  function At(s: Sys, i: nat, p: Producer): Sys
    requires i < |s.producers|
  {
    s.(producers := s.producers[i := p])
  }

  function StepConsumer(s: Sys, bare: bool): Sys {
    match s.consumer
    case CIdle => s.(consumer := if bare then CWants(false) else CHead(s.ring.head))
    case CHead(h) => s.(consumer := if h != s.ring.tail then CWants(true) else CIdle)
    case CWants(c) => s.(lock := 1, consumer := if s.lock == 0 then CHas(c) else CSpins(c))
    case CSpins(c) => s.(consumer := if s.lock == 0 then CWants(c) else CSpins(c))
    case CHas(c) => s.(consumer := if s.ring.tail != s.ring.head then CReads(c) else CUnlocks(c, false))
    case CReads(c) =>
      if s.ring.tail < |s.ring.buffer| then s.(consumer := CAdvances(c, s.ring.buffer[s.ring.tail])) else s
    case CAdvances(c, e) =>
      if s.ring.tail >= SIZE then s else
      s.(ring := s.ring.(tail := s.ring.TailNext()), popped := s.popped + [e], consumer := CUnlocks(c, true))
    case CUnlocks(c, got) => s.(lock := 0, pops := s.pops + [Pop(c, got)], consumer := CIdle)
  }

  function Step(s: Sys, a: Act): Sys {
    match a
    case Produce(i, e) => if i < |s.producers| then StepProducer(s, i, e) else s
    case Consume(bare) => StepConsumer(s, bare)
  }

  function Run(s: Sys, acts: seq<Act>): Sys
    decreases |acts|
  {
    if acts == [] then s else Run(Step(s, acts[0]), acts[1..])
  }

  // ---- The invariant -----------------------------------------------------------------

  ghost predicate Held(s: Sys) {
    s.consumer.Holding() || exists i :: 0 <= i < |s.producers| && s.producers[i].Holding()
  }

  /** At most one holder, and the lock word is 1 exactly when there is one. */
  ghost predicate Exclusive(s: Sys) {
    && s.lock <= 1 && (s.lock == 1 <==> Held(s))
    && (forall i :: 0 <= i < |s.producers| && s.producers[i].Holding() ==> !s.consumer.Holding())
    && (forall i, j :: 0 <= i < j < |s.producers| && s.producers[i].Holding() ==> !s.producers[j].Holding())
  }

  /** What a producer that holds the lock knows. */
  predicate ProducerKnows(r: Ring, p: Producer)
    requires r.Ok()
  {
    match p
    case Checks(e, next) => next == r.Next()
    case Stores(e, next) => next == r.Next() != r.tail
    case Advances(e, next) => next == r.Next() != r.tail && r.buffer[r.head] == e
    case _ => true
  }

  /** What the consumer knows: after a true answer the ring stays non-empty. */
  predicate ConsumerKnows(r: Ring, c: Consumer)
    requires r.Ok()
  {
    match c
    case CHead(h) => h != r.tail ==> r.head != r.tail
    case CWants(checked) => checked ==> r.head != r.tail
    case CSpins(checked) => checked ==> r.head != r.tail
    case CHas(checked) => checked ==> r.head != r.tail
    case CReads(checked) => r.head != r.tail
    case CAdvances(checked, e) => r.head != r.tail && e == r.buffer[r.tail]
    case CUnlocks(checked, got) => checked ==> got
    case CIdle => true
  }

  ghost predicate Inv(s: Sys) {
    && s.ring.Ok() && Exclusive(s)
    && (forall i :: 0 <= i < |s.producers| ==> ProducerKnows(s.ring, s.producers[i]))
    && ConsumerKnows(s.ring, s.consumer)
    && s.accepted == s.popped + s.ring.Queued()
    && (forall k :: 0 <= k < |s.pops| && s.pops[k].checked ==> s.pops[k].got)
  }

  // ---- Mutual exclusion, step by step ------------------------------------------------

  lemma {:induction false} SameHolders(s: Sys, t: Sys)
    requires Exclusive(s) && t.lock == s.lock && |t.producers| == |s.producers|
    requires t.consumer.Holding() == s.consumer.Holding()
    requires forall i :: 0 <= i < |s.producers| ==> t.producers[i].Holding() == s.producers[i].Holding()
    ensures Exclusive(t)
  {
    assert Held(t) == Held(s);
  }

  lemma {:induction false} ProducerTakes(s: Sys, i: nat, p: Producer)
    requires Exclusive(s) && s.lock == 0 && i < |s.producers| && p.Holding()
    ensures Exclusive(At(s.(lock := 1), i, p))
  {
    var t := At(s.(lock := 1), i, p);
    assert t.producers[i].Holding();
    assert forall j :: 0 <= j < |s.producers| ==> !s.producers[j].Holding();
  }

  lemma {:induction false} ProducerDrops(s: Sys, i: nat)
    requires Exclusive(s) && i < |s.producers| && s.producers[i].Holding()
    ensures Exclusive(At(s.(lock := 0), i, Idle))
  {
    var t := At(s.(lock := 0), i, Idle);
    forall j | 0 <= j < |t.producers| ensures !t.producers[j].Holding() {
      if j != i { assert t.producers[j] == s.producers[j]; }
    }
  }

  lemma {:induction false} ConsumerTakes(s: Sys, c: Consumer)
    requires Exclusive(s) && s.lock == 0 && c.Holding()
    ensures Exclusive(s.(lock := 1, consumer := c))
  {
    assert forall j :: 0 <= j < |s.producers| ==> !s.producers[j].Holding();
  }

  lemma {:induction false} ConsumerDrops(s: Sys, c: Consumer, pops: seq<Pop>)
    requires Exclusive(s) && s.consumer.Holding() && !c.Holding()
    ensures Exclusive(s.(lock := 0, consumer := c, pops := pops))
  {
  }

  // ---- Every step keeps the invariant ------------------------------------------------

  ghost predicate AllKnow(r: Ring, ps: seq<Producer>)
    requires r.Ok()
  {
    forall i :: 0 <= i < |ps| ==> ProducerKnows(r, ps[i])
  }

  /** Only the holder of the lock knows anything about the ring; so when the holder changes
      the ring, nobody else's knowledge is spoilt. */
  lemma {:induction false} OthersKnow(s: Sys, i: nat, r: Ring, p: Producer)
    requires Inv(s) && i < |s.producers| && r.Ok() && ProducerKnows(r, p)
    requires r == s.ring || s.producers[i].Holding()
    ensures AllKnow(r, s.producers[i := p])
  {
    var ps := s.producers[i := p];
    forall j | 0 <= j < |ps| ensures ProducerKnows(r, ps[j]) {
      if j < i { assert s.producers[j].Holding() ==> !s.producers[i].Holding(); }
      if i < j { assert s.producers[i].Holding() ==> !s.producers[j].Holding(); }
    }
  }

  lemma {:induction false} ProducerInv(s: Sys, i: nat, e0: Event)
    requires Inv(s) && i < |s.producers|
    ensures Inv(StepProducer(s, i, e0))
  {
    hide Exclusive, ProducerKnows, AllKnow;
    var t, p := StepProducer(s, i, e0), s.producers[i];
    ProducerLock(s, i, e0);
    ProducerRing(s, i, e0);
    OthersKnow(s, i, t.ring, t.producers[i]);
    assert t.producers == s.producers[i := t.producers[i]];
    AllKnows(t);
  }

  lemma {:induction false} AllKnows(s: Sys)
    requires s.ring.Ok() && AllKnow(s.ring, s.producers)
    ensures forall i :: 0 <= i < |s.producers| ==> ProducerKnows(s.ring, s.producers[i])
  {
  }

  lemma {:induction false} ProducerLock(s: Sys, i: nat, e0: Event)
    requires Inv(s) && i < |s.producers|
    ensures Exclusive(StepProducer(s, i, e0))
  {
    var t := StepProducer(s, i, e0);
    match s.producers[i]
    case Wants(e) =>
      if s.lock == 0 { ProducerTakes(s, i, Has(e)); } else { SameHolders(s, t); }
    case Unlocks => ProducerDrops(s, i);
    case _ => SameHolders(s, t);
  }

  /** The producer's step on the ring, and what it and the consumer know afterwards. */
  lemma {:induction false} ProducerRing(s: Sys, i: nat, e0: Event)
    requires Inv(s) && i < |s.producers|
    ensures var t := StepProducer(s, i, e0);
      && t.ring.Ok() && ProducerKnows(t.ring, t.producers[i]) && ConsumerKnows(t.ring, t.consumer)
      && (t.ring == s.ring || s.producers[i].Holding())
      && t.accepted == t.popped + t.ring.Queued() && t.pops == s.pops
      && |t.producers| == |s.producers| && t.producers == s.producers[i := t.producers[i]]
  {
    assert ProducerKnows(s.ring, s.producers[i]);
    match s.producers[i]
    case Stores(e, next) => StoreKeepsQueue(s.ring, e);
    case Advances(e, next) => AdvanceHead(s.ring);
    case _ =>
  }

  lemma {:induction false} ConsumerInv(s: Sys, bare: bool)
    requires Inv(s)
    ensures Inv(StepConsumer(s, bare))
  {
    hide Exclusive, ProducerKnows, AllKnow;
    ConsumerLock(s, bare);
    ConsumerRing(s, bare);
    AllKnows(StepConsumer(s, bare));
  }

  /** The consumer's step on the ring; only with the lock held does it change the ring. */
  lemma {:induction false} ConsumerRing(s: Sys, bare: bool)
    requires Inv(s)
    ensures var t := StepConsumer(s, bare);
      && t.ring.Ok() && ConsumerKnows(t.ring, t.consumer) && t.producers == s.producers
      && t.accepted == t.popped + t.ring.Queued() && AllKnow(t.ring, t.producers)
      && (forall k :: 0 <= k < |t.pops| && t.pops[k].checked ==> t.pops[k].got)
  {
    hide Exclusive, Ring.Queued;
    if s.consumer.CAdvances? {
      AdvanceTail(s.ring);
      NoProducerHolds(s);
      NoHolderKnows(s.ring.(tail := s.ring.TailNext()), s.producers);
    }
  }

  lemma {:induction false} NoHolderKnows(r: Ring, ps: seq<Producer>)
    requires r.Ok() && forall i :: 0 <= i < |ps| ==> !ps[i].Holding()
    ensures AllKnow(r, ps)
  {
  }

  lemma {:induction false} NoProducerHolds(s: Sys)
    requires Exclusive(s) && s.consumer.Holding()
    ensures forall i :: 0 <= i < |s.producers| ==> !s.producers[i].Holding()
  {
  }

  lemma {:induction false} ConsumerLock(s: Sys, bare: bool)
    requires Inv(s)
    ensures Exclusive(StepConsumer(s, bare))
  {
    var t := StepConsumer(s, bare);
    match s.consumer
    case CWants(c) =>
      if s.lock == 0 { ConsumerTakes(s, CHas(c)); } else { SameHolders(s, t); }
    case CUnlocks(c, got) => ConsumerDrops(s, CIdle, t.pops);
    case _ => SameHolders(s, t);
  }

  /** A push is given up exactly when 255 events are queued at its check; otherwise its event
      is the next one accepted, whatever the others do meanwhile. */
  lemma {:induction false} PushOutcome(s: Sys, i: nat, e0: Event)
    requires Inv(s) && i < |s.producers|
    ensures s.producers[i].Checks? ==>
      (StepProducer(s, i, e0).producers[i].Unlocks? <==> |s.ring.Queued()| == SIZE - 1)
    ensures s.producers[i].Advances? ==>
      StepProducer(s, i, e0).accepted == s.accepted + [s.producers[i].e]
    ensures s.producers[i].Advances? ==>
      StepProducer(s, i, e0).ring.Queued() == s.ring.Queued() + [s.producers[i].e]
  {
    hide Ring.Queued;
    assert ProducerKnows(s.ring, s.producers[i]);
    FullAt255(s.ring);
    if s.producers[i].Advances? { AdvanceHead(s.ring); }
  }

  lemma {:induction false} StepInv(s: Sys, a: Act)
    requires Inv(s)
    ensures Inv(Step(s, a))
  {
    match a
    case Produce(i, e) => if i < |s.producers| { ProducerInv(s, i, e); }
    case Consume(bare) => ConsumerInv(s, bare);
  }

  lemma {:induction false} RunInv(s: Sys, acts: seq<Act>)
    requires Inv(s)
    ensures Inv(Run(s, acts))
    decreases |acts|
  {
    hide Inv;
    if acts != [] {
      StepInv(s, acts[0]);
      RunInv(Step(s, acts[0]), acts[1..]);
    }
  }

  // ---- What every interleaving guarantees --------------------------------------------

  function Start(producers: nat): Sys {
    Sys(0, Ring(seq(SIZE, _ => ZERO), 0, 0), seq(producers, _ => Idle), CIdle, [], [], [])
  }

  /** For any number of producers and any interleaving: one holder of the lock at most, at most
      255 events queued, accepted events are popped in the order they were accepted or still
      queued, and a pop that follows a true input_has_events returns a real event. */
  lemma {:induction false} EveryInterleaving(producers: nat, acts: seq<Act>)
    ensures var s := Run(Start(producers), acts);
      && s.ring.Ok() && (s.lock == 1 <==> Held(s))
      && (forall i, j :: 0 <= i < j < |s.producers| ==> !(s.producers[i].Holding() && s.producers[j].Holding()))
      && (forall i :: 0 <= i < |s.producers| ==> !(s.producers[i].Holding() && s.consumer.Holding()))
      && |s.ring.Queued()| <= SIZE - 1 && s.accepted == s.popped + s.ring.Queued()
      && (forall k :: 0 <= k < |s.pops| && s.pops[k].checked ==> s.pops[k].got)
  {
    RunInv(Start(producers), acts);
  }

  // ---- What becomes of each push -----------------------------------------------------

  /** An event, and the producer that pushes it. */
  datatype Mark = Mark(who: nat, e: Event)

  /** How a push ends: its event is in the ring, or it was given up. */
  datatype Done = Done(mark: Mark, kept: bool)

  ghost predicate Full(s: Sys) { s.ring.Ok() && |s.ring.Queued()| == SIZE - 1 }

  /** What a step starts to push. */
  function Submits(s: Sys, a: Act): seq<Mark> {
    if a.Produce? && a.i < |s.producers| && s.producers[a.i].Idle? then [Mark(a.i, a.e)] else []
  }

  /** The push that a step ends: by advancing the head, or by a check that finds the ring full. */
  ghost function Ends(s: Sys, a: Act): seq<Done> {
    if !(a.Produce? && a.i < |s.producers|) then []
    else match s.producers[a.i]
      case Advances(e, next) => [Done(Mark(a.i, e), true)]
      case Checks(e, next) => if Full(s) then [Done(Mark(a.i, e), false)] else []
      case _ => []
  }

  function SubmittedIn(s: Sys, acts: seq<Act>): seq<Mark>
    decreases |acts|
  {
    if acts == [] then [] else Submits(s, acts[0]) + SubmittedIn(Step(s, acts[0]), acts[1..])
  }

  ghost function DoneIn(s: Sys, acts: seq<Act>): seq<Done>
    decreases |acts|
  {
    if acts == [] then [] else Ends(s, acts[0]) + DoneIn(Step(s, acts[0]), acts[1..])
  }

  function Kept(ds: seq<Done>): seq<Event> {
    if ds == [] then [] else (if ds[0].kept then [ds[0].mark.e] else []) + Kept(ds[1..])
  }

  function Marks(ds: seq<Done>): (ms: seq<Mark>)
    ensures |ms| == |ds|
  {
    seq(|ds|, k requires 0 <= k < |ds| => ds[k].mark)
  }

  /** The events of one producer. */
  function From(ms: seq<Mark>, i: nat): seq<Event> {
    if ms == [] then [] else (if ms[0].who == i then [ms[0].e] else []) + From(ms[1..], i)
  }

  /** The event a producer has started to push and not done with. */
  function Pending(s: Sys, i: nat): seq<Event> {
    if i >= |s.producers| then []
    else match s.producers[i]
      case Idle => []
      case Unlocks => []
      case Wants(e) => [e]
      case Spins(e) => [e]
      case Has(e) => [e]
      case Checks(e, next) => [e]
      case Stores(e, next) => [e]
      case Advances(e, next) => [e]
  }

  lemma {:induction false} FromConcat(a: seq<Mark>, b: seq<Mark>, i: nat)
    ensures From(a + b, i) == From(a, i) + From(b, i)
    decreases |a|
  {
    if a == [] {
      assert a + b == b;
    } else {
      FromConcat(a[1..], b, i);
      assert (a + b)[1..] == a[1..] + b && (a + b)[0] == a[0];
      var head := if a[0].who == i then [a[0].e] else [];
      assert head + (From(a[1..], i) + From(b, i)) == (head + From(a[1..], i)) + From(b, i);
    }
  }

  lemma {:induction false} FromOne(m: Mark, i: nat)
    ensures From([m], i) == if m.who == i then [m.e] else []
    ensures From([], i) == []
  {
    assert [m][1..] == [];
  }

  /** No step loses an event: what was pending or is submitted is done with or still pending. In
      particular a push ends without its event in the ring only at its check of a full ring. */
  lemma {:induction false} StepPending(s: Sys, a: Act, i: nat)
    requires Inv(s)
    ensures Pending(s, i) + From(Submits(s, a), i) == From(Marks(Ends(s, a)), i) + Pending(Step(s, a), i)
    ensures Pending(s, i) != [] && Pending(Step(s, a), i) == [] && !(a.Produce? && s.producers[i].Advances?) ==>
      s.producers[i].Checks? && |s.ring.Queued()| == SIZE - 1
  {
    hide From, Ring.Queued, Exclusive;
    FromOne(Mark(i, ZERO), i);
    FullAt255(s.ring);
    if a.Produce? && a.i < |s.producers| {
      assert ProducerKnows(s.ring, s.producers[a.i]);
      FromOne(Mark(a.i, a.e), i);
      match s.producers[a.i]
      case Advances(e, next) => OneMark(Done(Mark(a.i, e), true), i);
      case Checks(e, next) => OneMark(Done(Mark(a.i, e), false), i);
      case _ =>
    }
  }

  lemma {:induction false} OneMark(d: Done, i: nat)
    ensures From(Marks([d]), i) == if d.mark.who == i then [d.mark.e] else []
  {
    assert Marks([d]) == [d.mark];
    FromOne(d.mark, i);
  }

  lemma {:induction false} PushesAccounted(s: Sys, acts: seq<Act>, i: nat)
    requires Inv(s)
    ensures Pending(s, i) + From(SubmittedIn(s, acts), i) == From(Marks(DoneIn(s, acts)), i) + Pending(Run(s, acts), i)
    decreases |acts|
  {
    hide From, Pending, Step, Submits, Ends, Inv;
    FromOne(Mark(i, ZERO), i);
    if acts == [] {
      assert Marks([]) == [];
    } else {
      var t, rest := Step(s, acts[0]), acts[1..];
      StepInv(s, acts[0]);
      PushesAccounted(t, rest, i);
      StepPending(s, acts[0], i);
      FromConcat(Submits(s, acts[0]), SubmittedIn(t, rest), i);
      assert Marks(Ends(s, acts[0]) + DoneIn(t, rest)) == Marks(Ends(s, acts[0])) + Marks(DoneIn(t, rest));
      FromConcat(Marks(Ends(s, acts[0])), Marks(DoneIn(t, rest)), i);
      Regroup(Pending(s, i), From(Submits(s, acts[0]), i), From(SubmittedIn(t, rest), i),
              From(Marks(Ends(s, acts[0])), i), Pending(t, i), From(Marks(DoneIn(t, rest)), i), Pending(Run(t, rest), i));
    }
  }

  lemma {:induction false} Regroup(p: seq<Event>, a: seq<Event>, b: seq<Event>, x: seq<Event>, q: seq<Event>,
                                   y: seq<Event>, z: seq<Event>)
    requires p + a == x + q && q + b == y + z
    ensures p + (a + b) == (x + y) + z
  {
    assert p + (a + b) == (p + a) + b == x + (q + b) == (x + y) + z;
  }

  lemma {:induction false} KeptConcat(a: seq<Done>, b: seq<Done>)
    ensures Kept(a + b) == Kept(a) + Kept(b)
    decreases |a|
  {
    if a == [] {
      assert a + b == b;
    } else {
      KeptConcat(a[1..], b);
      assert (a + b)[1..] == a[1..] + b && (a + b)[0] == a[0];
      var head := if a[0].kept then [a[0].mark.e] else [];
      assert head + (Kept(a[1..]) + Kept(b)) == (head + Kept(a[1..])) + Kept(b);
    }
  }

  /** The events accepted during a run are those of the pushes that were kept, in order. */
  lemma {:induction false} AcceptedEvents(s: Sys, acts: seq<Act>)
    ensures Run(s, acts).accepted == s.accepted + Kept(DoneIn(s, acts))
    decreases |acts|
  {
    hide Step, Ends;
    if acts == [] {
      assert s.accepted + [] == s.accepted;
    } else {
      var t, rest := Step(s, acts[0]), acts[1..];
      AcceptedEvents(t, rest);
      StepAccepted(s, acts[0]);
      KeptConcat(Ends(s, acts[0]), DoneIn(t, rest));
      assert (s.accepted + Kept(Ends(s, acts[0]))) + Kept(DoneIn(t, rest))
          == s.accepted + (Kept(Ends(s, acts[0])) + Kept(DoneIn(t, rest)));
    }
  }

  lemma {:induction false} StepAccepted(s: Sys, a: Act)
    ensures Step(s, a).accepted == s.accepted + Kept(Ends(s, a))
  {
    if Ends(s, a) != [] { assert Ends(s, a)[1..] == []; }
  }

  /** In every interleaving, the events each producer has submitted are, in its order, those that
      were put into the ring, those given up at a check with 255 events queued, and at most one it
      is still busy with; and the accepted events are those put into the ring, and no others. */
  lemma {:induction false} AcceptedWereSubmitted(producers: nat, acts: seq<Act>, i: nat)
    ensures var s := Start(producers);
      && Run(s, acts).accepted == Kept(DoneIn(s, acts))
      && From(SubmittedIn(s, acts), i) == From(Marks(DoneIn(s, acts)), i) + Pending(Run(s, acts), i)
      && |Pending(Run(s, acts), i)| <= 1
  {
    var s := Start(producers);
    AcceptedEvents(s, acts);
    assert s.accepted + Kept(DoneIn(s, acts)) == Kept(DoneIn(s, acts));
    PushesAccounted(s, acts, i);
    assert Pending(s, i) + From(SubmittedIn(s, acts), i) == From(SubmittedIn(s, acts), i);
  }

  // ---- What becomes of each pop ------------------------------------------------------

  /** The consumer is in input_pop_event. */
  predicate Popping(c: Consumer) { !c.CIdle? && !c.CHead? }

  /** A step that starts a pop: a bare one, or one after an answer of input_has_events that there
      is something; that answer compares the head it read with the tail as it is now. */
  predicate StartsPop(s: Sys, a: Act) {
    a.Consume? && ((s.consumer.CIdle? && a.bare) || (s.consumer.CHead? && s.consumer.h != s.ring.tail))
  }

  function PopsStarted(s: Sys, acts: seq<Act>): nat
    decreases |acts|
  {
    if acts == [] then 0 else (if StartsPop(s, acts[0]) then 1 else 0) + PopsStarted(Step(s, acts[0]), acts[1..])
  }

  /** A pop finds nothing exactly when nothing is queued at its check; otherwise it goes on to
      take the oldest event. */
  lemma {:induction false} PopOutcome(s: Sys, bare: bool)
    requires Inv(s)
    ensures var t := StepConsumer(s, bare);
      && (s.consumer.CHas? ==> (t.consumer.CUnlocks? && !t.consumer.got <==> s.ring.Queued() == [])
                               && (t.consumer.CReads? <==> s.ring.Queued() != []))
      && (s.consumer.CAdvances? ==>
            && s.ring.Queued() == [s.consumer.e] + t.ring.Queued() && t.popped == s.popped + [s.consumer.e]
            && t.consumer.CUnlocks? && t.consumer.got)
      && (s.consumer.CUnlocks? ==> t.pops == s.pops + [Pop(s.consumer.checked, s.consumer.got)] && t.consumer.CIdle?)
  {
    hide Ring.Queued, Exclusive;
    FullAt255(s.ring);
    if s.consumer.CAdvances? { AdvanceTail(s.ring); }
  }

  lemma {:induction false} PopsAccounted(s: Sys, acts: seq<Act>)
    requires Inv(s)
    ensures |s.pops| + (if Popping(s.consumer) then 1 else 0) + PopsStarted(s, acts)
         == |Run(s, acts).pops| + (if Popping(Run(s, acts).consumer) then 1 else 0)
    decreases |acts|
  {
    hide Step, Inv, StartsPop;
    if acts != [] {
      StepInv(s, acts[0]);
      StepPops(s, acts[0]);
      PopsAccounted(Step(s, acts[0]), acts[1..]);
    }
  }

  lemma {:induction false} StepPops(s: Sys, a: Act)
    requires Inv(s)
    ensures |s.pops| + (if Popping(s.consumer) then 1 else 0) + (if StartsPop(s, a) then 1 else 0)
         == |Step(s, a).pops| + (if Popping(Step(s, a).consumer) then 1 else 0)
  {
    hide Exclusive, Ring.Queued;
  }

  /** No started pop disappears: each has its record, but for one that is still under way. */
  lemma {:induction false} PopsRecorded(producers: nat, acts: seq<Act>)
    ensures var s := Start(producers); var t := Run(s, acts);
      PopsStarted(s, acts) == |t.pops| + if Popping(t.consumer) then 1 else 0
  {
    PopsAccounted(Start(producers), acts);
  }

  // ---- Progress ----------------------------------------------------------------------

  function Alone(i: nat, e: Event, n: nat): seq<Act> { seq(n, _ => Produce(i, e)) }

  lemma {:induction false} RunMore(s: Sys, acts: seq<Act>, a: Act)
    ensures Run(s, acts + [a]) == Step(Run(s, acts), a)
    decreases |acts|
  {
    hide Step;
    if acts == [] {
      assert acts + [a] == [a] && [a][1..] == [];
    } else {
      assert (acts + [a])[1..] == acts[1..] + [a];
      RunMore(Step(s, acts[0]), acts[1..], a);
    }
  }

  lemma {:induction false} AloneMore(s: Sys, i: nat, e: Event, n: nat)
    ensures Run(s, Alone(i, e, n + 1)) == Step(Run(s, Alone(i, e, n)), Produce(i, e))
  {
    assert Alone(i, e, n + 1) == Alone(i, e, n) + [Produce(i, e)];
    RunMore(s, Alone(i, e, n), Produce(i, e));
  }

  /** With the lock free, the steps of one push, undisturbed, are input_push_event: five of them
      if the ring is full, else seven, after which its event is queued behind the others. */
  lemma {:induction false} PushAlone(s: Sys, i: nat, e: Event)
    requires Inv(s) && s.lock == 0 && i < |s.producers| && s.producers[i].Idle?
    ensures var n := if |s.ring.Queued()| == SIZE - 1 then 5 else 7;
      var t := Run(s, Alone(i, e, n));
      && t.producers == s.producers && t.lock == 0 && t.consumer == s.consumer
      && t.ring.Ok() && t.ring.Queued() == if n == 5 then s.ring.Queued() else s.ring.Queued() + [e]
  {
    hide Run, Ring.Queued, Inv, Step;
    InvRing(s);
    FullAt255(s.ring);
    PushChecks(s, i, e);
    AloneMore(s, i, e, 3);
    AloneMore(s, i, e, 4);
    if |s.ring.Queued()| < SIZE - 1 {
      AloneMore(s, i, e, 5);
      AloneMore(s, i, e, 6);
      PushStores(s, i, e);
    } else {
      PushGivesUp(s, i, e);
    }
  }

  /** The state in which the push has the lock and knows the next head. */
  function Checking(s: Sys, i: nat, e: Event): Sys
    requires i < |s.producers| && s.ring.head < SIZE
  {
    s.(lock := 1, producers := s.producers[i := Checks(e, s.ring.Next())])
  }

  lemma {:induction false} PushChecks(s: Sys, i: nat, e: Event)
    requires s.ring.Ok() && s.lock == 0 && i < |s.producers| && s.producers[i].Idle?
    ensures Run(s, Alone(i, e, 3)) == Checking(s, i, e)
  {
    hide Run;
    RunNone(s, Alone(i, e, 0));
    AloneMore(s, i, e, 0);
    AloneMore(s, i, e, 1);
    AloneMore(s, i, e, 2);
  }

  lemma {:induction false} PushGivesUp(s: Sys, i: nat, e: Event)
    requires s.ring.Ok() && i < |s.producers| && s.producers[i].Idle? && s.lock == 0 && s.ring.Next() == s.ring.tail
    ensures Step(Step(Checking(s, i, e), Produce(i, e)), Produce(i, e)) == s
  {
    assert s.producers[i := Idle] == s.producers;
  }

  lemma {:induction false} PushStores(s: Sys, i: nat, e: Event)
    requires s.ring.Ok() && i < |s.producers| && s.producers[i].Idle? && s.lock == 0 && s.ring.Next() != s.ring.tail
    ensures var p := Produce(i, e);
      var t := Step(Step(Step(Step(Checking(s, i, e), p), p), p), p);
      && t.producers == s.producers && t.lock == 0 && t.consumer == s.consumer
      && t.ring.Ok() && t.ring.Queued() == s.ring.Queued() + [e]
  {
    hide Ring.Queued;
    assert s.producers[i := Idle] == s.producers;
    StoreKeepsQueue(s.ring, e);
    AdvanceHead(s.ring.(buffer := s.ring.buffer[s.ring.head := e]));
  }

  function Turns(bare: bool, n: nat): seq<Act> { seq(n, _ => Consume(bare)) }

  lemma {:induction false} TurnsMore(s: Sys, bare: bool, n: nat)
    ensures Run(s, Turns(bare, n + 1)) == Step(Run(s, Turns(bare, n)), Consume(bare))
  {
    assert Turns(bare, n + 1) == Turns(bare, n) + [Consume(bare)];
    RunMore(s, Turns(bare, n), Consume(bare));
  }

  /** With the lock free, the steps of one pop, undisturbed, are input_pop_event: four of them if
      nothing is queued, else six, after which the oldest event has been taken. */
  lemma {:induction false} PopAlone(s: Sys)
    requires Inv(s) && s.lock == 0 && s.consumer.CIdle?
    ensures var n := if s.ring.Queued() == [] then 4 else 6;
      var t := Run(s, Turns(true, n));
      && t.producers == s.producers && t.lock == 0 && t.consumer.CIdle? && t.ring.Ok()
      && t.pops == s.pops + [Pop(false, n == 6)]
      && (n == 4 ==> t.ring == s.ring && t.popped == s.popped)
      && (n == 6 ==> |t.popped| == |s.popped| + 1 && s.popped <= t.popped
                     && s.ring.Queued() == [t.popped[|s.popped|]] + t.ring.Queued())
  {
    hide Run, Ring.Queued, Inv;
    InvRing(s);
    FullAt255(s.ring);
    RunNone(s, Turns(true, 0));
    TurnsMore(s, true, 0); TurnsMore(s, true, 1); TurnsMore(s, true, 2); TurnsMore(s, true, 3);
    if s.ring.Queued() != [] {
      TurnsMore(s, true, 4); TurnsMore(s, true, 5);
      AdvanceTail(s.ring);
      assert Run(s, Turns(true, 4)).consumer == CAdvances(false, s.ring.buffer[s.ring.tail]);
    }
  }

  /** The main loop, undisturbed, goes on to a pop exactly when something is queued. */
  lemma {:induction false} HasEventsAlone(s: Sys)
    requires Inv(s) && s.consumer.CIdle?
    ensures Run(s, Turns(false, 2)) == s.(consumer := if s.ring.Queued() == [] then CIdle else CWants(true))
  {
    hide Run, Ring.Queued, Exclusive;
    FullAt255(s.ring);
    RunNone(s, Turns(false, 0));
    TurnsMore(s, false, 0);
    TurnsMore(s, false, 1);
  }

  lemma {:induction false} InvRing(s: Sys)
    requires Inv(s)
    ensures s.ring.Ok()
  {
  }

  lemma {:induction false} RunNone(s: Sys, acts: seq<Act>)
    requires acts == []
    ensures Run(s, acts) == s
  {
  }

  /** A thread that spins gets on as soon as the lock is free, and takes it if nobody is faster. */
  lemma {:induction false} SpinEnds(s: Sys, i: nat, e: Event)
    requires s.lock == 0 && i < |s.producers| && s.producers[i].Spins?
    ensures var t := Step(Step(s, Produce(i, e)), Produce(i, e));
      t.producers[i] == Has(s.producers[i].e) && t.lock == 1
    ensures s.consumer.CSpins? ==>
      Step(Step(s, Consume(true)), Consume(true)).consumer == CHas(s.consumer.checked)
  {
  }

  /** While the consumer is stopped inside its critical section, as by an interrupt on the same
      processor, no producer gets anywhere: none gets the lock, none pushes. */
  lemma {:induction false} InterruptedPopBlocks(s: Sys, acts: seq<Act>)
    requires Inv(s) && s.consumer.Holding() && forall k :: 0 <= k < |acts| ==> acts[k].Produce?
    ensures var t := Run(s, acts);
      && t.consumer == s.consumer && t.lock == 1 && t.ring == s.ring && t.accepted == s.accepted
      && forall i :: 0 <= i < |t.producers| ==> !t.producers[i].Holding()
    decreases |acts|
  {
    NoProducerHolds(s);
    if acts != [] {
      StepInv(s, acts[0]);
      InterruptedPopBlocks(Step(s, acts[0]), acts[1..]);
    }
  }
}

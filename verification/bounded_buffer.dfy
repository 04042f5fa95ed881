/**
  The bounded buffer with two condition variables and a stop request, for any number of producers
  and consumers.  The lock, the sleepers and the wakes still to be sent are explicit; threads are
  interleaved arbitrarily, a wake picks any sleeper, and sleepers may wake spuriously.
 */
module BoundedBuffer {
  import opened Laws

  const BUFFER_SIZE := 10
  const TWO_31 := 0x8000_0000
  const TWO_32 := 0x1_0000_0000

  /** Where a producer is: the states from Test to Leave and GiveUp hold the lock. */
  datatype ProducerPC =
    | Produce | PEnter | PTest | PAsleep | PWoken | PStopTest
    | Insert | PLeave | PWake | GiveUp | PExited

  /** Where a consumer is: the states from Test to Leave and Quit hold the lock. */
  datatype ConsumerPC = CEnter | CTest | CAsleep | CWoken | CStopTest | Remove | CLeave | CWake | Quit | CExited

  /** Where the main thread is: waiting for the key, stopping the others, waiting for them to end. */
  datatype MainPC = AwaitKey | MEnter | SetStop | MLeave | WakeProducers | WakeConsumers | Join

  datatype Owner = Nobody | ByProducer(p: nat) | ByConsumer(c: nat) | ByMain

  datatype Producer = Producer(pc: ProducerPC, item: int)

  /** The shared state; enqueued and dequeued record the items that passed, and no step depends on them. */
  datatype State = State(
    producers: seq<Producer>, consumers: seq<ConsumerPC>, main: MainPC, lock: Owner,
    buffer: seq<int>, size: nat, start: nat, lastItem: int, totalProduced: nat, totalConsumed: nat, stop: bool,
    enqueued: seq<int>, dequeued: seq<int>)

  /** Who moves; a thread about to send a wake names the sleeper that receives it. */
  datatype Action =
    | ProducerMoves(p: nat, wakes: nat)
    | ConsumerMoves(c: nat, wakes: nat)
    | MainMoves
    | ProducerWakesSpuriously(p: nat)
    | ConsumerWakesSpuriously(c: nat)

  function Start(producers: nat, consumers: nat, buffer: seq<int>): State {
    State(seq(producers, _ => Producer(Produce, 0)), seq(consumers, _ => CEnter), AwaitKey, Nobody,
          buffer, 0, 0, 0, 0, 0, false, [], [])
  }

  predicate HoldsP(pc: ProducerPC) { pc in {PTest, PStopTest, Insert, PLeave, GiveUp} }

  predicate HoldsC(pc: ConsumerPC) { pc in {CTest, CStopTest, Remove, CLeave, Quit} }

  predicate HoldsM(pc: MainPC) { pc in {SetStop, MLeave} }

  predicate AnyProducerAsleep(s: State) {
    exists p :: 0 <= p < |s.producers| && s.producers[p].pc == PAsleep
  }

  predicate AnyConsumerAsleep(s: State) {
    exists c :: 0 <= c < |s.consumers| && s.consumers[c] == CAsleep
  }

  /** Entering the lock needs it free, a wake goes to a sleeper when there is one, and finished threads do not move. */
  predicate Enabled(s: State, a: Action) {
    match a
    case ProducerMoves(p, wakes) =>
      && p < |s.producers|
      && (match s.producers[p].pc
          case PEnter | PWoken => s.lock == Nobody
          case PAsleep | PExited => false
          case PWake => AnyConsumerAsleep(s) ==> wakes < |s.consumers| && s.consumers[wakes] == CAsleep
          case _ => true)
    case ConsumerMoves(c, wakes) =>
      && c < |s.consumers|
      && (match s.consumers[c]
          case CEnter | CWoken => s.lock == Nobody
          case CAsleep | CExited => false
          case CWake => AnyProducerAsleep(s) ==> wakes < |s.producers| && s.producers[wakes].pc == PAsleep
          case _ => true)
    case MainMoves => s.main != Join && (s.main == MEnter ==> s.lock == Nobody)
    case ProducerWakesSpuriously(p) => p < |s.producers| && s.producers[p].pc == PAsleep
    case ConsumerWakesSpuriously(c) => c < |s.consumers| && s.consumers[c] == CAsleep
  }

  function PGoto(s: State, p: nat, pc: ProducerPC): State
    requires p < |s.producers|
  {
    s.(producers := s.producers[p := s.producers[p].(pc := pc)])
  }

  function CGoto(s: State, c: nat, pc: ConsumerPC): State
    requires c < |s.consumers|
  {
    s.(consumers := s.consumers[c := pc])
  }

  /** InterlockedIncrement of a 32-bit signed counter. */
  function NextItem(x: int): int {
    if x == TWO_31 - 1 then -TWO_31 else x + 1
  }

  /** The shared data after an item was put behind the queue. */
  function Enqueue(s: State, item: int): State
    requires |s.buffer| == BUFFER_SIZE
  {
    s.(buffer := s.buffer[(s.start + s.size) % BUFFER_SIZE := item],
       size := s.size + 1,
       totalProduced := (s.totalProduced + 1) % TWO_32,
       enqueued := s.enqueued + [item])
  }

  /** The shared data after the first item of the queue was taken. */
  function Dequeue(s: State): State
    requires |s.buffer| == BUFFER_SIZE && s.start < BUFFER_SIZE && 0 < s.size
  {
    s.(size := s.size - 1,
       start := if s.start + 1 == BUFFER_SIZE then 0 else s.start + 1,
       totalConsumed := (s.totalConsumed + 1) % TWO_32,
       dequeued := s.dequeued + [s.buffer[s.start]])
  }

  function ProducerStep(s: State, p: nat, wakes: nat): State
    requires Enabled(s, ProducerMoves(p, wakes)) && |s.buffer| == BUFFER_SIZE
  {
    match s.producers[p].pc
    case Produce =>
      s.(lastItem := NextItem(s.lastItem), producers := s.producers[p := Producer(PEnter, NextItem(s.lastItem))])
    case PEnter => PGoto(s, p, PTest).(lock := ByProducer(p))
    case PTest =>
      if s.size == BUFFER_SIZE && !s.stop then PGoto(s, p, PAsleep).(lock := Nobody) else PGoto(s, p, PStopTest)
    case PWoken => PGoto(s, p, PTest).(lock := ByProducer(p))
    case PStopTest => PGoto(s, p, if s.stop then GiveUp else Insert)
    case Insert => PGoto(Enqueue(s, s.producers[p].item), p, PLeave)
    case PLeave => PGoto(s, p, PWake).(lock := Nobody)
    case PWake =>
      if wakes < |s.consumers| && s.consumers[wakes] == CAsleep then PGoto(CGoto(s, wakes, CWoken), p, Produce)
      else PGoto(s, p, Produce)
    case GiveUp => PGoto(s, p, PExited).(lock := Nobody)
  }

  function ConsumerStep(s: State, c: nat, wakes: nat): State
    requires Enabled(s, ConsumerMoves(c, wakes)) && |s.buffer| == BUFFER_SIZE && s.start < BUFFER_SIZE
    requires s.consumers[c] == Remove ==> 0 < s.size
  {
    match s.consumers[c]
    case CEnter => CGoto(s, c, CTest).(lock := ByConsumer(c))
    case CTest =>
      if s.size == 0 && !s.stop then CGoto(s, c, CAsleep).(lock := Nobody) else CGoto(s, c, CStopTest)
    case CWoken => CGoto(s, c, CTest).(lock := ByConsumer(c))
    case CStopTest => CGoto(s, c, if s.stop && s.size == 0 then Quit else Remove)
    case Remove => CGoto(Dequeue(s), c, CLeave)
    case CLeave => CGoto(s, c, CWake).(lock := Nobody)
    case CWake =>
      if wakes < |s.producers| && s.producers[wakes].pc == PAsleep then CGoto(PGoto(s, wakes, PWoken), c, CEnter)
      else CGoto(s, c, CEnter)
    case Quit => CGoto(s, c, CExited).(lock := Nobody)
  }

  function MainStep(s: State): State
    requires Enabled(s, MainMoves)
  {
    match s.main
    case AwaitKey => s.(main := MEnter)
    case MEnter => s.(main := SetStop, lock := ByMain)
    case SetStop => s.(main := MLeave, stop := true)
    case MLeave => s.(main := WakeProducers, lock := Nobody)
    case WakeProducers => s.(main := WakeConsumers, producers := AllProducersWoken(s.producers))
    case WakeConsumers => s.(main := Join, consumers := AllConsumersWoken(s.consumers))
  }

  function AllProducersWoken(ps: seq<Producer>): (r: seq<Producer>)
    ensures |r| == |ps|
    ensures forall p :: 0 <= p < |ps| ==> r[p] == if ps[p].pc == PAsleep then ps[p].(pc := PWoken) else ps[p]
  {
    seq(|ps|, p requires 0 <= p < |ps| => if ps[p].pc == PAsleep then ps[p].(pc := PWoken) else ps[p])
  }

  function AllConsumersWoken(cs: seq<ConsumerPC>): (r: seq<ConsumerPC>)
    ensures |r| == |cs| && forall c :: 0 <= c < |cs| ==> r[c] == if cs[c] == CAsleep then CWoken else cs[c]
  {
    seq(|cs|, c requires 0 <= c < |cs| => if cs[c] == CAsleep then CWoken else cs[c])
  }

  /** The data a step may rely on. */
  predicate Shaped(s: State) {
    |s.buffer| == BUFFER_SIZE && s.start < BUFFER_SIZE && s.size <= BUFFER_SIZE
  }

  predicate CanStep(s: State, a: Action) {
    && Shaped(s) && Enabled(s, a)
    && (a.ConsumerMoves? && s.consumers[a.c] == Remove ==> 0 < s.size)
  }

  function Step(s: State, a: Action): State
    requires CanStep(s, a)
  {
    match a
    case ProducerMoves(p, wakes) => ProducerStep(s, p, wakes)
    case ConsumerMoves(c, wakes) => ConsumerStep(s, c, wakes)
    case MainMoves => MainStep(s)
    case ProducerWakesSpuriously(p) => PGoto(s, p, PWoken)
    case ConsumerWakesSpuriously(c) => CGoto(s, c, CWoken)
  }

  // ---------------------------------------------------------------- the invariant

  /** The items in the circular buffer, oldest first. */
  function Queue(s: State): (q: seq<int>)
    requires Shaped(s)
    ensures |q| == s.size && forall k :: 0 <= k < s.size ==> q[k] == s.buffer[(s.start + k) % BUFFER_SIZE]
  {
    seq(s.size, k requires 0 <= k < s.size => s.buffer[(s.start + k) % BUFFER_SIZE])
  }

  /** What went in came out in the same order, or is still in the buffer; the totals count both, modulo 2^32. */
  ghost predicate DataOk(s: State) {
    && Shaped(s)
    && s.enqueued == s.dequeued + Queue(s)
    && s.totalProduced == |s.enqueued| % TWO_32 && s.totalConsumed == |s.dequeued| % TWO_32
  }

  ghost predicate ProducerOk(s: State, p: nat)
    requires p < |s.producers|
  {
    var pc := s.producers[p].pc;
    && (HoldsP(pc) <==> s.lock == ByProducer(p))
    && (pc == PStopTest ==> s.size < BUFFER_SIZE || s.stop)
    && (pc == Insert ==> s.size < BUFFER_SIZE && !s.stop)
    && (pc == GiveUp || pc == PExited ==> s.stop)
    && (pc == PAsleep ==> s.main !in {WakeConsumers, Join})
  }

  ghost predicate ConsumerOk(s: State, c: nat)
    requires c < |s.consumers|
  {
    var pc := s.consumers[c];
    && (HoldsC(pc) <==> s.lock == ByConsumer(c))
    && (pc == CStopTest ==> 0 < s.size || s.stop)
    && (pc == Remove ==> 0 < s.size)
    && (pc == Quit || pc == CExited ==> s.stop && s.size == 0)
    && (pc == CAsleep ==> s.main != Join)
  }

  ghost predicate MainOk(s: State) {
    && (HoldsM(s.main) <==> s.lock == ByMain)
    && (s.stop <==> s.main in {MLeave, WakeProducers, WakeConsumers, Join})
    && (s.lock.ByProducer? ==> s.lock.p < |s.producers|)
    && (s.lock.ByConsumer? ==> s.lock.c < |s.consumers|)
  }

  /** A wake for a consumer is on its way. */
  ghost predicate ConsumerWakePending(s: State) {
    || s.main in {MLeave, WakeProducers, WakeConsumers}
    || exists p :: 0 <= p < |s.producers| && s.producers[p].pc in {PLeave, PWake}
  }

  /** A wake for a producer is on its way. */
  ghost predicate ProducerWakePending(s: State) {
    || s.main in {MLeave, WakeProducers}
    || exists c :: 0 <= c < |s.consumers| && s.consumers[c] in {CLeave, CWake}
  }

  ghost predicate AllConsumersAsleep(s: State) {
    forall c :: 0 <= c < |s.consumers| ==> s.consumers[c] == CAsleep
  }

  ghost predicate AllProducersAsleep(s: State) {
    forall p :: 0 <= p < |s.producers| ==> s.producers[p].pc == PAsleep
  }

  /** No wakeup is lost: with work to do, not all sleep unless a wake is on its way. */
  ghost predicate NoLostWakeup(s: State) {
    && (0 < s.size && AllConsumersAsleep(s) ==> ConsumerWakePending(s))
    && (s.size < BUFFER_SIZE && AllProducersAsleep(s) ==> ProducerWakePending(s))
  }

  ghost predicate ThreadsOk(s: State) {
    && (forall p :: 0 <= p < |s.producers| ==> ProducerOk(s, p))
    && (forall c :: 0 <= c < |s.consumers| ==> ConsumerOk(s, c))
    && MainOk(s)
  }

  ghost predicate Inv(s: State) {
    && 1 <= |s.producers| && 1 <= |s.consumers|
    && DataOk(s) && ThreadsOk(s) && NoLostWakeup(s)
  }

  lemma StartInv(producers: nat, consumers: nat, buffer: seq<int>)
    requires 1 <= producers && 1 <= consumers && |buffer| == BUFFER_SIZE
    ensures Inv(Start(producers, consumers, buffer))
  {
    var s := Start(producers, consumers, buffer);
    assert s.producers[0].pc == Produce && s.consumers[0] == CEnter;
  }

  // ---------------------------------------------------------------- steps keep the data in order

  lemma Wrap(x: nat)
    requires x < 2 * BUFFER_SIZE
    ensures x % BUFFER_SIZE == if x < BUFFER_SIZE then x else x - BUFFER_SIZE
  {
  }

  lemma EnqueueIsFifo(s: State, item: int)
    requires DataOk(s) && s.size < BUFFER_SIZE
    ensures DataOk(Enqueue(s, item)) && Queue(Enqueue(s, item)) == Queue(s) + [item]
  {
    var q, q' := Queue(s), Queue(Enqueue(s, item));
    forall k | 0 <= k < s.size + 1
      ensures q'[k] == (q + [item])[k]
    {
      Wrap(s.start + k);
      Wrap(s.start + s.size);
    }
    AppendData(s, Enqueue(s, item), item);
  }

  lemma CountOneMore(n: nat)
    ensures (n % TWO_32 + 1) % TWO_32 == (n + 1) % TWO_32
  {
  }

  lemma AppendData(s: State, s': State, item: int)
    requires DataOk(s) && Shaped(s') && Queue(s') == Queue(s) + [item]
    requires s'.enqueued == s.enqueued + [item] && s'.dequeued == s.dequeued
    requires s'.totalProduced == (s.totalProduced + 1) % TWO_32 && s'.totalConsumed == s.totalConsumed
    ensures DataOk(s')
  {
    hide Queue;
    Associate(s.dequeued, Queue(s), [item]);
    CountOneMore(|s.enqueued|);
  }

  lemma DequeueIsFifo(s: State)
    requires DataOk(s) && 0 < s.size
    ensures DataOk(Dequeue(s)) && Queue(s) == [s.buffer[s.start]] + Queue(Dequeue(s))
  {
    var x, q, q' := s.buffer[s.start], Queue(s), Queue(Dequeue(s));
    Wrap(s.start);
    forall k | 0 <= k < s.size
      ensures q[k] == ([x] + q')[k]
    {
      Wrap(s.start + k);
      Wrap(Dequeue(s).start + if k == 0 then 0 else k - 1);
    }
    RemoveData(s, Dequeue(s), x);
  }

  lemma RemoveData(s: State, s': State, x: int)
    requires DataOk(s) && Shaped(s') && Queue(s) == [x] + Queue(s')
    requires s'.enqueued == s.enqueued && s'.dequeued == s.dequeued + [x]
    requires s'.totalConsumed == (s.totalConsumed + 1) % TWO_32 && s'.totalProduced == s.totalProduced
    ensures DataOk(s')
  {
    hide Queue;
    Associate(s.dequeued, [x], Queue(s'));
    CountOneMore(|s.dequeued|);
  }

  lemma SameData(s: State, s': State)
    requires DataOk(s)
    requires s'.buffer == s.buffer && s'.size == s.size && s'.start == s.start
    requires s'.enqueued == s.enqueued && s'.dequeued == s.dequeued
    requires s'.totalProduced == s.totalProduced && s'.totalConsumed == s.totalConsumed
    ensures DataOk(s') && Shaped(s) && Shaped(s') && Queue(s') == Queue(s)
  {
    assert Queue(s') == Queue(s);
  }

  lemma StepIsPossible(s: State, a: Action)
    requires Inv(s) && Enabled(s, a)
    ensures CanStep(s, a)
  {
    if a.ConsumerMoves? { assert ConsumerOk(s, a.c); }
  }

  lemma ProducerStepKeepsData(s: State, a: Action)
    requires Inv(s) && CanStep(s, a) && a.ProducerMoves?
    ensures DataOk(Step(s, a)) && Shaped(Step(s, a))
    ensures s.producers[a.p].pc == Insert ==> !s.stop && Queue(Step(s, a)) == Queue(s) + [s.producers[a.p].item]
    ensures s.producers[a.p].pc != Insert ==> Queue(Step(s, a)) == Queue(s)
  {
    hide DataOk, NoLostWakeup, MainOk;
    var s' := Step(s, a);
    if s.producers[a.p].pc == Insert {
      assert ProducerOk(s, a.p);
      EnqueueIsFifo(s, s.producers[a.p].item);
      SameData(Enqueue(s, s.producers[a.p].item), s');
    } else {
      SameData(s, s');
    }
  }

  lemma ConsumerStepKeepsData(s: State, a: Action)
    requires Inv(s) && CanStep(s, a) && a.ConsumerMoves?
    ensures DataOk(Step(s, a)) && Shaped(Step(s, a))
    ensures s.consumers[a.c] == Remove ==> Queue(s) == [s.buffer[s.start]] + Queue(Step(s, a))
    ensures s.consumers[a.c] != Remove ==> Queue(Step(s, a)) == Queue(s)
  {
    hide DataOk, NoLostWakeup, MainOk;
    var s' := Step(s, a);
    if s.consumers[a.c] == Remove {
      DequeueIsFifo(s);
      SameData(Dequeue(s), s');
    } else {
      SameData(s, s');
    }
  }

  lemma StepKeepsData(s: State, a: Action)
    requires Inv(s) && CanStep(s, a)
    ensures DataOk(Step(s, a)) && Shaped(Step(s, a))
    ensures !a.ProducerMoves? && !a.ConsumerMoves? ==> Queue(Step(s, a)) == Queue(s)
  {
    hide DataOk, ThreadsOk, NoLostWakeup, Queue, ProducerStep, ConsumerStep;
    match a
    case ProducerMoves(_, _) => ProducerStepKeepsData(s, a);
    case ConsumerMoves(_, _) => ConsumerStepKeepsData(s, a);
    case _ => SameData(s, Step(s, a));
  }

  // ---------------------------------------------------------------- steps keep the threads in order

  /** The mover is in order, and so is the thread looked at. */
  ghost predicate MoverOk(s: State, a: Action) {
    && CanStep(s, a) && MainOk(s)
    && (a.ProducerMoves? ==> ProducerOk(s, a.p)) && (a.ConsumerMoves? ==> ConsumerOk(s, a.c))
    && (a.ProducerWakesSpuriously? ==> ProducerOk(s, a.p)) && (a.ConsumerWakesSpuriously? ==> ConsumerOk(s, a.c))
  }

  lemma ProducerStepKeepsMain(s: State, a: Action)
    requires MoverOk(s, a) && a.ProducerMoves?
    ensures MainOk(Step(s, a))
    ensures |Step(s, a).producers| == |s.producers| && |Step(s, a).consumers| == |s.consumers|
  {
  }

  lemma ConsumerStepKeepsMain(s: State, a: Action)
    requires MoverOk(s, a) && a.ConsumerMoves?
    ensures MainOk(Step(s, a))
    ensures |Step(s, a).producers| == |s.producers| && |Step(s, a).consumers| == |s.consumers|
  {
  }

  lemma StepKeepsMain(s: State, a: Action)
    requires MoverOk(s, a)
    ensures MainOk(Step(s, a))
    ensures |Step(s, a).producers| == |s.producers| && |Step(s, a).consumers| == |s.consumers|
  {
    hide ProducerStep, ConsumerStep;
    match a
    case ProducerMoves(_, _) => ProducerStepKeepsMain(s, a);
    case ConsumerMoves(_, _) => ConsumerStepKeepsMain(s, a);
    case _ =>
  }

  lemma ProducerStepKeepsProducer(s: State, a: Action, q: nat)
    requires MoverOk(s, a) && a.ProducerMoves? && q < |s.producers| && ProducerOk(s, q)
    ensures q < |Step(s, a).producers| && ProducerOk(Step(s, a), q)
  {
  }

  lemma ProducerStepKeepsConsumer(s: State, a: Action, d: nat)
    requires MoverOk(s, a) && a.ProducerMoves? && d < |s.consumers| && ConsumerOk(s, d)
    ensures d < |Step(s, a).consumers| && ConsumerOk(Step(s, a), d)
  {
  }

  lemma ConsumerStepKeepsProducer(s: State, a: Action, q: nat)
    requires MoverOk(s, a) && a.ConsumerMoves? && q < |s.producers| && ProducerOk(s, q)
    ensures q < |Step(s, a).producers| && ProducerOk(Step(s, a), q)
  {
  }

  lemma ConsumerStepKeepsConsumer(s: State, a: Action, d: nat)
    requires MoverOk(s, a) && a.ConsumerMoves? && d < |s.consumers| && ConsumerOk(s, d)
    ensures d < |Step(s, a).consumers| && ConsumerOk(Step(s, a), d)
  {
  }

  lemma OtherStepKeepsProducer(s: State, a: Action, q: nat)
    requires MoverOk(s, a) && !a.ProducerMoves? && !a.ConsumerMoves? && q < |s.producers| && ProducerOk(s, q)
    ensures q < |Step(s, a).producers| && ProducerOk(Step(s, a), q)
  {
  }

  lemma OtherStepKeepsConsumer(s: State, a: Action, d: nat)
    requires MoverOk(s, a) && !a.ProducerMoves? && !a.ConsumerMoves? && d < |s.consumers| && ConsumerOk(s, d)
    ensures d < |Step(s, a).consumers| && ConsumerOk(Step(s, a), d)
  {
  }

  lemma StepKeepsThreads(s: State, a: Action)
    requires Inv(s) && CanStep(s, a)
    ensures ThreadsOk(Step(s, a))
    ensures |Step(s, a).producers| == |s.producers| && |Step(s, a).consumers| == |s.consumers|
  {
    hide ProducerOk, ConsumerOk, MainOk, DataOk, NoLostWakeup, Step;
    StepKeepsMain(s, a);
    forall q | 0 <= q < |s.producers|
      ensures ProducerOk(Step(s, a), q)
    {
      if a.ProducerMoves? { ProducerStepKeepsProducer(s, a, q); }
      else if a.ConsumerMoves? { ConsumerStepKeepsProducer(s, a, q); }
      else { OtherStepKeepsProducer(s, a, q); }
    }
    forall d | 0 <= d < |s.consumers|
      ensures ConsumerOk(Step(s, a), d)
    {
      if a.ProducerMoves? { ProducerStepKeepsConsumer(s, a, d); }
      else if a.ConsumerMoves? { ConsumerStepKeepsConsumer(s, a, d); }
      else { OtherStepKeepsConsumer(s, a, d); }
    }
  }

  // ---------------------------------------------------------------- no wakeup is lost

  lemma ProducerStepLosesNoWakeup(s: State, p: nat, wakes: nat)
    requires Inv(s) && CanStep(s, ProducerMoves(p, wakes))
    ensures NoLostWakeup(Step(s, ProducerMoves(p, wakes)))
  {
    hide DataOk, ProducerOk, ConsumerOk, MainOk;
    var s' := ProducerStep(s, p, wakes);
    if s.producers[p].pc == PWake {
      WakeReachesAConsumer(s, p, wakes);
    } else if 0 < s'.size && AllConsumersAsleep(s') {
      StillPendingForConsumers(s, p, wakes);
    }
    assert s'.size < BUFFER_SIZE ==> s'.producers[p].pc != PAsleep;
  }

  lemma WakeReachesAConsumer(s: State, p: nat, wakes: nat)
    requires Inv(s) && CanStep(s, ProducerMoves(p, wakes)) && s.producers[p].pc == PWake
    ensures !AllConsumersAsleep(ProducerStep(s, p, wakes))
  {
    hide DataOk, ThreadsOk, NoLostWakeup;
    var s' := ProducerStep(s, p, wakes);
    if AnyConsumerAsleep(s) {
      assert s'.consumers[wakes] == CWoken;
    } else {
      assert s'.consumers[0] != CAsleep;
    }
  }

  lemma WakeReachesAProducer(s: State, c: nat, wakes: nat)
    requires Inv(s) && CanStep(s, ConsumerMoves(c, wakes)) && s.consumers[c] == CWake
    ensures !AllProducersAsleep(ConsumerStep(s, c, wakes))
  {
    hide DataOk, ThreadsOk, NoLostWakeup;
    var s' := ConsumerStep(s, c, wakes);
    if AnyProducerAsleep(s) {
      assert s'.producers[wakes].pc == PWoken;
    } else {
      assert s'.producers[0].pc != PAsleep;
    }
  }

  /** While consumers are wanted and asleep, the wake a producer owes is sent by nobody else. */
  lemma StillPendingForConsumers(s: State, p: nat, wakes: nat)
    requires Inv(s) && CanStep(s, ProducerMoves(p, wakes)) && s.producers[p].pc != PWake
    requires var s' := ProducerStep(s, p, wakes); 0 < s'.size && AllConsumersAsleep(s')
    ensures ConsumerWakePending(ProducerStep(s, p, wakes))
  {
    hide DataOk, ProducerOk, ConsumerOk, MainOk;
    var s' := ProducerStep(s, p, wakes);
    assert s'.consumers[0] == CAsleep;
    forall c | 0 <= c < |s.consumers|
      ensures s.consumers[c] == CAsleep
    {
      assert s'.consumers[c] == CAsleep;
    }
    if s.producers[p].pc in {Insert, PLeave} {
      assert s'.producers[p].pc in {PLeave, PWake};
    } else {
      assert s'.size == s.size && ConsumerWakePending(s);
      if s.main !in {MLeave, WakeProducers, WakeConsumers} {
        var q :| 0 <= q < |s.producers| && s.producers[q].pc in {PLeave, PWake};
        assert s'.producers[q].pc in {PLeave, PWake};
      }
    }
  }

  lemma ConsumerStepLosesNoWakeup(s: State, c: nat, wakes: nat)
    requires Inv(s) && CanStep(s, ConsumerMoves(c, wakes))
    ensures NoLostWakeup(Step(s, ConsumerMoves(c, wakes)))
  {
    hide DataOk, ProducerOk, ConsumerOk, MainOk;
    var s' := ConsumerStep(s, c, wakes);
    if s.consumers[c] == CWake {
      WakeReachesAProducer(s, c, wakes);
    } else if s'.size < BUFFER_SIZE && AllProducersAsleep(s') {
      StillPendingForProducers(s, c, wakes);
    }
    assert 0 < s'.size ==> s'.consumers[c] != CAsleep;
  }

  /** While producers are wanted and asleep, the wake a consumer owes is sent by nobody else. */
  lemma StillPendingForProducers(s: State, c: nat, wakes: nat)
    requires Inv(s) && CanStep(s, ConsumerMoves(c, wakes)) && s.consumers[c] != CWake
    requires var s' := ConsumerStep(s, c, wakes); s'.size < BUFFER_SIZE && AllProducersAsleep(s')
    ensures ProducerWakePending(ConsumerStep(s, c, wakes))
  {
    hide DataOk, ProducerOk, ConsumerOk, MainOk;
    var s' := ConsumerStep(s, c, wakes);
    assert s'.producers[0].pc == PAsleep;
    forall p | 0 <= p < |s.producers|
      ensures s.producers[p].pc == PAsleep
    {
      assert s'.producers[p].pc == PAsleep;
    }
    if s.consumers[c] in {Remove, CLeave} {
      assert s'.consumers[c] in {CLeave, CWake};
    } else {
      assert s'.size == s.size && ProducerWakePending(s);
      if s.main !in {MLeave, WakeProducers} {
        var d :| 0 <= d < |s.consumers| && s.consumers[d] in {CLeave, CWake};
        assert s'.consumers[d] in {CLeave, CWake};
      }
    }
  }

  lemma OtherStepLosesNoWakeup(s: State, a: Action)
    requires Inv(s) && CanStep(s, a) && !a.ProducerMoves? && !a.ConsumerMoves?
    ensures NoLostWakeup(Step(s, a))
  {
    hide DataOk, ProducerOk, ConsumerOk;
    var s' := Step(s, a);
    if 0 < s'.size && AllConsumersAsleep(s') {
      assert s'.consumers[0] == CAsleep;
      forall c | 0 <= c < |s.consumers|
        ensures s.consumers[c] == CAsleep
      {
        assert s'.consumers[c] == CAsleep;
      }
      if s.main !in {MLeave, WakeProducers, WakeConsumers} {
        var q :| 0 <= q < |s.producers| && s.producers[q].pc in {PLeave, PWake};
        assert s'.producers[q].pc in {PLeave, PWake};
      }
    }
    if s'.size < BUFFER_SIZE && AllProducersAsleep(s') {
      assert s'.producers[0].pc == PAsleep;
      forall p | 0 <= p < |s.producers|
        ensures s.producers[p].pc == PAsleep
      {
        assert s'.producers[p].pc == PAsleep;
      }
      if s.main !in {MLeave, WakeProducers} {
        var d :| 0 <= d < |s.consumers| && s.consumers[d] in {CLeave, CWake};
        assert s'.consumers[d] in {CLeave, CWake};
      }
    }
  }

  /** Every step anyone can take keeps the invariant. */
  lemma StepKeepsInv(s: State, a: Action)
    requires Inv(s) && CanStep(s, a)
    ensures Inv(Step(s, a))
  {
    hide DataOk, ThreadsOk, NoLostWakeup, Step;
    StepKeepsData(s, a);
    StepKeepsThreads(s, a);
    match a
    case ProducerMoves(p, wakes) => ProducerStepLosesNoWakeup(s, p, wakes);
    case ConsumerMoves(c, wakes) => ConsumerStepLosesNoWakeup(s, c, wakes);
    case _ => OtherStepLosesNoWakeup(s, a);
  }

  // ---------------------------------------------------------------- whole runs

  ghost predicate StepsTo(s: State, a: Action, s': State) {
    Enabled(s, a) && (CanStep(s, a) ==> s' == Step(s, a))
  }

  ghost predicate IsRun(producers: nat, consumers: nat, buffer: seq<int>, actions: seq<Action>, states: seq<State>) {
    && 1 <= producers && 1 <= consumers && |buffer| == 10
    && |states| == |actions| + 1 && states[0] == Start(producers, consumers, buffer)
    && forall k :: 0 <= k < |actions| ==> StepsTo(states[k], actions[k], states[k + 1])
  }

  lemma {:induction false} RunsKeepInv(
      producers: nat, consumers: nat, buffer: seq<int>, actions: seq<Action>, states: seq<State>, k: nat)
    requires IsRun(producers, consumers, buffer, actions, states) && k < |states|
    ensures Inv(states[k])
  {
    if k == 0 {
      StartInv(producers, consumers, buffer);
    } else {
      RunsKeepInv(producers, consumers, buffer, actions, states, k - 1);
      assert StepsTo(states[k - 1], actions[k - 1], states[k - 1 + 1]);
      StepIsPossible(states[k - 1], actions[k - 1]);
      StepKeepsInv(states[k - 1], actions[k - 1]);
    }
  }

  /**
    In every run the buffer is a FIFO queue: what was taken out is a prefix of what was put in, the rest
    is in the buffer, never more than it holds, and the totals differ, modulo 2^32, by the queue size.
   */
  lemma RunsAreFifo(producers: nat, consumers: nat, buffer: seq<int>, actions: seq<Action>, states: seq<State>, k: nat)
    requires IsRun(producers, consumers, buffer, actions, states) && k < |states|
    ensures var s := states[k];
            && Shaped(s) && |s.buffer| == 10 && s.size <= 10
            && s.dequeued <= s.enqueued && s.enqueued[|s.dequeued|..] == Queue(s)
            && (s.totalProduced - s.totalConsumed) % 0x1_0000_0000 == s.size
  {
    RunsKeepInv(producers, consumers, buffer, actions, states, k);
    var s := states[k];
    Difference(|s.dequeued|, s.size);
  }

  lemma Difference(n: nat, d: nat)
    requires d <= BUFFER_SIZE
    ensures ((n + d) % TWO_32 - n % TWO_32) % TWO_32 == d
  {
  }

  /** Each step leaves the queue alone, puts one item behind it, or takes the item in front. */
  lemma StepsRefineAQueue(s: State, a: Action)
    requires Inv(s) && CanStep(s, a)
    ensures Shaped(s) && Shaped(Step(s, a))
    ensures var (q, q') := (Queue(s), Queue(Step(s, a)));
            || (q' == q && Step(s, a).enqueued == s.enqueued && Step(s, a).dequeued == s.dequeued)
            || (exists x :: q' == q + [x] && !s.stop
                   && Step(s, a).enqueued == s.enqueued + [x] && Step(s, a).dequeued == s.dequeued)
            || (q == [s.buffer[s.start]] + q'
                && Step(s, a).dequeued == s.dequeued + [s.buffer[s.start]] && Step(s, a).enqueued == s.enqueued)
  {
    hide NoLostWakeup, DataOk, Queue, ThreadsOk;
    StepKeepsData(s, a);
    match a
    case ProducerMoves(_, _) => ProducerStepKeepsData(s, a);
    case ConsumerMoves(_, _) => ConsumerStepKeepsData(s, a);
    case _ =>
  }

  /** Nothing is enqueued once the stop has been requested, and the request is never withdrawn. */
  lemma NothingEnqueuedAfterStop(s: State, a: Action)
    requires Inv(s) && CanStep(s, a) && s.stop
    ensures Step(s, a).stop && Step(s, a).enqueued == s.enqueued
  {
    hide NoLostWakeup, DataOk;
    if a.ProducerMoves? { assert ProducerOk(s, a.p); }
  }

  ghost predicate AllExited(s: State) {
    && (forall p :: 0 <= p < |s.producers| ==> s.producers[p].pc == PExited)
    && (forall c :: 0 <= c < |s.consumers| ==> s.consumers[c] == CExited)
  }

  /** Once all threads have exited, everything produced has been consumed and the totals are equal. */
  lemma TotalsAgreeAtTheEnd(
      producers: nat, consumers: nat, buffer: seq<int>, actions: seq<Action>, states: seq<State>, k: nat)
    requires IsRun(producers, consumers, buffer, actions, states) && k < |states| && AllExited(states[k])
    ensures states[k].totalProduced == states[k].totalConsumed && states[k].dequeued == states[k].enqueued
  {
    RunsKeepInv(producers, consumers, buffer, actions, states, k);
    assert ConsumerOk(states[k], 0);
  }

  // ---------------------------------------------------------------- nobody stays asleep, nothing deadlocks

  /** After the stop sequence no thread is asleep. */
  lemma NobodySleepsAfterStop(s: State)
    requires Inv(s) && s.main == Join
    ensures !AnyProducerAsleep(s) && !AnyConsumerAsleep(s)
  {
    hide DataOk, NoLostWakeup;
    forall p | 0 <= p < |s.producers|
      ensures s.producers[p].pc != PAsleep
    {
      assert ProducerOk(s, p);
    }
    forall c | 0 <= c < |s.consumers|
      ensures s.consumers[c] != CAsleep
    {
      assert ConsumerOk(s, c);
    }
  }

  /**
    No wakeup is lost in any run: with items to take not all consumers sleep, and with room left not all
    producers do, unless a wake for them is on its way; and after the stop sequence nobody sleeps.
   */
  lemma RunsLoseNoWakeup(
      producers: nat, consumers: nat, buffer: seq<int>, actions: seq<Action>, states: seq<State>, k: nat)
    requires IsRun(producers, consumers, buffer, actions, states) && k < |states|
    ensures NoLostWakeup(states[k])
    ensures states[k].main == Join ==> !AnyProducerAsleep(states[k]) && !AnyConsumerAsleep(states[k])
  {
    RunsKeepInv(producers, consumers, buffer, actions, states, k);
    if states[k].main == Join {
      NobodySleepsAfterStop(states[k]);
    }
  }

  /** A move by a worker, or by the main thread once it has begun to stop them; not a spurious wake, not the key. */
  predicate Proper(s: State, a: Action) {
    a.ProducerMoves? || a.ConsumerMoves? || (a.MainMoves? && s.main != AwaitKey)
  }

  /** No reachable state is deadlocked: until all have exited, some thread can move without any luck or help. */
  lemma NoDeadlock(producers: nat, consumers: nat, buffer: seq<int>, actions: seq<Action>, states: seq<State>, k: nat)
    requires IsRun(producers, consumers, buffer, actions, states) && k < |states| && !AllExited(states[k])
    ensures exists a :: CanStep(states[k], a) && Proper(states[k], a)
  {
    RunsKeepInv(producers, consumers, buffer, actions, states, k);
    var a := Runnable(states[k]);
    StepIsPossible(states[k], a);
  }

  predicate AwakeP(pc: ProducerPC) { pc != PAsleep && pc != PExited }

  predicate AwakeC(pc: ConsumerPC) { pc != CAsleep && pc != CExited }

  /** With the lock free and the main thread not in the middle of stopping, some worker is awake. */
  lemma SomeoneIsAwake(s: State)
    requires Inv(s) && !AllExited(s) && s.lock == Nobody && s.main !in {MEnter, WakeProducers, WakeConsumers}
    ensures (exists p :: 0 <= p < |s.producers| && AwakeP(s.producers[p].pc))
            || (exists c :: 0 <= c < |s.consumers| && AwakeC(s.consumers[c]))
  {
    hide DataOk;
    forall p | 0 <= p < |s.producers|
      ensures (s.producers[p].pc == PExited ==> s.stop) && s.producers[p].pc !in {PLeave, GiveUp}
    {
      assert ProducerOk(s, p);
    }
    forall c | 0 <= c < |s.consumers|
      ensures (s.consumers[c] == CExited ==> s.stop) && s.consumers[c] !in {CLeave, Quit}
    {
      assert ConsumerOk(s, c);
    }
    if s.main == Join {
      NobodySleepsAfterStop(s);
    } else {
      assert s.main == AwaitKey;
      assert AllProducersAsleep(s) ==> !ConsumerWakePending(s);
      assert AllConsumersAsleep(s) ==> !ProducerWakePending(s);
    }
  }

  lemma SleepersToWake(s: State) returns (p: nat, c: nat)
    ensures AnyProducerAsleep(s) ==> p < |s.producers| && s.producers[p].pc == PAsleep
    ensures AnyConsumerAsleep(s) ==> c < |s.consumers| && s.consumers[c] == CAsleep
  {
    p, c := 0, 0;
    if AnyProducerAsleep(s) {
      p :| p < |s.producers| && s.producers[p].pc == PAsleep;
    }
    if AnyConsumerAsleep(s) {
      c :| c < |s.consumers| && s.consumers[c] == CAsleep;
    }
  }

  lemma Runnable(s: State) returns (a: Action)
    requires Inv(s) && !AllExited(s)
    ensures Enabled(s, a) && Proper(s, a)
  {
    hide DataOk, NoLostWakeup, AllExited;
    var sleepingP, sleepingC := SleepersToWake(s);
    if s.lock.ByProducer? {
      a := ProducerMoves(s.lock.p, sleepingC);
      assert ProducerOk(s, s.lock.p);
    } else if s.lock.ByConsumer? {
      a := ConsumerMoves(s.lock.c, sleepingP);
      assert ConsumerOk(s, s.lock.c);
    } else if s.lock.ByMain? || s.main in {MEnter, WakeProducers, WakeConsumers} {
      a := MainMoves;
    } else {
      SomeoneIsAwake(s);
      if p :| 0 <= p < |s.producers| && AwakeP(s.producers[p].pc) {
        a := ProducerMoves(p, sleepingC);
      } else {
        var c :| 0 <= c < |s.consumers| && AwakeC(s.consumers[c]);
        a := ConsumerMoves(c, sleepingP);
      }
    }
  }

  // ---------------------------------------------------------------- after the stop the run drains

  /** How many steps a producer has left once the stop has been requested. */
  function RankP(t: Producer): nat {
    match t.pc
    case PLeave => 7 case PWake => 6 case Produce => 5 case PEnter => 4 case PWoken => 4
    case PTest => 3 case PStopTest => 2 case GiveUp => 1
    case PExited => 0
    case Insert => 8 case PAsleep => 5
  }

  /** How many steps a consumer has left once the stop has been requested, not counting the items it will take. */
  function RankC(pc: ConsumerPC): nat {
    match pc
    case CLeave => 6 case CWake => 5 case CEnter => 4 case CWoken => 4
    case CTest => 3 case CStopTest => 2 case Quit => 1 case Remove => 1
    case CExited => 0
    case CAsleep => 5
  }

  /** How many steps the main thread has left. */
  function RankM(pc: MainPC): nat {
    match pc
    case AwaitKey => 6 case MEnter => 5 case SetStop => 4
    case MLeave => 3 case WakeProducers => 2 case WakeConsumers => 1
    case Join => 0
  }

  function StepsLeft(s: State): nat {
    Total(RankP, s.producers) + Total(RankC, s.consumers) + RankM(s.main) + 6 * s.size
  }

  lemma ProducerDrains(s: State, a: Action)
    requires Inv(s) && CanStep(s, a) && s.stop && a.ProducerMoves?
    ensures StepsLeft(Step(s, a)) < StepsLeft(s)
  {
    hide DataOk, NoLostWakeup, Total;
    var s' := Step(s, a);
    assert ProducerOk(s, a.p);
    TotalUpdate(RankP, s.producers, a.p, s'.producers[a.p]);
    assert s'.producers == s.producers[a.p := s'.producers[a.p]];
    if s'.consumers != s.consumers {
      TotalUpdate(RankC, s.consumers, a.wakes, CWoken);
    }
  }

  lemma ConsumerDrains(s: State, a: Action)
    requires Inv(s) && CanStep(s, a) && s.stop && a.ConsumerMoves?
    ensures StepsLeft(Step(s, a)) < StepsLeft(s)
  {
    hide DataOk, NoLostWakeup, Total;
    var s' := Step(s, a);
    assert ConsumerOk(s, a.c);
    TotalUpdate(RankC, s.consumers, a.c, s'.consumers[a.c]);
    assert s'.consumers == s.consumers[a.c := s'.consumers[a.c]];
    if s'.producers != s.producers {
      TotalUpdate(RankP, s.producers, a.wakes, s'.producers[a.wakes]);
    }
  }

  lemma OthersDrain(s: State, a: Action)
    requires Inv(s) && CanStep(s, a) && s.stop && !a.ProducerMoves? && !a.ConsumerMoves?
    ensures StepsLeft(Step(s, a)) < StepsLeft(s)
  {
    hide DataOk, NoLostWakeup, Total;
    match a
    case MainMoves =>
      TotalsApart(RankP, AllProducersWoken(s.producers), s.producers, 0);
      TotalsApart(RankC, AllConsumersWoken(s.consumers), s.consumers, 0);
    case ProducerWakesSpuriously(p) => TotalUpdate(RankP, s.producers, p, s.producers[p].(pc := PWoken));
    case ConsumerWakesSpuriously(c) => TotalUpdate(RankC, s.consumers, c, CWoken);
  }

  /** Once the stop has been requested every step anyone can take, a spurious wake included, brings the end closer. */
  lemma EveryStepDrains(s: State, a: Action)
    requires Inv(s) && CanStep(s, a) && s.stop
    ensures StepsLeft(Step(s, a)) < StepsLeft(s) && Step(s, a).stop
  {
    NothingEnqueuedAfterStop(s, a);
    hide Inv, CanStep, Step, StepsLeft;
    match a
    case ProducerMoves(_, _) => ProducerDrains(s, a);
    case ConsumerMoves(_, _) => ConsumerDrains(s, a);
    case _ => OthersDrain(s, a);
  }

  /**
    Once the stop has been requested a run that goes on ends within StepsLeft steps: as long as it moves
    the bound falls, and when nobody can move all threads have exited.
   */
  lemma {:induction false} StoppedRunsEnd(actions: seq<Action>, states: seq<State>)
    requires |states| == |actions| + 1 && Inv(states[0]) && states[0].stop
    requires forall k :: 0 <= k < |actions| ==> StepsTo(states[k], actions[k], states[k + 1])
    ensures |actions| <= StepsLeft(states[0])
    ensures Inv(states[|actions|]) && ((forall a :: !CanStep(states[|actions|], a)) ==> AllExited(states[|actions|]))
    decreases |actions|
  {
    if actions == [] {
      var s := states[0];
      if !AllExited(s) {
        var a := Runnable(s);
        StepIsPossible(s, a);
      }
    } else {
      assert StepsTo(states[0], actions[0], states[0 + 1]);
      StepIsPossible(states[0], actions[0]);
      StepKeepsInv(states[0], actions[0]);
      EveryStepDrains(states[0], actions[0]);
      forall k | 0 <= k < |actions[1..]|
        ensures StepsTo(states[1..][k], actions[1..][k], states[1..][k + 1])
      {
        assert StepsTo(states[k + 1], actions[k + 1], states[k + 1 + 1]);
      }
      StoppedRunsEnd(actions[1..], states[1..]);
      assert states[1..][|actions| - 1] == states[|actions|];
    }
  }

  // ---------------------------------------------------------------- items keep flowing

  /** How far a producer has come since it last inserted an item. */
  function WayP(t: Producer): (k: nat)
    ensures k <= 9
  {
    match t.pc
    case PLeave => 0 case PWake => 1 case Produce => 4 case PEnter => 5 case PWoken => 5
    case PTest => 6 case PAsleep => 7 case PStopTest => 7
    case Insert => 8 case GiveUp => 8 case PExited => 9
  }

  /** How far a consumer has come since it last took an item. */
  function WayC(pc: ConsumerPC): (k: nat)
    ensures k <= 8
  {
    match pc
    case CLeave => 0 case CWake => 1 case CEnter => 4 case CWoken => 4
    case CTest => 5 case CAsleep => 6 case CStopTest => 6
    case Remove => 7 case Quit => 7 case CExited => 8
  }

  /** How far the main thread has come; waking everybody sets each sleeper back by two. */
  function WayM(s: State): nat {
    match s.main
    case AwaitKey => 0 case MEnter => 1 case SetStop => 2 case MLeave => 3 case WakeProducers => 4
    case WakeConsumers => 5 + 2 * |s.producers|
    case Join => 6 + 2 * |s.producers| + 2 * |s.consumers|
  }

  /** How far all have come together: every item put in or taken out makes up for the way back to the start. */
  function Way(s: State): nat {
    9 * |s.enqueued| + 8 * |s.dequeued| + Total(WayP, s.producers) + Total(WayC, s.consumers) + WayM(s)
  }

  predicate Spurious(a: Action) {
    a.ProducerWakesSpuriously? || a.ConsumerWakesSpuriously?
  }

  /** A producer's step takes it further, or inserts an item, or wakes a consumer after coming further by three. */
  lemma ProducerEffect(s: State, a: Action)
    requires CanStep(s, a) && a.ProducerMoves?
    ensures var (s', t, t') := (Step(s, a), s.producers[a.p], Step(s, a).producers[a.p]);
            && s'.producers == s.producers[a.p := t'] && s'.dequeued == s.dequeued && s'.main == s.main
            && if s'.consumers == s.consumers then 9 * |s'.enqueued| + WayP(t') > 9 * |s.enqueued| + WayP(t)
               else
                 && s'.enqueued == s.enqueued && WayP(t') == WayP(t) + 3
                 && a.wakes < |s.consumers| && s.consumers[a.wakes] == CAsleep
                 && s'.consumers == s.consumers[a.wakes := CWoken]
  {
  }

  lemma ProducerGoesOn(s: State, a: Action)
    requires CanStep(s, a) && a.ProducerMoves?
    ensures Way(Step(s, a)) > Way(s)
  {
    ProducerEffect(s, a);
    hide Total, Step, CanStep, WayP;
    var s' := Step(s, a);
    TotalUpdate(WayP, s.producers, a.p, s'.producers[a.p]);
    if s'.consumers != s.consumers {
      TotalUpdate(WayC, s.consumers, a.wakes, CWoken);
    }
  }

  lemma ConsumerGoesOn(s: State, a: Action)
    requires CanStep(s, a) && a.ConsumerMoves?
    ensures Way(Step(s, a)) > Way(s)
  {
    hide Total;
    var s' := Step(s, a);
    TotalUpdate(WayC, s.consumers, a.c, s'.consumers[a.c]);
    assert s'.consumers == s.consumers[a.c := s'.consumers[a.c]];
    if s'.producers != s.producers {
      TotalUpdate(WayP, s.producers, a.wakes, s'.producers[a.wakes]);
    }
  }

  lemma OthersGoOn(s: State, a: Action)
    requires CanStep(s, a) && !a.ProducerMoves? && !a.ConsumerMoves?
    ensures if Spurious(a) then Way(Step(s, a)) + 2 >= Way(s) else Way(Step(s, a)) > Way(s)
  {
    hide Total;
    match a
    case MainMoves =>
      TotalsApart(WayP, s.producers, AllProducersWoken(s.producers), 2);
      TotalsApart(WayC, s.consumers, AllConsumersWoken(s.consumers), 2);
    case ProducerWakesSpuriously(p) => TotalUpdate(WayP, s.producers, p, s.producers[p].(pc := PWoken));
    case ConsumerWakesSpuriously(c) => TotalUpdate(WayC, s.consumers, c, CWoken);
  }

  /** How many of the first k actions are spurious wakes. */
  function SpuriousWakes(actions: seq<Action>, k: nat): nat
    requires k <= |actions|
  {
    if k == 0 then 0 else SpuriousWakes(actions, k - 1) + if Spurious(actions[k - 1]) then 1 else 0
  }

  /** Every move brings the run further, and a spurious wake sets it back by no more than two. */
  lemma {:induction false} RunsGoOn(
      producers: nat, consumers: nat, buffer: seq<int>, actions: seq<Action>, states: seq<State>, k: nat)
    requires IsRun(producers, consumers, buffer, actions, states) && k < |states|
    ensures |states[k].producers| == producers && |states[k].consumers| == consumers
    ensures Way(states[k]) + 3 * SpuriousWakes(actions, k) >= Way(states[0]) + k
  {
    hide Way, Step, Inv, CanStep, Enabled;
    if k > 0 {
      RunsGoOn(producers, consumers, buffer, actions, states, k - 1);
      RunsKeepInv(producers, consumers, buffer, actions, states, k - 1);
      var s, a := states[k - 1], actions[k - 1];
      assert StepsTo(s, a, states[k - 1 + 1]);
      StepIsPossible(s, a);
      StepKeepsSizes(s, a);
      match a {
        case ProducerMoves(_, _) => ProducerGoesOn(s, a);
        case ConsumerMoves(_, _) => ConsumerGoesOn(s, a);
        case _ => OthersGoOn(s, a);
      }
    }
  }

  lemma StepKeepsSizes(s: State, a: Action)
    requires Inv(s) && CanStep(s, a)
    ensures |Step(s, a).producers| == |s.producers| && |Step(s, a).consumers| == |s.consumers|
  {
    hide Inv, CanStep, Step;
    StepKeepsThreads(s, a);
  }

  lemma WayIsBounded(s: State)
    requires DataOk(s)
    ensures Way(s) <= 17 * |s.dequeued| + 96 + 11 * |s.producers| + 10 * |s.consumers|
  {
    hide Total, Queue;
    TotalBound(WayP, s.producers, 9);
    TotalBound(WayC, s.consumers, 8);
  }

  /**
    Items keep flowing: a run of this many steps, three for each spurious wake among them, has handed at
    least m items from producers to consumers.
   */
  lemma ItemsFlow(
      producers: nat, consumers: nat, buffer: seq<int>, actions: seq<Action>, states: seq<State>, m: nat)
    requires IsRun(producers, consumers, buffer, actions, states)
    requires |actions| >= 17 * m + 80 + 11 * producers + 10 * consumers + 3 * SpuriousWakes(actions, |actions|)
    ensures |states[|actions|].dequeued| >= m
  {
    var k := |actions|;
    hide Way, SpuriousWakes;
    RunsGoOn(producers, consumers, buffer, actions, states, k);
    RunsKeepInv(producers, consumers, buffer, actions, states, k);
    WayIsBounded(states[k]);
  }
}

/**
  Which items pass through the bounded buffer: the numbers 1, 2, 3, ... as signed 32-bit values, none lost
  and none twice, and in order when there is one producer.
 */
module BufferItems {
  import opened BoundedBuffer

  /** The k-th item produced: k, as a signed 32-bit number. */
  function Item(k: nat): int {
    var w := k % 0x1_0000_0000;
    if w < 0x8000_0000 then w else w - 0x1_0000_0000
  }

  /** The items from the first to the k-th. */
  function FirstItems(k: nat): multiset<int> {
    if k == 0 then multiset{} else FirstItems(k - 1) + multiset{Item(k)}
  }

  /** The item a producer has produced and not inserted, if any. */
  function InHand(t: Producer): multiset<int> {
    if t.pc in {PEnter, PTest, PAsleep, PWoken, PStopTest, Insert, GiveUp, PExited} then multiset{t.item}
    else multiset{}
  }

  function InHands(ps: seq<Producer>): multiset<int> {
    if ps == [] then multiset{} else InHands(ps[..|ps| - 1]) + InHand(ps[|ps| - 1])
  }

  lemma {:induction false} InHandsUpdate(ps: seq<Producer>, i: nat, t: Producer)
    requires i < |ps|
    ensures InHands(ps[i := t]) + InHand(ps[i]) == InHands(ps) + InHand(t)
  {
    hide InHand;
    var n, qs := |ps| - 1, ps[i := t];
    if i == n {
      assert qs[..n] == ps[..n] && qs[n] == t;
    } else {
      InHandsUpdate(ps[..n], i, t);
      assert qs[..n] == ps[..n][i := t] && qs[n] == ps[n] && ps[..n][i] == ps[i];
      Rearrange(InHands(qs[..n]), InHands(ps[..n]), InHand(ps[n]), InHand(ps[i]), InHand(t));
    }
  }

  lemma Rearrange(a: multiset<int>, b: multiset<int>, c: multiset<int>, x: multiset<int>, y: multiset<int>)
    requires a + x == b + y
    ensures (a + c) + x == (b + c) + y
  {
    assert (a + c) + x == (a + x) + c;
  }

  lemma Cancel(a: multiset<int>, b: multiset<int>, x: multiset<int>)
    requires a + x == b + x
    ensures a == b
  {
    forall e: int
      ensures a[e] == b[e]
    {
      assert (a + x)[e] == (b + x)[e];
    }
  }

  lemma {:induction false} SameHands(ps: seq<Producer>, qs: seq<Producer>)
    requires |ps| == |qs| && forall i :: 0 <= i < |ps| ==> InHand(ps[i]) == InHand(qs[i])
    ensures InHands(ps) == InHands(qs)
  {
    hide InHand;
    if ps != [] {
      SameHands(ps[..|ps| - 1], qs[..|qs| - 1]);
    }
  }

  /** How many items have been produced: those enqueued and those in the hands of producers. */
  function Produced(s: State): nat {
    |s.enqueued| + |InHands(s.producers)|
  }

  /** The items enqueued and those in hands are exactly the first ones, and the counter is at the last of them. */
  ghost predicate ItemsOk(s: State) {
    && s.lastItem == Item(Produced(s))
    && multiset(s.enqueued) + InHands(s.producers) == FirstItems(Produced(s))
  }

  lemma NextItemIs(k: nat)
    ensures NextItem(Item(k)) == Item(k + 1)
  {
    if k % 0x1_0000_0000 == 0xFFFF_FFFF {
      assert (k + 1) % 0x1_0000_0000 == 0;
    } else {
      assert (k + 1) % 0x1_0000_0000 == k % 0x1_0000_0000 + 1;
    }
  }

  lemma SameItems(s: State, s': State)
    requires ItemsOk(s) && s'.enqueued == s.enqueued && s'.lastItem == s.lastItem
    requires InHands(s'.producers) == InHands(s.producers)
    ensures ItemsOk(s')
  {
    hide InHands, Item, FirstItems;
  }

  /** What a producer's step does to the items: one more in hand, the one in hand enqueued, or nothing. */
  lemma ProducerItems(s: State, a: Action)
    requires CanStep(s, a) && a.ProducerMoves?
    ensures var (s', t, t') := (Step(s, a), s.producers[a.p], Step(s, a).producers[a.p]);
            && s'.producers == s.producers[a.p := t']
            && match t.pc
               case Produce =>
                 && s'.enqueued == s.enqueued && s'.lastItem == NextItem(s.lastItem)
                 && InHand(t) == multiset{} && InHand(t') == multiset{s'.lastItem}
               case Insert =>
                 && s'.enqueued == s.enqueued + [t.item] && s'.lastItem == s.lastItem
                 && InHand(t) == multiset{t.item} && InHand(t') == multiset{}
               case _ => s'.enqueued == s.enqueued && s'.lastItem == s.lastItem && InHand(t) == InHand(t')
  {
  }

  lemma ItemProduced(s: State, s': State)
    requires ItemsOk(s) && s'.enqueued == s.enqueued && s'.lastItem == NextItem(s.lastItem)
    requires InHands(s'.producers) == InHands(s.producers) + multiset{s'.lastItem}
    ensures ItemsOk(s')
  {
    hide InHands, Item, NextItem, FirstItems;
    NextItemIs(Produced(s));
    OneMoreItem(Produced(s));
  }

  lemma ItemInserted(s: State, s': State, x: int)
    requires ItemsOk(s) && s'.enqueued == s.enqueued + [x] && s'.lastItem == s.lastItem
    requires InHands(s'.producers) + multiset{x} == InHands(s.producers)
    ensures ItemsOk(s')
  {
    hide InHands, Item, FirstItems;
    assert |InHands(s.producers)| == |InHands(s'.producers)| + 1;
  }

  lemma ProducerStepKeepsItems(s: State, a: Action)
    requires CanStep(s, a) && a.ProducerMoves? && ItemsOk(s)
    ensures ItemsOk(Step(s, a))
  {
    ProducerItems(s, a);
    var s', t := Step(s, a), s.producers[a.p];
    hide Step, CanStep, InHands, InHand, ItemsOk, NextItem;
    InHandsUpdate(s.producers, a.p, s'.producers[a.p]);
    match t.pc
    case Produce => ItemProduced(s, s');
    case Insert => ItemInserted(s, s', t.item);
    case _ =>
      Cancel(InHands(s'.producers), InHands(s.producers), InHand(t));
      SameItems(s, s');
  }

  lemma OneMoreItem(k: nat)
    ensures FirstItems(k + 1) == FirstItems(k) + multiset{Item(k + 1)}
  {
  }

  /** The other steps leave the items alone, and what each producer has in hand. */
  lemma OtherItems(s: State, a: Action)
    requires CanStep(s, a) && !a.ProducerMoves?
    ensures var s' := Step(s, a);
            && s'.enqueued == s.enqueued && s'.lastItem == s.lastItem && |s'.producers| == |s.producers|
            && forall i :: 0 <= i < |s.producers| ==>
                 && s'.producers[i].item == s.producers[i].item
                 && (s'.producers[i].pc == s.producers[i].pc
                     || (s'.producers[i].pc == PWoken && s.producers[i].pc == PAsleep))
  {
  }

  lemma OtherStepsKeepItems(s: State, a: Action)
    requires CanStep(s, a) && !a.ProducerMoves? && ItemsOk(s)
    ensures ItemsOk(Step(s, a))
  {
    OtherItems(s, a);
    var s' := Step(s, a);
    hide Step, CanStep, ItemsOk, InHands;
    SameHands(s'.producers, s.producers);
    SameItems(s, s');
  }

  lemma {:induction false} RunsKeepItems(
      producers: nat, consumers: nat, buffer: seq<int>, actions: seq<Action>, states: seq<State>, k: nat)
    requires IsRun(producers, consumers, buffer, actions, states) && k < |states|
    ensures ItemsOk(states[k])
  {
    hide ItemsOk, Step, Inv, CanStep;
    if k == 0 {
      NothingAtStart(producers, consumers, buffer);
    } else {
      RunsKeepItems(producers, consumers, buffer, actions, states, k - 1);
      RunsKeepInv(producers, consumers, buffer, actions, states, k - 1);
      var s, a := states[k - 1], actions[k - 1];
      assert StepsTo(s, a, states[k - 1 + 1]);
      StepIsPossible(s, a);
      if a.ProducerMoves? { ProducerStepKeepsItems(s, a); } else { OtherStepsKeepItems(s, a); }
    }
  }

  lemma {:induction false} NoneInHands(ps: seq<Producer>)
    requires forall i :: 0 <= i < |ps| ==> ps[i].pc == Produce
    ensures InHands(ps) == multiset{}
  {
    if ps != [] { NoneInHands(ps[..|ps| - 1]); }
  }

  lemma NothingAtStart(producers: nat, consumers: nat, buffer: seq<int>)
    ensures ItemsOk(Start(producers, consumers, buffer))
  {
    NoneInHands(Start(producers, consumers, buffer).producers);
  }

  lemma {:induction false} FirstItemsAre(k: nat, x: int)
    requires k < 0x8000_0000
    ensures FirstItems(k)[x] == if 1 <= x <= k then 1 else 0
  {
    hide Item;
    ItemIs(k);
    if k > 0 { FirstItemsAre(k - 1, x); }
  }

  /**
    In every run the items enqueued, together with those producers have in hand, are the first k items, each
    as often as it was produced, k being their number.  Below 2^31 items these are 1, 2, ..., k, each once.
   */
  lemma ItemsAreCounted(
      producers: nat, consumers: nat, buffer: seq<int>, actions: seq<Action>, states: seq<State>, i: nat, x: int)
    requires IsRun(producers, consumers, buffer, actions, states) && i < |states|
    ensures var s := states[i];
            var k := |s.enqueued| + |InHands(s.producers)|;
            var items := multiset(s.enqueued) + InHands(s.producers);
            && items == FirstItems(k)
            && (k < 0x8000_0000 ==> items[x] == if 1 <= x <= k then 1 else 0)
  {
    hide FirstItems, InHands, Item, IsRun, ItemsOk;
    RunsKeepItems(producers, consumers, buffer, actions, states, i);
    CountedOnce(states[i], x);
  }

  lemma CountedOnce(s: State, x: int)
    requires ItemsOk(s)
    ensures var k := |s.enqueued| + |InHands(s.producers)|;
            var items := multiset(s.enqueued) + InHands(s.producers);
            items == FirstItems(k) && (k < 0x8000_0000 ==> items[x] == if 1 <= x <= k then 1 else 0)
  {
    hide FirstItems, InHands, Item;
    if Produced(s) < 0x8000_0000 { FirstItemsAre(Produced(s), x); }
  }

  // ---------------------------------------------------------------- one producer, items in order

  ghost predicate InSequence(xs: seq<int>) {
    forall i :: 0 <= i < |xs| ==> xs[i] == Item(i + 1)
  }

  /** A single producer has in hand, if anything, the item that comes next. */
  ghost predicate OneInOrder(s: State) {
    && |s.producers| == 1
    && InSequence(s.enqueued)
    && s.lastItem == Item(|s.enqueued| + |InHand(s.producers[0])|)
    && (InHand(s.producers[0]) != multiset{} ==> s.producers[0].item == s.lastItem)
  }

  lemma ProducerStepKeepsOrder(s: State, a: Action)
    requires CanStep(s, a) && a.ProducerMoves? && OneInOrder(s)
    ensures OneInOrder(Step(s, a))
  {
    ProducerItems(s, a);
    hide Step, CanStep, Item, NextItem, InHand;
    NextItemIs(|s.enqueued|);
  }

  lemma OtherStepsKeepOrder(s: State, a: Action)
    requires CanStep(s, a) && !a.ProducerMoves? && OneInOrder(s)
    ensures OneInOrder(Step(s, a))
  {
    OtherItems(s, a);
    hide Step, CanStep, Item;
  }

  lemma {:induction false} RunsKeepOrder(
      consumers: nat, buffer: seq<int>, actions: seq<Action>, states: seq<State>, k: nat)
    requires IsRun(1, consumers, buffer, actions, states) && k < |states|
    ensures OneInOrder(states[k])
  {
    if k > 0 {
      hide OneInOrder, Step, Inv, CanStep;
      RunsKeepOrder(consumers, buffer, actions, states, k - 1);
      RunsKeepInv(1, consumers, buffer, actions, states, k - 1);
      var s, a := states[k - 1], actions[k - 1];
      assert StepsTo(s, a, states[k - 1 + 1]);
      StepIsPossible(s, a);
      if a.ProducerMoves? { ProducerStepKeepsOrder(s, a); } else { OtherStepsKeepOrder(s, a); }
    }
  }

  /** With one producer the consumers take 1, 2, 3, ... in order, as signed 32-bit numbers. */
  lemma OneProducerCounts(
      consumers: nat, buffer: seq<int>, actions: seq<Action>, states: seq<State>, k: nat, i: nat)
    requires IsRun(1, consumers, buffer, actions, states) && k < |states| && i < |states[k].dequeued|
    ensures i < 0x7FFF_FFFF ==> states[k].dequeued[i] == i + 1
    ensures (states[k].dequeued[i] - (i + 1)) % 0x1_0000_0000 == 0
    ensures -0x8000_0000 <= states[k].dequeued[i] < 0x8000_0000
  {
    RunsKeepOrder(consumers, buffer, actions, states, k);
    RunsKeepInv(1, consumers, buffer, actions, states, k);
    hide Inv, Item;
    var s := states[k];
    EnqueuedBegins(s, i);
    ItemIs(i + 1);
  }

  lemma EnqueuedBegins(s: State, i: nat)
    requires Inv(s) && i < |s.dequeued|
    ensures i < |s.enqueued| && s.enqueued[i] == s.dequeued[i]
  {
  }

  lemma ItemIs(k: nat)
    ensures (Item(k) - k) % 0x1_0000_0000 == 0 && -0x8000_0000 <= Item(k) < 0x8000_0000
    ensures k < 0x8000_0000 ==> Item(k) == k
  {
  }
}

/**
  The reusable checkpoint barrier: N threads run the same handler over and over, sharing a counter,
  a flag and three binary semaphores.  Every semaphore operation, load and store of shared data is
  a step of its own, and the threads are interleaved arbitrarily.
 */
module CheckpointBarrier {
  import opened Laws

  /** Where a thread is in the handler; Idle is outside it, between two alarms. */
  datatype PC =
    | Idle
    | Wait1 | Load1 | Store1 | Post1
    | Wait2 | Test2 | Spin2 | Save | SetSaved | Load2 | Store2 | Post2
    | Wait3 | Test3 | Spin3 | Reset | Post3
  {
    /** The thread has not decremented the counter in this round. */
    predicate Before() { this in {Idle, Wait1, Load1, Store1} }

    /** The thread has decremented the counter and not yet incremented it. */
    predicate Counted() { this in {Post1, Wait2, Test2, Spin2, Save, SetSaved, Load2, Store2} }

    /** The thread has incremented the counter and not yet left the handler. */
    predicate After() { this in {Post2, Wait3, Test3, Spin3, Reset, Post3} }

    predicate Decrementing() { this in {Load1, Store1} }

    predicate Incrementing() { this in {Load2, Store2} }

    predicate Holds1() { this in {Load1, Store1, Post1} }

    predicate Holds2() { this in {Test2, Spin2, Save, SetSaved, Load2, Store2, Post2} }

    predicate Holds3() { this in {Test3, Spin3, Reset, Post3} }
  }

  /** One thread: its place, its register, and how many rounds it has completed. */
  datatype Thread = Thread(pc: PC, reg: int, done: nat)

  /**
    The shared state.  The owners record who passed each semaphore and log records, for each call
    of savestate, how many rounds every thread had completed; no step depends on them.
   */
  datatype State = State(
    threads: seq<Thread>, count: int, saved: bool, sem1: nat, sem2: nat, sem3: nat,
    owner1: int, owner2: int, owner3: int, log: seq<seq<nat>>)

  const NOBODY := -1

  function Start(n: nat): State {
    State(seq(n, _ => Thread(Idle, 0, 0)), n, false, 1, 1, 1, NOBODY, NOBODY, NOBODY, [])
  }

  /** Only a wait on a semaphore at zero blocks. */
  predicate Enabled(s: State, i: nat)
    requires i < |s.threads|
  {
    match s.threads[i].pc
    case Wait1 => s.sem1 > 0
    case Wait2 => s.sem2 > 0
    case Wait3 => s.sem3 > 0
    case _ => true
  }

  function Goto(s: State, i: nat, pc: PC): State
    requires i < |s.threads|
  {
    s.(threads := s.threads[i := s.threads[i].(pc := pc)])
  }

  function Load(s: State, i: nat, pc: PC): State
    requires i < |s.threads|
  {
    s.(threads := s.threads[i := s.threads[i].(pc := pc, reg := s.count)])
  }

  function Rounds(threads: seq<Thread>): (r: seq<nat>)
    ensures |r| == |threads| && forall j :: 0 <= j < |threads| ==> r[j] == threads[j].done
  {
    seq(|threads|, j requires 0 <= j < |threads| => threads[j].done)
  }

  /** The step thread i takes next. */
  function Step(s: State, i: nat): State
    requires i < |s.threads| && Enabled(s, i)
  {
    var t := s.threads[i];
    match t.pc
    case Idle => Goto(s, i, Wait1)
    case Wait1 => Goto(s, i, Load1).(sem1 := s.sem1 - 1, owner1 := i)
    case Load1 => Load(s, i, Store1)
    case Store1 => Goto(s, i, Post1).(count := t.reg - 1)
    case Post1 => Goto(s, i, Wait2).(sem1 := s.sem1 + 1, owner1 := NOBODY)
    case Wait2 => Goto(s, i, Test2).(sem2 := s.sem2 - 1, owner2 := i)
    case Test2 => Goto(s, i, if !s.saved then Spin2 else Load2)
    case Spin2 => if s.count != 0 then s else Goto(s, i, Save)
    case Save => Goto(s, i, SetSaved).(log := s.log + [Rounds(s.threads)])
    case SetSaved => Goto(s, i, Load2).(saved := true)
    case Load2 => Load(s, i, Store2)
    case Store2 => Goto(s, i, Post2).(count := t.reg + 1)
    case Post2 => Goto(s, i, Wait3).(sem2 := s.sem2 + 1, owner2 := NOBODY)
    case Wait3 => Goto(s, i, Test3).(sem3 := s.sem3 - 1, owner3 := i)
    case Test3 => Goto(s, i, if s.saved then Spin3 else Post3)
    case Spin3 => if s.count != |s.threads| then s else Goto(s, i, Reset)
    case Reset => Goto(s, i, Post3).(saved := false)
    case Post3 =>
      s.(threads := s.threads[i := t.(pc := Idle, done := t.done + 1)], sem3 := s.sem3 + 1, owner3 := NOBODY)
  }

  /** The states of a run of n threads under the given schedule. */
  ghost predicate IsRun(n: nat, schedule: seq<nat>, states: seq<State>) {
    && |states| == |schedule| + 1
    && states[0] == Start(n)
    && forall k :: 0 <= k < |schedule| ==> StepsTo(states[k], schedule[k], states[k + 1])
  }

  ghost predicate StepsTo(s: State, i: nat, s': State) {
    i < |s.threads| && Enabled(s, i) && s' == Step(s, i)
  }

  // ---------------------------------------------------------------- the invariant

  function CountOne(t: Thread): nat {
    if t.pc.Counted() then 1 else 0
  }

  /** How many threads have decremented the counter and not yet incremented it. */
  function Counted(ts: seq<Thread>): nat {
    Total(CountOne, ts)
  }

  lemma {:induction false} CountedExtremes(ts: seq<Thread>)
    ensures Counted(ts) <= |ts|
    ensures Counted(ts) == 0 <==> forall j :: 0 <= j < |ts| ==> !ts[j].pc.Counted()
    ensures Counted(ts) == |ts| <==> forall j :: 0 <= j < |ts| ==> ts[j].pc.Counted()
  {
    if ts != [] {
      var n := |ts| - 1;
      CountedExtremes(ts[..n]);
      assert forall j :: 0 <= j < n ==> ts[..n][j] == ts[j];
    }
  }

  /** Some thread has seen the counter at zero and is about to save or has just saved. */
  predicate Saving(s: State) {
    0 <= s.owner2 < |s.threads| && s.threads[s.owner2].pc in {Save, SetSaved}
  }

  /** All threads are in the round and it is being saved, or has been and the flag is still up. */
  predicate Releasing(s: State) {
    s.saved || Saving(s)
  }

  /** The round of the threads that have decremented the counter and not left the handler. */
  function Round(s: State): int {
    if s.saved || (0 <= s.owner2 < |s.threads| && s.threads[s.owner2].pc == SetSaved) then |s.log| - 1 else |s.log|
  }

  ghost predicate ThreadOk(s: State, i: nat)
    requires i < |s.threads|
  {
    var (t, pc) := (s.threads[i], s.threads[i].pc);
    && (pc.Holds1() <==> s.owner1 == i) && (pc.Holds2() <==> s.owner2 == i) && (pc.Holds3() <==> s.owner3 == i)
    && (pc.Before() ==> !Releasing(s) && t.done == |s.log|)
    && (pc.Counted() ==> t.done == Round(s))
    && (pc.After() ==> !Saving(s) && t.done == |s.log| - 1)
    && (pc in {Load2, Store2, Spin3, Reset} ==> s.saved)
    && (pc in {Spin2, Save, SetSaved, Post3} ==> !s.saved)
    && (pc in {Store1, Store2} ==> t.reg == s.count)
    && (pc in {Save, SetSaved} ==> s.count == 0)
    && (pc == Reset ==> s.count == |s.threads|)
  }

  /** All n entries of v are k. */
  ghost predicate Uniform(v: seq<nat>, n: nat, k: nat) {
    |v| == n && forall j :: 0 <= j < n ==> v[j] == k
  }

  ghost predicate Globals(s: State) {
    && s.count == |s.threads| - Counted(s.threads)
    && Semaphores(s)
  }

  /** Each semaphore is binary: it is down exactly while somebody owns it. */
  ghost predicate Semaphores(s: State) {
    && NOBODY <= s.owner1 < |s.threads| && s.sem1 == (if s.owner1 == NOBODY then 1 else 0)
    && NOBODY <= s.owner2 < |s.threads| && s.sem2 == (if s.owner2 == NOBODY then 1 else 0)
    && NOBODY <= s.owner3 < |s.threads| && s.sem3 == (if s.owner3 == NOBODY then 1 else 0)
  }

  /** The k-th call of savestate found every thread with exactly k rounds completed. */
  ghost predicate LogOk(s: State) {
    forall k :: 0 <= k < |s.log| ==> Uniform(s.log[k], |s.threads|, k)
  }

  ghost predicate Inv(s: State) {
    Globals(s) && LogOk(s) && forall i :: 0 <= i < |s.threads| ==> ThreadOk(s, i)
  }

  lemma StartInv(n: nat)
    ensures Inv(Start(n))
  {
    CountedExtremes(Start(n).threads);
  }

  /** What thread j can tell from an extreme value of the counter. */
  ghost predicate CountOk(s: State, j: nat)
    requires j < |s.threads|
  {
    && (s.count == 0 ==> s.threads[j].pc.Counted())
    && (s.count == |s.threads| ==> !s.threads[j].pc.Counted())
  }

  lemma AllCountOk(s: State)
    requires Globals(s)
    ensures forall j :: 0 <= j < |s.threads| ==> CountOk(s, j)
    ensures 0 <= s.count <= |s.threads|
  {
    CountedExtremes(s.threads);
  }

  /** What a step of thread i relies on: its own place, that of thread j, and that of the thread in section 2. */
  ghost predicate Rely(s: State, i: nat, j: nat) {
    && i < |s.threads| && j < |s.threads| && Enabled(s, i)
    && Globals(s)
    && ThreadOk(s, i) && ThreadOk(s, j) && CountOk(s, i) && CountOk(s, j)
    && (s.owner2 != NOBODY ==> ThreadOk(s, s.owner2) && CountOk(s, s.owner2))
  }

  lemma Section1KeepsThread(s: State, i: nat, j: nat)
    requires Rely(s, i, j) && s.threads[i].pc in {Idle, Wait1, Load1, Store1, Post1}
    ensures ThreadOk(Step(s, i), j)
  {
  }

  lemma EnteringSection2KeepsThread(s: State, i: nat, j: nat)
    requires Rely(s, i, j) && s.threads[i].pc in {Wait2, Test2, Spin2}
    ensures ThreadOk(Step(s, i), j)
  {
  }

  lemma SavingKeepsThread(s: State, i: nat, j: nat)
    requires Rely(s, i, j) && s.threads[i].pc in {Save, SetSaved}
    ensures ThreadOk(Step(s, i), j)
  {
  }

  lemma LeavingSection2KeepsThread(s: State, i: nat, j: nat)
    requires Rely(s, i, j) && s.threads[i].pc in {Load2, Store2, Post2}
    ensures ThreadOk(Step(s, i), j)
  {
  }

  lemma EnteringSection3KeepsThread(s: State, i: nat, j: nat)
    requires Rely(s, i, j) && s.threads[i].pc in {Wait3, Test3, Spin3}
    ensures ThreadOk(Step(s, i), j)
  {
  }

  lemma LeavingSection3KeepsThread(s: State, i: nat, j: nat)
    requires Rely(s, i, j) && s.threads[i].pc in {Reset, Post3}
    ensures ThreadOk(Step(s, i), j)
  {
  }

  lemma StepKeepsGlobals(s: State, i: nat)
    requires Globals(s) && i < |s.threads| && ThreadOk(s, i) && Enabled(s, i)
    ensures Globals(Step(s, i)) && |Step(s, i).threads| == |s.threads|
  {
    StepKeepsCount(s, i);
    StepKeepsSemaphores(s, i);
  }

  lemma StepKeepsCount(s: State, i: nat)
    requires Globals(s) && i < |s.threads| && ThreadOk(s, i) && Enabled(s, i)
    ensures Step(s, i).count == |Step(s, i).threads| - Counted(Step(s, i).threads)
  {
    hide Total, Semaphores;
    var t := Step(s, i).threads[i];
    assert Step(s, i).threads == s.threads[i := t];
    TotalUpdate(CountOne, s.threads, i, t);
  }

  lemma StepKeepsSemaphores(s: State, i: nat)
    requires Semaphores(s) && i < |s.threads| && ThreadOk(s, i) && Enabled(s, i)
    ensures Semaphores(Step(s, i)) && |Step(s, i).threads| == |s.threads|
  {
  }

  lemma StepKeepsLog(s: State, i: nat)
    requires Inv(s) && i < |s.threads| && Enabled(s, i)
    ensures LogOk(Step(s, i))
  {
    hide Globals, Counted;
    if s.threads[i].pc == Save {
      AllCountOk(s);
      assert ThreadOk(s, i);
      forall j | 0 <= j < |s.threads|
        ensures s.threads[j].done == |s.log|
      {
        assert ThreadOk(s, j) && CountOk(s, j);
      }
    }
  }

  /** Every step of every thread keeps the invariant. */
  lemma StepKeepsInv(s: State, i: nat)
    requires Inv(s) && i < |s.threads| && Enabled(s, i)
    ensures Inv(Step(s, i)) && |Step(s, i).threads| == |s.threads|
  {
    hide ThreadOk, CountOk, Globals, LogOk;
    StepKeepsGlobals(s, i);
    StepKeepsLog(s, i);
    AllCountOk(s);
    OwnerOk(s);
    forall j | 0 <= j < |s.threads|
      ensures ThreadOk(Step(s, i), j)
    {
      StepKeepsThread(s, i, j);
    }
  }

  lemma OwnerOk(s: State)
    requires Inv(s)
    ensures s.owner2 != NOBODY ==> 0 <= s.owner2 < |s.threads| && ThreadOk(s, s.owner2)
  {
  }

  lemma StepKeepsThread(s: State, i: nat, j: nat)
    requires Rely(s, i, j)
    ensures ThreadOk(Step(s, i), j)
  {
    hide ThreadOk, CountOk, Globals;
    match s.threads[i].pc
    case Idle | Wait1 | Load1 | Store1 | Post1 => Section1KeepsThread(s, i, j);
    case Wait2 | Test2 | Spin2 => EnteringSection2KeepsThread(s, i, j);
    case Save | SetSaved => SavingKeepsThread(s, i, j);
    case Load2 | Store2 | Post2 => LeavingSection2KeepsThread(s, i, j);
    case Wait3 | Test3 | Spin3 => EnteringSection3KeepsThread(s, i, j);
    case Reset | Post3 => LeavingSection3KeepsThread(s, i, j);
  }

  // ---------------------------------------------------------------- whole runs

  lemma {:induction false} RunsKeepInv(n: nat, schedule: seq<nat>, states: seq<State>, k: nat)
    requires IsRun(n, schedule, states) && k < |states|
    ensures Inv(states[k]) && |states[k].threads| == n
  {
    if k == 0 {
      StartInv(n);
    } else {
      RunsKeepInv(n, schedule, states, k - 1);
      assert StepsTo(states[k - 1], schedule[k - 1], states[k - 1 + 1]);
      StepKeepsInv(states[k - 1], schedule[k - 1]);
    }
  }

  /**
    The k-th call of savestate found exactly k rounds completed by every thread, every completed round
    has been saved, and a thread about to save has all threads in its round with none past it.
   */
  ghost predicate SavedOnce(s: State) {
    && LogOk(s)
    && (forall i :: 0 <= i < |s.threads| ==> s.threads[i].done <= |s.log| <= s.threads[i].done + 1)
    && (forall i, j :: 0 <= i < |s.threads| && 0 <= j < |s.threads| && s.threads[i].pc == Save ==>
          s.threads[j].done == |s.log| && s.threads[j].pc.Counted())
  }

  /** In every run savestate is called exactly once per round, while all threads are in that round. */
  lemma SavedOncePerRound(n: nat, schedule: seq<nat>, states: seq<State>, k: nat)
    requires IsRun(n, schedule, states) && k < |states|
    ensures |states[k].threads| == n && SavedOnce(states[k])
  {
    RunsKeepInv(n, schedule, states, k);
    InvIsSavedOnce(states[k]);
  }

  lemma InvIsSavedOnce(s: State)
    requires Inv(s)
    ensures SavedOnce(s)
  {
    hide Globals;
    AllCountOk(s);
    forall i | 0 <= i < |s.threads|
      ensures s.threads[i].done <= |s.log| <= s.threads[i].done + 1
    {
      assert ThreadOk(s, i);
    }
    forall i, j | 0 <= i < |s.threads| && 0 <= j < |s.threads| && s.threads[i].pc == Save
      ensures s.threads[j].done == |s.log| && s.threads[j].pc.Counted()
    {
      assert ThreadOk(s, i) && ThreadOk(s, j) && CountOk(s, j);
    }
  }

  /** How many times the thread has incremented the counter. */
  function Increments(t: Thread): nat {
    t.done + if t.pc.After() then 1 else 0
  }

  /** No thread has completed a round in which some thread has not incremented yet. */
  ghost predicate RoundsApart(s: State) {
    forall i, j :: 0 <= i < |s.threads| && 0 <= j < |s.threads| ==> s.threads[i].done <= Increments(s.threads[j])
  }

  /** No thread begins the next round until every thread has incremented in this one. */
  lemma RoundsDoNotOverlap(n: nat, schedule: seq<nat>, states: seq<State>, k: nat)
    requires IsRun(n, schedule, states) && k < |states|
    ensures |states[k].threads| == n && RoundsApart(states[k])
  {
    RunsKeepInv(n, schedule, states, k);
    var s := states[k];
    forall i, j | 0 <= i < |s.threads| && 0 <= j < |s.threads|
      ensures s.threads[i].done <= Increments(s.threads[j])
    {
      assert ThreadOk(s, i) && ThreadOk(s, j);
    }
  }

  /** At most one thread is part-way through an update of the counter, and it works on the current value. */
  ghost predicate UpdatesApart(s: State) {
    && (forall i, j :: 0 <= i < |s.threads| && 0 <= j < |s.threads| && i != j
          && (s.threads[i].pc.Decrementing() || s.threads[i].pc.Incrementing())
          ==> !s.threads[j].pc.Decrementing() && !s.threads[j].pc.Incrementing())
    && (forall i :: 0 <= i < |s.threads| && s.threads[i].pc in {Store1, Store2} ==> s.threads[i].reg == s.count)
  }

  /**
    No update of the counter is lost, though decrements and increments are guarded by different
    semaphores: no two are ever part-way through, and the counter is always the number of threads
    that are not between their decrement and their increment.
   */
  lemma NoLostUpdate(n: nat, schedule: seq<nat>, states: seq<State>, k: nat)
    requires IsRun(n, schedule, states) && k < |states|
    ensures var s := states[k];
            |s.threads| == n && UpdatesApart(s) && 0 <= s.count <= n && s.count == n - Counted(s.threads)
  {
    RunsKeepInv(n, schedule, states, k);
    var s := states[k];
    AllCountOk(s);
    forall i | 0 <= i < |s.threads| && s.threads[i].pc in {Store1, Store2}
      ensures s.threads[i].reg == s.count
    {
      assert ThreadOk(s, i);
    }
    forall i, j | 0 <= i < |s.threads| && 0 <= j < |s.threads| && i != j
                  && (s.threads[i].pc.Decrementing() || s.threads[i].pc.Incrementing())
      ensures !s.threads[j].pc.Decrementing() && !s.threads[j].pc.Incrementing()
    {
      assert ThreadOk(s, i) && ThreadOk(s, j);
    }
  }

  /** Thread i can move, and its move is not another turn of a spin loop. */
  predicate CanProgress(s: State, i: nat) {
    i < |s.threads| && Enabled(s, i) && Step(s, i) != s
  }

  /** In every reachable state some thread can take a step that is not a turn of a spin loop. */
  lemma NoDeadlock(n: nat, schedule: seq<nat>, states: seq<State>, k: nat)
    requires IsRun(n, schedule, states) && k < |states| && 1 <= n
    ensures exists i :: CanProgress(states[k], i)
  {
    RunsKeepInv(n, schedule, states, k);
    var i := Runnable(states[k]);
    assert CanProgress(states[k], i);
  }

  lemma Runnable(s: State) returns (i: nat)
    requires Inv(s) && 1 <= |s.threads|
    ensures CanProgress(s, i)
  {
    AllCountOk(s);
    CountedExtremes(s.threads);
    if s.owner1 != NOBODY {
      i := s.owner1;
      assert ThreadOk(s, i);
    } else if s.owner3 != NOBODY && s.threads[s.owner3].pc != Spin3 {
      i := s.owner3;
      assert ThreadOk(s, i);
    } else if s.owner2 != NOBODY && s.threads[s.owner2].pc != Spin2 {
      i := s.owner2;
      assert ThreadOk(s, i);
    } else if s.owner2 != NOBODY {
      i := RunnableBesideSaver(s);
    } else if s.owner3 != NOBODY {
      i := RunnableBesideResetter(s);
    } else {
      i := 0;
      assert ThreadOk(s, i);
    }
  }

  /** A thread spinning in section 2 waits for one that can move, or can itself go on. */
  lemma RunnableBesideSaver(s: State) returns (i: nat)
    requires Inv(s) && s.owner1 == NOBODY && s.owner2 != NOBODY && s.threads[s.owner2].pc == Spin2
    requires s.owner3 != NOBODY ==> s.threads[s.owner3].pc == Spin3
    ensures CanProgress(s, i)
  {
    assert ThreadOk(s, s.owner2);
    assert s.owner3 != NOBODY ==> ThreadOk(s, s.owner3);
    if s.count == 0 {
      i := s.owner2;
    } else {
      CountedExtremes(s.threads);
      i :| i < |s.threads| && !s.threads[i].pc.Counted();
      assert ThreadOk(s, i);
    }
  }

  /** A thread spinning in section 3 waits for one that can move, or can itself go on. */
  lemma RunnableBesideResetter(s: State) returns (i: nat)
    requires Inv(s) && s.owner1 == NOBODY && s.owner2 == NOBODY && s.owner3 != NOBODY && s.threads[s.owner3].pc == Spin3
    ensures CanProgress(s, i)
  {
    if s.count == |s.threads| {
      i := s.owner3;
    } else {
      CountedExtremes(s.threads);
      i :| i < |s.threads| && s.threads[i].pc.Counted();
      assert ThreadOk(s, i);
    }
  }

  // ---------------------------------------------------------------- rounds complete

  /** How far the handler has come at a place, out of its 18 steps. */
  function Place(pc: PC): (k: nat)
    ensures k < 18
  {
    match pc
    case Idle => 0
    case Wait1 => 1
    case Load1 => 2
    case Store1 => 3
    case Post1 => 4
    case Wait2 => 5
    case Test2 => 6
    case Spin2 => 7
    case Save => 8
    case SetSaved => 9
    case Load2 => 10
    case Store2 => 11
    case Post2 => 12
    case Wait3 => 13
    case Test3 => 14
    case Spin3 => 15
    case Reset => 16
    case Post3 => 17
  }

  function Way(t: Thread): nat {
    18 * t.done + Place(t.pc)
  }

  /** A step that is not a turn of a spin loop brings its thread further on its way. */
  lemma StepGoesOn(s: State, i: nat)
    requires i < |s.threads| && Enabled(s, i)
    ensures Step(s, i) != s ==> Total(Way, Step(s, i).threads) > Total(Way, s.threads)
    ensures Total(Way, Step(s, i).threads) >= Total(Way, s.threads)
  {
    if Step(s, i) != s {
      var t := StepOfThread(s, i);
      TotalUpdate(Way, s.threads, i, t);
    }
  }

  lemma StepOfThread(s: State, i: nat) returns (t: Thread)
    requires i < |s.threads| && Enabled(s, i) && Step(s, i) != s
    ensures Step(s, i).threads == s.threads[i := t] && Way(t) > Way(s.threads[i])
  {
    t := Step(s, i).threads[i];
  }

  /** How many of the first k steps of a run were not turns of a spin loop. */
  function Moves(states: seq<State>, k: nat): nat
    requires k < |states|
  {
    if k == 0 then 0 else Moves(states, k - 1) + if states[k] == states[k - 1] then 0 else 1
  }

  lemma {:induction false} MovesAreWay(n: nat, schedule: seq<nat>, states: seq<State>, k: nat)
    requires IsRun(n, schedule, states) && k < |states|
    ensures Moves(states, k) <= Total(Way, states[k].threads)
  {
    if k > 0 {
      MovesAreWay(n, schedule, states, k - 1);
      assert StepsTo(states[k - 1], schedule[k - 1], states[k - 1 + 1]);
      StepGoesOn(states[k - 1], schedule[k - 1]);
    }
  }

  /**
    Rounds complete: a run that has made 18 n (m + 1) moves, turns of the spin loops not counted, has taken
    every thread through at least m rounds, and every one of these rounds has been saved.
   */
  lemma RoundsComplete(n: nat, schedule: seq<nat>, states: seq<State>, k: nat, m: nat)
    requires IsRun(n, schedule, states) && k < |states| && 1 <= n
    requires Moves(states, k) >= n * (18 * (m + 1))
    ensures |states[k].threads| == n && |states[k].log| >= m
    ensures forall j :: 0 <= j < n ==> states[k].threads[j].done >= m
  {
    hide Step, LogOk, Moves, Total, IsRun;
    SavedOncePerRound(n, schedule, states, k);
    RoundsDoNotOverlap(n, schedule, states, k);
    MovesAreWay(n, schedule, states, k);
    Larger(n, 18 * m + 17, 18 * (m + 1));
    var s := states[k];
    forall j | 0 <= j < n
      ensures s.threads[j].done >= m
    {
      if s.threads[j].done < m {
        LaggardBounds(s, j, m);
      }
    }
    assert s.threads[0].done <= |s.log|;
  }

  /** A thread short of m rounds keeps all the others from passing m. */
  lemma LaggardBounds(s: State, j: nat, m: nat)
    requires RoundsApart(s) && j < |s.threads| && s.threads[j].done < m
    ensures Total(Way, s.threads) <= |s.threads| * (18 * m + 17)
  {
    hide Total, Place;
    forall i | 0 <= i < |s.threads|
      ensures Way(s.threads[i]) <= 18 * m + 17
    {
      assert s.threads[i].done <= Increments(s.threads[j]) <= m;
    }
    TotalBound(Way, s.threads, 18 * m + 17);
  }

  lemma Larger(n: nat, a: nat, b: nat)
    requires 1 <= n && a < b
    ensures n * a < n * b
  {
  }

  /** Thread i gets a turn among the w steps from step k on, unless a semaphore has it blocked at some point. */
  ghost predicate GetsATurn(schedule: seq<nat>, states: seq<State>, w: nat, k: nat, i: nat)
    requires |states| == |schedule| + 1 && k + w <= |schedule|
  {
    (forall l :: k <= l < k + w ==> i < |states[l].threads| && Enabled(states[l], i)) ==> i in schedule[k..k + w]
  }

  /** Among any w steps in a row every thread gets a turn, unless it is blocked at some point. */
  ghost predicate Fair(n: nat, schedule: seq<nat>, states: seq<State>, w: nat) {
    && |states| == |schedule| + 1
    && forall k: nat, i: nat :: k + w <= |schedule| && i < n ==> GetsATurn(schedule, states, w, k, i)
  }

  /** While nobody moves, the state stays as it is. */
  lemma {:induction false} StillWithoutMoves(states: seq<State>, k: nat, l: nat)
    requires k <= l < |states|
    ensures Moves(states, k) <= Moves(states, l)
    ensures Moves(states, k) == Moves(states, l) ==> states[l] == states[k]
  {
    if k < l {
      StillWithoutMoves(states, k, l - 1);
    }
  }

  lemma IdleTurn(n: nat, schedule: seq<nat>, states: seq<State>, k: nat)
    requires IsRun(n, schedule, states) && k < |schedule| && states[k + 1] == states[k]
    ensures !CanProgress(states[k], schedule[k])
  {
    assert StepsTo(states[k], schedule[k], states[k + 1]);
  }

  /** In a fair run somebody moves among any w steps: the thread that can move keeps that chance while others spin. */
  lemma FairRunsMove(n: nat, schedule: seq<nat>, states: seq<State>, w: nat, k: nat)
    requires IsRun(n, schedule, states) && Fair(n, schedule, states, w) && 1 <= n && k + w <= |schedule|
    ensures Moves(states, k) < Moves(states, k + w)
  {
    hide Moves;
    StillWithoutMoves(states, k, k + w);
    if Moves(states, k) == Moves(states, k + w) {
      var s := states[k];
      forall l | k <= l <= k + w
        ensures states[l] == s
      {
        StillWithoutMoves(states, k, l);
        StillWithoutMoves(states, l, k + w);
      }
      RunsKeepInv(n, schedule, states, k);
      var i := Runnable(s);
      assert GetsATurn(schedule, states, w, k, i);
      var l :| 0 <= l < w && schedule[k..k + w][l] == i;
      IdleTurn(n, schedule, states, k + l);
    }
  }

  lemma {:induction false} FairRunsKeepMoving(n: nat, schedule: seq<nat>, states: seq<State>, w: nat, q: nat)
    requires IsRun(n, schedule, states) && Fair(n, schedule, states, w) && 1 <= n && q * w <= |schedule|
    ensures Moves(states, q * w) >= q
  {
    if q > 0 {
      assert q * w == (q - 1) * w + w;
      FairRunsKeepMoving(n, schedule, states, w, q - 1);
      FairRunsMove(n, schedule, states, w, (q - 1) * w);
    }
  }

  /** In a fair run every thread completes, and somebody saves, any number of rounds, within a bound on the steps. */
  lemma FairRunsCompleteRounds(n: nat, schedule: seq<nat>, states: seq<State>, w: nat, m: nat)
    requires IsRun(n, schedule, states) && Fair(n, schedule, states, w) && 1 <= n
    requires n * (18 * (m + 1)) * w <= |schedule|
    ensures var s := states[|schedule|];
            |s.threads| == n && |s.log| >= m && forall j :: 0 <= j < n ==> s.threads[j].done >= m
  {
    var q := n * (18 * (m + 1));
    FairRunsKeepMoving(n, schedule, states, w, q);
    StillWithoutMoves(states, q * w, |schedule|);
    RoundsComplete(n, schedule, states, |schedule|, m);
  }
}

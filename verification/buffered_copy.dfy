/**
  The two-thread file copy through semaphore-guarded buffers: with one buffer it is the simple
  protocol, with two the double-buffered one, whose unrolled loop bodies use buffers A (0) and B (1)
  in turn.  Semaphore operations, system calls and stores of their results are separate steps of the
  reader and the writer, interleaved arbitrarily; a read returns any number of bytes it may.
 */
module BufferedCopy {

  const MAX_BUF_SIZE := 65536

  datatype ReaderPC = RWait | RRead | RStore | RPost | RTest | RExited

  datatype WriterPC = WWait | WWrite | WStore | WPost | WTest | WExited

  /** One buffer with its semaphores and the counts stored beside it. */
  datatype Slot = Slot(data: string, inCount: int, outCount: int, readersTurn: nat, writersTurn: nat)

  /** A thread: its place, the buffer it is at, and the result of its last system call. */
  datatype Reader = Reader(pc: ReaderPC, at: nat, got: nat)

  datatype Writer = Writer(pc: WriterPC, at: nat, put: nat)

  /** The state; input and pending (the blocks handed over and not yet written) are records only. */
  datatype State = State(
    slots: seq<Slot>, reader: Reader, writer: Writer, src: string, dst: string, bufsize: nat,
    input: string, pending: seq<string>)

  /** The reader moves, getting n bytes if it reads; or the writer moves. */
  datatype Action = ReaderMoves(n: nat) | WriterMoves

  function Start(buffers: seq<string>, bufsize: nat, input: string): State {
    State(seq(|buffers|, i requires 0 <= i < |buffers| => Slot(buffers[i], 0, 0, 1, 0)),
          Reader(RWait, 0, 0), Writer(WWait, 0, 0), input, "", bufsize, input, [])
  }

  /** The buffer used after buffer i, of k. */
  function Next(i: nat, k: nat): nat
    requires i < k
  {
    if i + 1 == k then 0 else i + 1
  }

  predicate Shaped(s: State) {
    && 1 <= |s.slots| <= 2 && 1 <= s.bufsize <= MAX_BUF_SIZE
    && s.reader.at < |s.slots| && s.writer.at < |s.slots|
    && forall i :: 0 <= i < |s.slots| ==> |s.slots[i].data| == MAX_BUF_SIZE
  }

  /** read may return n bytes: between 1 and the buffer size before the end of the file, 0 at the end. */
  predicate MayRead(s: State, n: nat) {
    if s.src == "" then n == 0 else 1 <= n <= s.bufsize && n <= |s.src|
  }

  predicate Enabled(s: State, a: Action)
    requires Shaped(s)
  {
    match a
    case ReaderMoves(n) =>
      (match s.reader.pc
       case RWait => s.slots[s.reader.at].readersTurn > 0
       case RRead => MayRead(s, n)
       case RExited => false
       case _ => true)
    case WriterMoves =>
      (match s.writer.pc
       case WWait => s.slots[s.writer.at].writersTurn > 0
       case WWrite => 0 <= s.slots[s.writer.at].inCount <= MAX_BUF_SIZE
       case WExited => false
       case _ => true)
  }

  function ReaderStep(s: State, n: nat): State
    requires Shaped(s) && Enabled(s, ReaderMoves(n))
  {
    var (r, i, slot) := (s.reader, s.reader.at, s.slots[s.reader.at]);
    match r.pc
    case RWait => s.(slots := s.slots[i := slot.(readersTurn := slot.readersTurn - 1)], reader := r.(pc := RRead))
    case RRead =>
      s.(slots := s.slots[i := slot.(data := s.src[..n] + slot.data[n..])],
         src := s.src[n..], reader := r.(pc := RStore, got := n))
    case RStore => s.(slots := s.slots[i := slot.(inCount := r.got)], reader := r.(pc := RPost))
    case RPost =>
      s.(slots := s.slots[i := slot.(writersTurn := slot.writersTurn + 1)], reader := r.(pc := RTest),
         pending := s.pending + [slot.data[..if r.got <= MAX_BUF_SIZE then r.got else 0]])
    case RTest =>
      if slot.inCount <= 0 then s.(reader := r.(pc := RExited))
      else s.(reader := r.(pc := RWait, at := Next(i, |s.slots|)))
  }

  function WriterStep(s: State): State
    requires Shaped(s) && Enabled(s, WriterMoves)
  {
    var (w, i, slot) := (s.writer, s.writer.at, s.slots[s.writer.at]);
    match w.pc
    case WWait => s.(slots := s.slots[i := slot.(writersTurn := slot.writersTurn - 1)], writer := w.(pc := WWrite))
    case WWrite =>
      s.(dst := s.dst + slot.data[..slot.inCount], writer := w.(pc := WStore, put := slot.inCount),
         pending := if s.pending == [] then [] else s.pending[1..])
    case WStore => s.(slots := s.slots[i := slot.(outCount := w.put)], writer := w.(pc := WPost))
    case WPost => s.(slots := s.slots[i := slot.(readersTurn := slot.readersTurn + 1)], writer := w.(pc := WTest))
    case WTest =>
      if slot.outCount <= 0 then s.(writer := w.(pc := WExited))
      else s.(writer := w.(pc := WWait, at := Next(i, |s.slots|)))
  }

  function Step(s: State, a: Action): State
    requires Shaped(s) && Enabled(s, a)
  {
    match a
    case ReaderMoves(n) => ReaderStep(s, n)
    case WriterMoves => WriterStep(s)
  }

  // ---------------------------------------------------------------- the invariant

  /** The reader is between the semaphores of buffer i. */
  predicate ReaderHolds(s: State, i: nat) {
    s.reader.at == i && s.reader.pc in {RRead, RStore, RPost}
  }

  /** The writer is between the semaphores of buffer i. */
  predicate WriterHolds(s: State, i: nat) {
    s.writer.at == i && s.writer.pc in {WWrite, WStore, WPost}
  }

  /** Exactly one of: the reader may take the buffer, the reader has it, the writer may take it, the writer has it. */
  ghost predicate Handover(s: State, i: nat)
    requires i < |s.slots|
  {
    s.slots[i].readersTurn + s.slots[i].writersTurn
    + (if ReaderHolds(s, i) then 1 else 0) + (if WriterHolds(s, i) then 1 else 0) == 1
  }

  /** The buffer holds a block that was handed over and not yet written. */
  predicate Full(s: State, i: nat)
    requires i < |s.slots|
  {
    s.slots[i].writersTurn > 0 || (s.writer.at == i && s.writer.pc == WWrite)
  }

  /** The buffer the reader fills next, or is filling. */
  function ReaderNext(s: State): nat
    requires Shaped(s)
  {
    if s.reader.pc in {RTest, RExited} then Next(s.reader.at, |s.slots|) else s.reader.at
  }

  /** The buffer the writer empties next, or is emptying. */
  function WriterNext(s: State): nat
    requires Shaped(s)
  {
    if s.writer.pc in {WStore, WPost, WTest, WExited} then Next(s.writer.at, |s.slots|) else s.writer.at
  }

  /** The block lies in the buffer, and its length is stored beside it. */
  ghost predicate Holds(slot: Slot, block: string) {
    slot.inCount == |block| && block <= slot.data
  }

  /** The pending blocks lie in the full buffers, from the writer's on; the reader is at the buffer after them. */
  ghost predicate BlocksOk(s: State)
    requires Shaped(s)
  {
    var (k, w) := (|s.slots|, WriterNext(s));
    && |s.pending| <= k
    && (Full(s, w) <==> 1 <= |s.pending|)
    && (1 <= |s.pending| ==> Holds(s.slots[w], s.pending[0]))
    && (k == 2 ==> (Full(s, Next(w, k)) <==> |s.pending| == 2))
    && (k == 2 && |s.pending| == 2 ==> Holds(s.slots[Next(w, k)], s.pending[1]))
    && (k == 2 ==> ReaderNext(s) == if |s.pending| == 1 then Next(w, k) else w)
  }

  /** The block the reader has read and not yet handed over. */
  function InHand(s: State): string
    requires Shaped(s)
  {
    if s.reader.pc in {RStore, RPost} && s.reader.got <= MAX_BUF_SIZE
    then s.slots[s.reader.at].data[..s.reader.got]
    else ""
  }

  function Concat(blocks: seq<string>): string {
    if blocks == [] then "" else blocks[0] + Concat(blocks[1..])
  }

  /** The reader has met the end of the file. */
  predicate ReaderAtEnd(s: State) {
    (s.reader.pc in {RStore, RPost, RTest} && s.reader.got == 0) || s.reader.pc == RExited
  }

  /** The writer has been handed the empty block that marks the end. */
  predicate WriterAtEnd(s: State) {
    (s.writer.pc in {WStore, WPost, WTest} && s.writer.put == 0) || s.writer.pc == WExited
  }

  /** The end mark has been handed over. */
  predicate EndSent(s: State) {
    (s.reader.pc == RTest && s.reader.got == 0) || s.reader.pc == RExited
  }

  /** The end mark is the last block, and it is in a buffer or with the writer exactly when it was sent. */
  ghost predicate EndOk(s: State) {
    && (ReaderAtEnd(s) ==> s.src == "")
    && (WriterAtEnd(s) ==> EndSent(s) && s.pending == [])
    && (EndSent(s) && !WriterAtEnd(s) ==> s.pending != [] && s.pending[|s.pending| - 1] == "")
    && (forall t :: 0 <= t < |s.pending| && s.pending[t] == "" ==> EndSent(s) && t == |s.pending| - 1)
  }

  ghost predicate RegistersOk(s: State)
    requires Shaped(s)
  {
    && (s.reader.pc in {RStore, RPost, RTest} ==> s.reader.got <= s.bufsize)
    && (s.reader.pc in {RPost, RTest} ==> s.slots[s.reader.at].inCount == s.reader.got)
    && (s.writer.pc in {WPost, WTest} ==> s.slots[s.writer.at].outCount == s.writer.put)
  }

  ghost predicate DataOk(s: State)
    requires Shaped(s)
  {
    s.input == s.dst + Concat(s.pending) + InHand(s) + s.src
  }

  ghost predicate Inv(s: State) {
    && Shaped(s)
    && (forall i :: 0 <= i < |s.slots| ==> Handover(s, i))
    && BlocksOk(s) && EndOk(s) && RegistersOk(s) && DataOk(s)
  }

  lemma StartInv(buffers: seq<string>, bufsize: nat, input: string)
    requires 1 <= |buffers| <= 2 && 1 <= bufsize <= MAX_BUF_SIZE
    requires forall i :: 0 <= i < |buffers| ==> |buffers[i]| == MAX_BUF_SIZE
    ensures Inv(Start(buffers, bufsize, input))
  {
  }

  lemma {:induction false} ConcatAppend(blocks: seq<string>, block: string)
    ensures Concat(blocks + [block]) == Concat(blocks) + block
  {
    if blocks == [] {
      assert blocks + [block] == [block];
      assert Concat([block]) == block + Concat([]);
    } else {
      ConcatAppend(blocks[1..], block);
      assert (blocks + [block])[1..] == blocks[1..] + [block];
    }
  }

  lemma WriterCanMove(s: State)
    requires Inv(s) && s.writer.pc == WWrite
    ensures 0 <= s.slots[s.writer.at].inCount <= MAX_BUF_SIZE && Enabled(s, WriterMoves)
    ensures s.pending != [] && Holds(s.slots[s.writer.at], s.pending[0])
  {
  }

  lemma ReaderStepKeepsData(s: State, n: nat)
    requires Inv(s) && Enabled(s, ReaderMoves(n))
    ensures Shaped(ReaderStep(s, n)) && DataOk(ReaderStep(s, n))
  {
    hide BlocksOk, EndOk, Handover;
    var s' := ReaderStep(s, n);
    match s.reader.pc
    case RRead =>
      assert InHand(s') == s.src[..n];
      assert s.src == s.src[..n] + s.src[n..];
    case RPost =>
      ConcatAppend(s.pending, InHand(s));
    case _ =>
  }

  lemma WriterStepKeepsData(s: State)
    requires Inv(s) && Enabled(s, WriterMoves)
    ensures Shaped(WriterStep(s)) && DataOk(WriterStep(s))
  {
    var s' := WriterStep(s);
    match s.writer.pc
    case WWrite =>
      WriterCanMove(s);
      assert s.slots[s.writer.at].data[..|s.pending[0]|] == s.pending[0];
      assert s.dst + (s.pending[0] + Concat(s.pending[1..])) == s.dst + s.pending[0] + Concat(s.pending[1..]);
    case _ =>
  }

  lemma ReaderStepKeepsHandover(s: State, n: nat, i: nat)
    requires Inv(s) && Enabled(s, ReaderMoves(n)) && i < |s.slots|
    ensures Shaped(ReaderStep(s, n)) && |ReaderStep(s, n).slots| == |s.slots| && Handover(ReaderStep(s, n), i)
  {
    hide BlocksOk, EndOk, DataOk;
    assert Handover(s, i);
  }

  lemma WriterStepKeepsHandover(s: State, i: nat)
    requires Inv(s) && Enabled(s, WriterMoves) && i < |s.slots|
    ensures Shaped(WriterStep(s)) && |WriterStep(s).slots| == |s.slots| && Handover(WriterStep(s), i)
  {
    hide BlocksOk, EndOk, DataOk;
    assert Handover(s, i);
  }

  lemma ReaderPostKeepsBlocks(s: State, n: nat)
    requires Inv(s) && Enabled(s, ReaderMoves(n)) && s.reader.pc == RPost
    ensures Shaped(ReaderStep(s, n)) && BlocksOk(ReaderStep(s, n))
  {
    hide EndOk, DataOk;
    assert Handover(s, s.reader.at) && Handover(s, s.writer.at);
  }

  lemma ReaderFillKeepsBlocks(s: State, n: nat)
    requires Inv(s) && Enabled(s, ReaderMoves(n)) && s.reader.pc in {RRead, RStore}
    ensures Shaped(ReaderStep(s, n)) && BlocksOk(ReaderStep(s, n))
  {
    hide EndOk, DataOk;
    assert Handover(s, s.reader.at) && Handover(s, s.writer.at);
  }

  lemma ReaderStepKeepsBlocks(s: State, n: nat)
    requires Inv(s) && Enabled(s, ReaderMoves(n))
    ensures Shaped(ReaderStep(s, n)) && BlocksOk(ReaderStep(s, n))
  {
    hide EndOk, DataOk;
    if s.reader.pc == RPost {
      ReaderPostKeepsBlocks(s, n);
    } else if s.reader.pc in {RRead, RStore} {
      ReaderFillKeepsBlocks(s, n);
    } else {
      assert Handover(s, s.reader.at);
    }
  }

  lemma WriterStepKeepsBlocks(s: State)
    requires Inv(s) && Enabled(s, WriterMoves)
    ensures Shaped(WriterStep(s)) && BlocksOk(WriterStep(s))
  {
    hide EndOk, DataOk;
    assert Handover(s, s.reader.at) && Handover(s, s.writer.at);
  }

  lemma ReaderStepKeepsEnd(s: State, n: nat)
    requires Inv(s) && Enabled(s, ReaderMoves(n))
    ensures Shaped(ReaderStep(s, n)) && EndOk(ReaderStep(s, n)) && RegistersOk(ReaderStep(s, n))
  {
    hide BlocksOk, DataOk;
    assert Handover(s, s.reader.at) && Handover(s, s.writer.at);
  }

  lemma WriterStepKeepsEnd(s: State)
    requires Inv(s) && Enabled(s, WriterMoves)
    ensures Shaped(WriterStep(s)) && EndOk(WriterStep(s)) && RegistersOk(WriterStep(s))
  {
    hide DataOk;
    if s.writer.pc == WWrite { WriterCanMove(s); }
    assert Handover(s, s.reader.at) && Handover(s, s.writer.at);
  }

  /** Every step of the reader keeps the invariant. */
  lemma ReaderStepKeepsInv(s: State, n: nat)
    requires Inv(s) && Enabled(s, ReaderMoves(n))
    ensures Inv(ReaderStep(s, n))
  {
    hide BlocksOk, EndOk, DataOk, RegistersOk, Handover, ReaderStep;
    ReaderStepKeepsData(s, n);
    ReaderStepKeepsBlocks(s, n);
    ReaderStepKeepsEnd(s, n);
    ReaderStepKeepsHandover(s, n, 0);
    forall i | 0 <= i < |s.slots|
      ensures Handover(ReaderStep(s, n), i)
    {
      ReaderStepKeepsHandover(s, n, i);
    }
  }

  /** Every step of the writer keeps the invariant. */
  lemma WriterStepKeepsInv(s: State)
    requires Inv(s) && Enabled(s, WriterMoves)
    ensures Inv(WriterStep(s))
  {
    hide BlocksOk, EndOk, DataOk, RegistersOk, Handover, WriterStep;
    WriterStepKeepsData(s);
    WriterStepKeepsBlocks(s);
    WriterStepKeepsEnd(s);
    WriterStepKeepsHandover(s, 0);
    forall i | 0 <= i < |s.slots|
      ensures Handover(WriterStep(s), i)
    {
      WriterStepKeepsHandover(s, i);
    }
  }

  lemma StepKeepsInv(s: State, a: Action)
    requires Inv(s) && Enabled(s, a)
    ensures Inv(Step(s, a)) && Step(s, a).input == s.input && |Step(s, a).slots| == |s.slots|
  {
    hide Inv;
    InvShaped(s);
    match a
    case ReaderMoves(n) => ReaderStepKeepsInv(s, n);
    case WriterMoves => WriterStepKeepsInv(s);
  }

  lemma InvShaped(s: State)
    requires Inv(s)
    ensures Shaped(s)
  {
  }

  // ---------------------------------------------------------------- whole runs

  ghost predicate StepsTo(s: State, a: Action, s': State) {
    Shaped(s) ==> Enabled(s, a) && s' == Step(s, a)
  }

  ghost predicate IsRun(buffers: seq<string>, bufsize: nat, input: string, actions: seq<Action>, states: seq<State>) {
    && 1 <= |buffers| <= 2 && 1 <= bufsize <= 65536
    && (forall i :: 0 <= i < |buffers| ==> |buffers[i]| == 65536)
    && |states| == |actions| + 1 && states[0] == Start(buffers, bufsize, input)
    && forall k :: 0 <= k < |actions| ==> StepsTo(states[k], actions[k], states[k + 1])
  }

  lemma {:induction false} RunsKeepInv(
      buffers: seq<string>, bufsize: nat, input: string, actions: seq<Action>, states: seq<State>, k: nat)
    requires IsRun(buffers, bufsize, input, actions, states) && k < |states|
    ensures Inv(states[k]) && states[k].input == input && |states[k].slots| == |buffers|
  {
    hide Inv;
    if k == 0 {
      StartInv(buffers, bufsize, input);
    } else {
      RunsKeepInv(buffers, bufsize, input, actions, states, k - 1);
      assert StepsTo(states[k - 1], actions[k - 1], states[k - 1 + 1]);
      InvShaped(states[k - 1]);
      StepKeepsInv(states[k - 1], actions[k - 1]);
    }
  }

  /** The two threads are never at work on the same buffer. */
  ghost predicate BuffersNotShared(s: State) {
    forall i :: 0 <= i < |s.slots| ==> !(ReaderHolds(s, i) && WriterHolds(s, i))
  }

  /** How many blocks have been read and not yet written. */
  function Ahead(s: State): nat {
    |s.pending| + if s.reader.pc in {RStore, RPost} then 1 else 0
  }

  /**
    In every interleaving the threads never share a buffer, the reader is never further ahead than there
    are buffers, and the output is a prefix of the input, the rest being in order in the buffers and the file.
   */
  lemma CopyIsSafe(buffers: seq<string>, bufsize: nat, input: string, actions: seq<Action>, states: seq<State>, k: nat)
    requires IsRun(buffers, bufsize, input, actions, states) && k < |states|
    ensures var s := states[k];
            && BuffersNotShared(s) && Ahead(s) <= |buffers|
            && s.dst <= input && Shaped(s) && input[|s.dst|..] == Concat(s.pending) + InHand(s) + s.src
  {
    RunsKeepInv(buffers, bufsize, input, actions, states, k);
    var s := states[k];
    InvIsSafe(s);
    assert input == s.dst + (Concat(s.pending) + InHand(s) + s.src);
  }

  lemma InvIsSafe(s: State)
    requires Inv(s)
    ensures BuffersNotShared(s) && Ahead(s) <= |s.slots|
  {
    hide DataOk, EndOk;
    assert Handover(s, s.reader.at);
    forall i | 0 <= i < |s.slots|
      ensures !(ReaderHolds(s, i) && WriterHolds(s, i))
    {
      assert Handover(s, i);
    }
  }

  // ---------------------------------------------------------------- every run ends, with a complete copy

  function RankR(s: State): nat {
    match s.reader.pc
    case RWait => 22 case RRead => 21
    case RStore => if s.reader.got > 0 then 40 else 20
    case RPost => if s.reader.got > 0 then 39 else 19
    case RTest => if s.reader.got > 0 then 32 else 12
    case RExited => 0
  }

  function RankW(s: State): nat {
    match s.writer.pc
    case WStore => 8 case WPost => 7 case WTest => 6 case WWait => 5 case WWrite => 4 case WExited => 0
  }

  function StepsLeft(s: State): nat {
    20 * |s.src| + RankR(s) + 6 * |s.pending| + RankW(s)
  }

  /** Every step of either thread brings the end closer. */
  lemma EveryStepProgresses(s: State, a: Action)
    requires Inv(s) && Enabled(s, a)
    ensures StepsLeft(Step(s, a)) < StepsLeft(s)
  {
    hide DataOk, Handover;
    if s.writer.pc == WWrite { WriterCanMove(s); }
  }

  ghost predicate Stuck(s: State)
    requires Shaped(s)
  {
    forall a :: !Enabled(s, a)
  }

  /** The only stuck states have both threads exited and the output equal to the input. */
  lemma StuckIsDone(s: State)
    requires Inv(s) && Stuck(s)
    ensures s.reader.pc == RExited && s.writer.pc == WExited && s.dst == s.input
  {
    hide DataOk;
    var n := if |s.src| < s.bufsize then |s.src| else s.bufsize;
    assert MayRead(s, n);
    assert !Enabled(s, ReaderMoves(n)) && !Enabled(s, WriterMoves);
    if s.writer.pc == WWrite { WriterCanMove(s); }
    assert Handover(s, s.reader.at) && Handover(s, s.writer.at);
    DoneIsCopied(s);
  }

  lemma DoneIsCopied(s: State)
    requires Inv(s)
    ensures s.reader.pc == RExited && s.writer.pc == WExited ==> s.dst == s.input
  {
    hide BlocksOk, Handover;
    if s.reader.pc == RExited && s.writer.pc == WExited {
      assert Concat(s.pending) == "" && InHand(s) == "";
    }
  }

  /** Every run ends within StepsLeft steps of its start, and where nobody can move the copy is complete. */
  lemma RunsEndWithACopy(buffers: seq<string>, bufsize: nat, input: string, actions: seq<Action>, states: seq<State>)
    requires IsRun(buffers, bufsize, input, actions, states)
    ensures |actions| <= 20 * |input| + 27
    ensures Shaped(states[|actions|]) && (Stuck(states[|actions|]) ==> states[|actions|].dst == input)
  {
    RunsKeepInv(buffers, bufsize, input, actions, states, |actions|);
    RunsAreShort(buffers, bufsize, input, actions, states, |actions|);
    if Stuck(states[|actions|]) {
      StuckIsDone(states[|actions|]);
    }
  }

  lemma {:induction false} RunsAreShort(
      buffers: seq<string>, bufsize: nat, input: string, actions: seq<Action>, states: seq<State>, k: nat)
    requires IsRun(buffers, bufsize, input, actions, states) && k < |states|
    ensures k + StepsLeft(states[k]) <= 20 * |input| + 27
  {
    hide Inv, StepsLeft;
    if k > 0 {
      RunsAreShort(buffers, bufsize, input, actions, states, k - 1);
      RunsKeepInv(buffers, bufsize, input, actions, states, k - 1);
      assert StepsTo(states[k - 1], actions[k - 1], states[k - 1 + 1]);
      InvShaped(states[k - 1]);
      EveryStepProgresses(states[k - 1], actions[k - 1]);
    } else {
      StartStepsLeft(buffers, bufsize, input);
    }
  }

  lemma StartStepsLeft(buffers: seq<string>, bufsize: nat, input: string)
    ensures StepsLeft(Start(buffers, bufsize, input)) == 20 * |input| + 27
  {
  }

  /** The double-buffered copy and the single-buffer protocol produce the same file, however each is interleaved. */
  lemma BothProtocolsAgree(
      single: seq<string>, double: seq<string>, bufsize: nat, bufsize': nat, input: string,
      actions: seq<Action>, states: seq<State>, actions': seq<Action>, states': seq<State>)
    requires |single| == 1 && IsRun(single, bufsize, input, actions, states)
    requires |double| == 2 && IsRun(double, bufsize', input, actions', states')
    requires Shaped(states[|actions|]) && Stuck(states[|actions|])
    requires Shaped(states'[|actions'|]) && Stuck(states'[|actions'|])
    ensures states[|actions|].dst == states'[|actions'|].dst
  {
    RunsEndWithACopy(single, bufsize, input, actions, states);
    RunsEndWithACopy(double, bufsize', input, actions', states');
  }
}

/** The checkpoint file: what is written for a list of jobs, byte by byte. */
module JobEncoding {
  const TWO_31 := 0x8000_0000
  const TWO_32 := 0x1_0000_0000

  type Byte = b: nat | b < 256

  /** The fields of a job; info is its buffer, terminator included. */
  datatype JobValue = JobValue(jobid: int, infoSize: int, info: seq<Byte>)

  /** A 32-bit int in two's complement, least significant byte first. */
  function EncodeInt(x: int): (bs: seq<Byte>)
    ensures |bs| == 4
  {
    var u0 := x % TWO_32;
    var u1 := u0 / 256;
    var u2 := u1 / 256;
    var u3 := u2 / 256;
    [u0 % 256, u1 % 256, u2 % 256, u3]
  }

  function DecodeInt(bs: seq<Byte>): int
    requires |bs| == 4
  {
    var u: int := bs[0] as int + 256 * (bs[1] as int + 256 * (bs[2] as int + 256 * bs[3] as int));
    if u < TWO_31 then u else u - TWO_32
  }

  lemma IntRoundTrip(x: int)
    requires -0x8000_0000 <= x < 0x8000_0000
    ensures DecodeInt(EncodeInt(x)) == x
  {
  }

  /** A job that can be written: its fields are ints, and its buffer holds as many bytes as it says. */
  ghost predicate Writable(j: JobValue) {
    -TWO_31 <= j.jobid < TWO_31 && 0 <= j.infoSize < TWO_31 && j.infoSize <= |j.info|
  }

  function EncodeJob(j: JobValue): seq<Byte>
    requires Writable(j)
  {
    EncodeInt(j.jobid) + EncodeInt(j.infoSize) + j.info[..j.infoSize]
  }

  ghost predicate AllWritable(jobs: seq<JobValue>) {
    forall i :: 0 <= i < |jobs| ==> Writable(jobs[i])
  }

  /** The jobs from the last to the first. */
  function Body(jobs: seq<JobValue>): seq<Byte>
    requires AllWritable(jobs)
  {
    if jobs == [] then [] else Body(jobs[1..]) + EncodeJob(jobs[0])
  }

  /** The checkpoint file of a list. */
  function FileOf(jobs: seq<JobValue>): seq<Byte>
    requires AllWritable(jobs)
  {
    EncodeInt(|jobs|) + Body(jobs)
  }

  lemma BodyOfNone(jobs: seq<JobValue>)
    requires jobs == []
    ensures Body(jobs) == []
  {
  }

  lemma BodyStep(jobs: seq<JobValue>, k: nat)
    requires AllWritable(jobs) && 1 <= k <= |jobs|
    ensures AllWritable(jobs[k..]) && AllWritable(jobs[k - 1..])
    ensures Body(jobs[k - 1..]) == Body(jobs[k..]) + EncodeJob(jobs[k - 1])
  {
    assert jobs[k - 1..][1..] == jobs[k..];
  }

  /** The file body starts with the last job. */
  lemma {:induction false} BodyFromLast(jobs: seq<JobValue>)
    requires AllWritable(jobs) && jobs != []
    ensures var n := |jobs| - 1; Body(jobs) == EncodeJob(jobs[n]) + Body(jobs[..n])
  {
    var n := |jobs| - 1;
    if n == 0 {
      assert jobs[1..] == [] && jobs[..0] == [];
      assert Body(jobs[1..]) == [];
      assert [] + EncodeJob(jobs[0]) == EncodeJob(jobs[0]) + [];
    } else {
      var tail := jobs[1..];
      BodyFromLast(tail);
      assert tail[..n - 1] == jobs[..n][1..] && tail[n - 1] == jobs[n];
      assert Body(jobs[..n]) == Body(jobs[..n][1..]) + EncodeJob(jobs[0]);
      assert EncodeJob(jobs[n]) + Body(tail[..n - 1]) + EncodeJob(jobs[0])
          == EncodeJob(jobs[n]) + (Body(tail[..n - 1]) + EncodeJob(jobs[0]));
    }
  }

  lemma BodyOfPrefix(jobs: seq<JobValue>, k: nat)
    requires AllWritable(jobs) && 1 <= k <= |jobs|
    ensures AllWritable(jobs[..k]) && AllWritable(jobs[..k - 1])
    ensures Body(jobs[..k]) == EncodeJob(jobs[k - 1]) + Body(jobs[..k - 1])
  {
    BodyFromLast(jobs[..k]);
    assert jobs[..k][..k - 1] == jobs[..k - 1];
  }

  // ---------------------------------------------------------------- which byte is where

  /** The four bytes at offset o are x in two's complement, the least significant byte first. */
  ghost predicate IntAt(file: seq<Byte>, o: nat, x: int) {
    && o + 4 <= |file|
    && file[o] as int + 0x100 * file[o + 1] as int + 0x1_0000 * file[o + 2] as int + 0x100_0000 * file[o + 3] as int
       == if x < 0 then x + 0x1_0000_0000 else x
  }

  /** Where the record of job k begins: behind the size of the list and the records of the jobs after it. */
  function RecordStart(jobs: seq<JobValue>, k: nat): int
    requires k < |jobs|
    decreases |jobs| - k
  {
    if k == |jobs| - 1 then 4 else RecordStart(jobs, k + 1) + 8 + jobs[k + 1].infoSize
  }

  lemma IntIsAt(x: int, rest: seq<Byte>)
    requires -0x8000_0000 <= x < 0x8000_0000
    ensures IntAt(EncodeInt(x) + rest, 0, x)
  {
  }

  /** A written job: its id, its size, and the bytes of its buffer. */
  ghost predicate RecordAt(file: seq<Byte>, o: nat, j: JobValue) {
    && IntAt(file, o, j.jobid) && IntAt(file, o + 4, j.infoSize)
    && 0 <= j.infoSize <= |j.info| && o + 8 + j.infoSize <= |file|
    && forall i :: 0 <= i < j.infoSize ==> file[o + 8 + i] == j.info[i]
  }

  lemma RecordIsAt(before: seq<Byte>, j: JobValue, after: seq<Byte>)
    requires Writable(j)
    ensures RecordAt(before + EncodeJob(j) + after, |before|, j) && |EncodeJob(j)| == 8 + j.infoSize
  {
    hide EncodeInt;
    var file := before + EncodeJob(j) + after;
    IntIsAt(j.jobid, EncodeInt(j.infoSize) + j.info[..j.infoSize] + after);
    IntIsAt(j.infoSize, j.info[..j.infoSize] + after);
    assert file[|before|..] == EncodeInt(j.jobid) + (EncodeInt(j.infoSize) + j.info[..j.infoSize] + after);
    assert file[|before| + 4..] == EncodeInt(j.infoSize) + (j.info[..j.infoSize] + after);
    AtOffset(file, |before|, j.jobid);
    AtOffset(file, |before| + 4, j.infoSize);
  }

  lemma AtOffset(file: seq<Byte>, o: nat, x: int)
    requires o <= |file| && IntAt(file[o..], 0, x)
    ensures IntAt(file, o, x)
  {
  }

  /** The file: the records of the jobs from k on, the one of job k, and the others. */
  lemma {:induction false} FileSplits(jobs: seq<JobValue>, k: nat) returns (before: seq<Byte>, after: seq<Byte>)
    requires AllWritable(jobs) && k < |jobs|
    ensures FileOf(jobs) == before + EncodeJob(jobs[k]) + after && |before| == RecordStart(jobs, k)
    ensures (k == 0 ==> after == []) && before == EncodeInt(|jobs|) + Body(jobs[k + 1..])
    decreases k
  {
    hide EncodeInt, EncodeJob;
    before := EncodeInt(|jobs|) + Body(jobs[k + 1..]);
    BodyStep(jobs, k + 1);
    BodyLength(jobs, k);
    if k == 0 {
      after := [];
      assert jobs[0..] == jobs;
    } else {
      var b, a := FileSplits(jobs, k - 1);
      after := EncodeJob(jobs[k - 1]) + a;
      assert jobs[k - 1 + 1..] == jobs[k..];
      assert FileOf(jobs)
          == EncodeInt(|jobs|) + (Body(jobs[k + 1..]) + EncodeJob(jobs[k])) + EncodeJob(jobs[k - 1]) + a;
    }
  }

  lemma {:induction false} BodyLength(jobs: seq<JobValue>, k: nat)
    requires AllWritable(jobs) && k < |jobs|
    ensures 4 + |Body(jobs[k + 1..])| == RecordStart(jobs, k)
    decreases |jobs| - k
  {
    hide EncodeJob;
    if k == |jobs| - 1 {
      BodyOfNone(jobs[k + 1..]);
    } else {
      BodyLength(jobs, k + 1);
      BodyStep(jobs, k + 2);
      RecordIsAt([], jobs[k + 1], []);
    }
  }

  /** The file holds the number of jobs, then one record after the other, that of the first job at the very end. */
  lemma FileLayout(jobs: seq<JobValue>, k: nat)
    requires AllWritable(jobs) && k < |jobs| < 0x8000_0000
    ensures var (file, o) := (FileOf(jobs), RecordStart(jobs, k));
            && IntAt(file, 0, |jobs|)
            && 4 <= o && RecordAt(file, o, jobs[k])
            && (k == 0 ==> o + 8 + jobs[0].infoSize == |file|)
  {
    hide EncodeInt, EncodeJob, Body, IntAt;
    var before, after := FileSplits(jobs, k);
    IntIsAt(|jobs|, Body(jobs));
    RecordIsAt(before, jobs[k], after);
  }

  // ---------------------------------------------------------------- what is restored

  /** What restoring makes of a job: the size field is left at 1. */
  function Restored(j: JobValue): JobValue
    requires Writable(j)
  {
    JobValue(j.jobid, 1, j.info[..j.infoSize])
  }

  function RestoredAll(jobs: seq<JobValue>): (r: seq<JobValue>)
    requires AllWritable(jobs)
    ensures |r| == |jobs| && forall i :: 0 <= i < |jobs| ==> r[i] == Restored(jobs[i])
  {
    seq(|jobs|, i requires 0 <= i < |jobs| => Restored(jobs[i]))
  }

  /** The string in a buffer: the bytes before the first zero; none if it is not terminated. */
  function Terminated(info: seq<Byte>): bool { 0 in info }

  function CString(info: seq<Byte>): seq<Byte> {
    if info == [] || info[0] == 0 then [] else [info[0]] + CString(info[1..])
  }

  /** A job as createJob makes it for a string. */
  function Created(jobid: int, s: seq<Byte>): JobValue {
    JobValue(jobid, |s| + 1, s + [0])
  }

  lemma {:induction false} CStringOf(s: seq<Byte>)
    requires 0 !in s
    ensures CString(s + [0]) == s
  {
    if s != [] {
      assert (s + [0])[1..] == s[1..] + [0];
      CStringOf(s[1..]);
    }
  }

  /** One checkpoint and restore keeps the id and the string of every created job. */
  lemma FirstGenerationKeepsInfo(jobid: int, s: seq<Byte>)
    requires Writable(Created(jobid, s)) && 0 !in s
    ensures var r := Restored(Created(jobid, s)); r.jobid == jobid && Terminated(r.info) && CString(r.info) == s
  {
    CStringOf(s);
    assert (s + [0])[..|s| + 1] == s + [0];
    assert (s + [0])[|s|] == 0;
  }

  /** A second checkpoint of the restored job keeps the string, or even its terminator, exactly when it is empty. */
  lemma SecondGenerationKeepsOnlyEmpty(jobid: int, s: seq<Byte>)
    requires Writable(Created(jobid, s)) && 0 !in s
    ensures Writable(Restored(Created(jobid, s)))
    ensures var r := Restored(Restored(Created(jobid, s)));
            && (r.info == Created(jobid, s).info <==> s == [])
            && (Terminated(r.info) <==> s == [])
  {
    var first := Restored(Created(jobid, s));
    assert first.info == s + [0];
    assert first.info[..1] == [(s + [0])[0]];
  }
}

/** Jobs, nodes and the doubly linked list, with checkpoint and restore. */
module JobList {
  import opened JobEncoding
  import opened Options

  class Job {
    var jobid: int
    var infoSize: int
    var info: seq<Byte>

    /** A job with a copy of the string s. */
    constructor (jobid: int, s: seq<Byte>)
      ensures Value() == Created(jobid, s)
    {
      this.jobid, infoSize, info := jobid, |s| + 1, s + [0];
    }

    ghost function Value(): JobValue
      reads this
    {
      JobValue(jobid, infoSize, info)
    }

    /** The bytes written for the job. */
    method Checkpoint() returns (bytes: seq<Byte>)
      requires Writable(Value())
      ensures bytes == EncodeJob(Value())
    {
      bytes := EncodeInt(jobid);
      bytes := bytes + EncodeInt(infoSize);
      bytes := bytes + info[..infoSize];
    }
  }

  /** Read a job from the front of the stream. */
  method RestoreJob(stream: seq<Byte>, ghost written: JobValue, ghost after: seq<Byte>)
    returns (job: Job, rest: seq<Byte>)
    requires Writable(written) && stream == EncodeJob(written) + after
    ensures fresh(job) && job.Value() == Restored(written) && rest == after
  {
    IntRoundTrip(written.jobid);
    IntRoundTrip(written.infoSize);
    assert stream[..4] == EncodeInt(written.jobid) && stream[4..8] == EncodeInt(written.infoSize);
    var jobid := DecodeInt(stream[..4]);
    var infoSize := DecodeInt(stream[4..8]);
    job := new Job(jobid, []);
    assert stream[8..8 + infoSize] == written.info[..written.infoSize];
    job.info := stream[8..8 + infoSize];
    rest := stream[8 + infoSize..];
  }

  /** Read a job from the front of the stream and make a node for it. */
  method RestoreNode(stream: seq<Byte>, ghost written: JobValue, ghost after: seq<Byte>)
    returns (node: Node, rest: seq<Byte>)
    requires Writable(written) && stream == EncodeJob(written) + after
    ensures fresh(node) && node.data.Value() == Restored(written) && rest == after
  {
    hide Writable, EncodeJob, Restored;
    var data;
    data, rest := RestoreJob(stream, written, after);
    node := new Node(data);
  }

  class Node {
    const data: Job
    var next: Node?
    var prev: Node?

    constructor (data: Job)
      ensures this.data == data && next == null && prev == null
    {
      this.data, next, prev := data, null, null;
    }
  }

  /** The values of the jobs at the nodes. */
  ghost function ValuesOf(nodes: seq<Node>): (js: seq<JobValue>)
    reads set n | n in nodes :: n.data
    ensures |js| == |nodes| && forall i :: 0 <= i < |nodes| ==> js[i] == nodes[i].data.Value()
  {
    seq(|nodes|, i requires 0 <= i < |nodes| reads set n | n in nodes :: n.data => nodes[i].data.Value())
  }

  /** Node i leads to the node after it and back to the node before it. */
  ghost predicate Linked(nodes: seq<Node>, i: nat)
    requires i < |nodes|
    reads nodes[i]
  {
    && nodes[i].next == (if i == |nodes| - 1 then null else nodes[i + 1])
    && nodes[i].prev == (if i == 0 then null else nodes[i - 1])
  }

  class List {
    var size: int
    var head: Node?
    var tail: Node?
    ghost var nodes: seq<Node>

    /** A well-formed doubly linked list: head and tail are its ends, next leads from node to node, prev mirrors it. */
    ghost predicate Valid()
      reads this, nodes
    {
      && size == |nodes|
      && (forall i, j :: 0 <= i < j < |nodes| ==> nodes[i] != nodes[j])
      && head == (if nodes == [] then null else nodes[0])
      && tail == (if nodes == [] then null else nodes[|nodes| - 1])
      && (forall i :: 0 <= i < |nodes| ==> Linked(nodes, i))
    }

    ghost function Jobs(): (js: seq<JobValue>)
      reads this, set n | n in nodes :: n.data
      ensures |js| == |nodes|
    {
      ValuesOf(nodes)
    }

    constructor ()
      ensures Valid() && nodes == []
    {
      size, head, tail, nodes := 0, null, null, [];
    }

    /** Put the node in front; no node, no change. */
    method AddAtFront(node: Node?)
      requires Valid() && node !in nodes
      modifies this, node, head
      ensures Valid()
      ensures nodes == if node == null then old(nodes) else [node] + old(nodes)
      ensures node == null ==> unchanged(this) && (head != null ==> unchanged(head))
    {
      if node == null {
        return;
      }
      size := size + 1;
      node.next := head;
      node.prev := null;
      if head == null {
        head := node;
        tail := node;
      } else {
        head.prev := node;
        head := node;
      }
      nodes := [node] + nodes;
      forall i | 0 <= i < |nodes|
        ensures Linked(nodes, i)
      {
        assert i > 0 ==> old(Linked(nodes, i - 1));
      }
    }
  }

  /**
    Write the list, from the tail to the head, after its size.  There is nothing to write for no list or
    an empty one, and nothing is written without a file name or when the file cannot be opened.
   */
  method CheckpointList(list: List?, saveFile: Option<string>, opens: bool) returns (ok: bool, file: Option<seq<Byte>>)
    requires list != null ==> list.Valid() && AllWritable(list.Jobs()) && list.size < TWO_31
    ensures ok <==> list == null || list.nodes == [] || (saveFile.Some? && saveFile.value != "" && opens)
    ensures file == if ok && list != null && list.nodes != [] then Some(FileOf(list.Jobs())) else None
  {
    hide EncodeInt, EncodeJob, Body, Writable;
    if list == null || list.size == 0 {
      return true, None;
    }
    if saveFile == None || saveFile.value == "" || !opens {
      return false, None;
    }
    ghost var jobs := list.Jobs();
    ghost var k := |jobs|;
    var out := EncodeInt(list.size);
    BodyOfNone(jobs[k..]);
    var node := list.tail;
    while node != null
      invariant 0 <= k <= |jobs| && jobs == list.Jobs() && AllWritable(jobs[k..])
      invariant node == if k == 0 then null else list.nodes[k - 1]
      invariant out == EncodeInt(|jobs|) + Body(jobs[k..])
      decreases k
    {
      assert jobs[k - 1] == list.nodes[k - 1].data.Value();
      var bytes := node.data.Checkpoint();
      BodyStep(jobs, k);
      assert EncodeInt(|jobs|) + Body(jobs[k..]) + bytes == EncodeInt(|jobs|) + (Body(jobs[k..]) + bytes);
      out := out + bytes;
      assert Linked(list.nodes, k - 1);
      node := node.prev;
      k := k - 1;
    }
    assert jobs[0..] == jobs;
    return true, Some(out);
  }

  /** The list holds the restored jobs from position k on, and the stream the jobs before it, last first. */
  ghost predicate RestoredFrom(list: List, stream: seq<Byte>, jobs: seq<JobValue>, k: nat)
    requires AllWritable(jobs)
    reads list, list.nodes, set n | n in list.nodes :: n.data
  {
    && k <= |jobs| && list.Valid() && |list.nodes| == |jobs| - k
    && AllWritable(jobs[..k]) && stream == Body(jobs[..k])
    && forall i :: 0 <= i < |list.nodes| ==> list.nodes[i].data.Value() == Restored(jobs[k + i])
  }

  /** One turn of restoring: the next job in the stream goes in front. */
  method RestoreOne(list: List, stream: seq<Byte>, ghost jobs: seq<JobValue>, ghost k: nat) returns (rest: seq<Byte>)
    requires AllWritable(jobs) && 1 <= k && RestoredFrom(list, stream, jobs, k)
    modifies list, list.nodes
    ensures RestoredFrom(list, rest, jobs, k - 1)
    ensures exists n: Node :: fresh(n) && list.nodes == [n] + old(list.nodes)
  {
    hide EncodeJob, Body, Writable, Restored, Linked;
    BodyOfPrefix(jobs, k);
    var node;
    node, rest := RestoreNode(stream, jobs[k - 1], Body(jobs[..k - 1]));
    assert list.head != null ==> list.head in list.nodes;
    ghost var before := list.nodes;
    list.AddAtFront(node);
    assert list.nodes == [node] + before;
    forall i | 0 <= i < |list.nodes|
      ensures list.nodes[i].data.Value() == Restored(jobs[k - 1 + i])
    {
      if i > 0 { assert list.nodes[i] == before[i - 1]; }
    }
  }

  /**
    Rebuild the list from the file written for the given jobs.  There is none for an empty list, without a
    file name, and when the file cannot be opened, that is, when it has no contents.
   */
  method RestoreList(saveFile: Option<string>, contents: Option<seq<Byte>>, ghost jobs: seq<JobValue>)
    returns (list: List?)
    requires AllWritable(jobs) && |jobs| < TWO_31 && (contents.Some? ==> contents.value == FileOf(jobs))
    ensures list == null <==> saveFile.None? || saveFile.value == "" || contents.None? || jobs == []
    ensures list != null ==> fresh(list) && list.Valid() && list.Jobs() == RestoredAll(jobs)
  {
    hide EncodeInt, DecodeInt, Body, Writable, Restored, Linked;
    if saveFile == None || saveFile.value == "" || contents == None {
      return null;
    }
    var file := contents.value;
    IntRoundTrip(|jobs|);
    assert file[..4] == EncodeInt(|jobs|) && file[4..] == Body(jobs);
    var size := DecodeInt(file[..4]);
    if size <= 0 {
      return null;
    }
    var stream := file[4..];
    list := new List();
    assert jobs[..size] == jobs;
    while size > 0
      invariant 0 <= size && fresh(list) && RestoredFrom(list, stream, jobs, size)
      invariant fresh(list.nodes)
    {
      stream := RestoreOne(list, stream, jobs, size);
      size := size - 1;
    }
  }

  /** Checkpoint then restore rebuilds a well-formed list with the same ids and strings in the same order. */
  method SaveAndRestore(list: List, saveFile: string) returns (restored: List?)
    requires list.Valid() && list.nodes != [] && AllWritable(list.Jobs()) && list.size < TWO_31 && saveFile != ""
    ensures restored != null && fresh(restored) && restored.Valid() && restored.size == old(list.size)
    ensures forall i :: 0 <= i < |restored.Jobs()| ==>
              && restored.Jobs()[i].jobid == old(list.Jobs())[i].jobid
              && restored.Jobs()[i].info == old(list.Jobs())[i].info[..old(list.Jobs())[i].infoSize]
  {
    ghost var jobs := list.Jobs();
    var ok, file := CheckpointList(list, Some(saveFile), true);
    restored := RestoreList(Some(saveFile), file, jobs);
  }
}

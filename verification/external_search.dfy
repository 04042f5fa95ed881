/**
  Searching a file of fixed-size records: binary search, whose window starts one record too wide,
  against linear search.  Both read into one record buffer, which a read past the end of the file
  leaves as it was; before the first read it holds whatever the allocator returned.
 */
module ExternalSearch {
  import opened Options

  const TWO_63 := 0x8000_0000_0000_0000
  const TWO_64 := 0x1_0000_0000_0000_0000

  datatype Record = Record(key: int, value1: real, value2: real, value3: real)

  /** The record's signed 64-bit key as the comparison with an unsigned key sees it. */
  function KeyOf(r: Record): int {
    r.key % TWO_64
  }

  /** A signed 64-bit key is compared as it is or, when negative, as a number above all others. */
  lemma KeysAreUnsigned(r: Record)
    requires -0x8000_0000_0000_0000 <= r.key < 0x8000_0000_0000_0000
    ensures KeyOf(r) == if r.key < 0 then r.key + 0x1_0000_0000_0000_0000 else r.key
  {
  }

  /** Reading record i into the buffer. */
  function Read(file: seq<Record>, i: nat, buffer: Record): Record {
    if i < |file| then file[i] else buffer
  }

  /** The keys, compared as the search compares them, never decrease. */
  ghost predicate Sorted(file: seq<Record>) {
    forall i, j :: 0 <= i < j < |file| ==> KeyOf(file[i]) <= KeyOf(file[j])
  }

  /** The keys, compared as the search compares them, strictly increase. */
  ghost predicate Increasing(file: seq<Record>) {
    forall i, j :: 0 <= i < j < |file| ==> KeyOf(file[i]) < KeyOf(file[j])
  }

  /** The keys are signed 64-bit values and strictly increase as such. */
  ghost predicate SignedIncreasing(file: seq<Record>) {
    && (forall i :: 0 <= i < |file| ==> -TWO_63 <= file[i].key < TWO_63)
    && (forall i, j :: 0 <= i < j < |file| ==> file[i].key < file[j].key)
  }

  /** A file in signed order is in order for the search if and only if it does not mix negative keys with others. */
  lemma SignedOrderIsSearchOrder(file: seq<Record>)
    requires SignedIncreasing(file)
    ensures Increasing(file) <==> file == [] || 0 <= file[0].key || file[|file| - 1].key < 0
  {
    forall i | 0 <= i < |file|
      ensures KeyOf(file[i]) == file[i].key + if file[i].key < 0 then TWO_64 else 0
    {
      KeysAreUnsigned(file[i]);
    }
  }

  /** The record is in the file under the key, or nothing is and the search comes back empty-handed. */
  ghost predicate IsAnswer(file: seq<Record>, key: nat, answer: Option<Record>) {
    match answer
    case Some(r) => r in file && KeyOf(r) == key
    case None => forall i :: 0 <= i < |file| ==> KeyOf(file[i]) != key
  }

  /** In a file with increasing keys there is one answer for each key. */
  lemma AnswerIsUnique(file: seq<Record>, key: nat, a: Option<Record>, b: Option<Record>)
    requires Increasing(file) && IsAnswer(file, key, a) && IsAnswer(file, key, b)
    ensures a == b
  {
    if a.Some? && b.Some? {
      var i :| 0 <= i < |file| && file[i] == a.value;
      var j :| 0 <= j < |file| && file[j] == b.value;
      assert i == j;
    }
  }

  /** What binary search may answer: on an empty file it compares the key with the buffer as it was allocated. */
  ghost predicate IsBinaryAnswer(file: seq<Record>, key: nat, garbage: Record, answer: Option<Record>) {
    if file != [] then IsAnswer(file, key, answer)
    else answer == if KeyOf(garbage) == key then Some(garbage) else None
  }

  /** What the search answers from the window low..high on, the buffer holding the record read last. */
  function Bin(file: seq<Record>, key: nat, low: int, high: int, buffer: Record): Option<Record>
    requires 0 <= low
    decreases high - low + 1
  {
    if low > high then None
    else
      var mid := (low + high) / 2;
      var record := Read(file, mid, buffer);
      if KeyOf(record) == key then Some(record)
      else if KeyOf(record) < key then Bin(file, key, mid + 1, high, record)
      else Bin(file, key, low, mid - 1, record)
  }

  /** The buffer holds another key, so a read past the end of the file, which leaves it as it is, finds nothing. */
  lemma {:induction false} FoundInWindow(file: seq<Record>, key: nat, low: int, high: int, buffer: Record)
    requires 0 <= low && KeyOf(buffer) != key
    ensures var answer := Bin(file, key, low, high, buffer);
            answer.Some? ==>
              exists i :: low <= i <= high && i < |file| && file[i] == answer.value && KeyOf(file[i]) == key
    decreases high - low + 1
  {
    if low <= high {
      var mid := (low + high) / 2;
      var record := Read(file, mid, buffer);
      if KeyOf(record) < key {
        FoundInWindow(file, key, mid + 1, high, record);
      } else if KeyOf(record) > key {
        FoundInWindow(file, key, low, mid - 1, record);
      }
    }
  }

  /** In a sorted file a search whose window has the key finds it. */
  lemma {:induction false} SortedIsFound(file: seq<Record>, key: nat, low: int, high: int, buffer: Record, i: nat)
    requires Sorted(file) && 0 <= low <= i <= high <= |file| && i < |file|
    requires KeyOf(file[i]) == key && KeyOf(buffer) != key
    ensures Bin(file, key, low, high, buffer).Some?
    decreases high - low + 1
  {
    var mid := (low + high) / 2;
    assert mid < |file|;
    if KeyOf(file[mid]) < key {
      SortedIsFound(file, key, mid + 1, high, file[mid], i);
    } else if KeyOf(file[mid]) > key {
      SortedIsFound(file, key, low, mid - 1, file[mid], i);
    }
  }

  /** In a file with a record the first read fills the buffer, so what it held does not matter. */
  lemma GarbageIsOverwritten(file: seq<Record>, key: nat, garbage: Record) returns (buffer: Record)
    requires file != []
    ensures KeyOf(buffer) != key && Bin(file, key, 0, |file|, garbage) == Bin(file, key, 0, |file|, buffer)
  {
    buffer := Record(key + 1, 0.0, 0.0, 0.0);
  }

  /** The search, as a whole, answers rightly when the file is sorted. */
  lemma SortedIsAnswered(file: seq<Record>, key: nat, garbage: Record)
    requires key < TWO_64 && Sorted(file)
    ensures IsBinaryAnswer(file, key, garbage, Bin(file, key, 0, |file|, garbage))
  {
    if file != [] {
      var buffer := GarbageIsOverwritten(file, key, garbage);
      FoundInWindow(file, key, 0, |file|, buffer);
      forall i | 0 <= i < |file| && KeyOf(file[i]) == key
        ensures Bin(file, key, 0, |file|, buffer).Some?
      {
        SortedIsFound(file, key, 0, |file|, buffer, i);
      }
    }
  }

  /** Binary search in the window low..high, high being a valid probe although no record is there at first. */
  method ExtBinarySearch(dataFile: Option<seq<Record>>, key: nat, garbage: Record) returns (answer: Option<Record>)
    requires key < TWO_64
    ensures dataFile.None? ==> answer == None
    ensures dataFile.Some? ==> answer == Bin(dataFile.value, key, 0, |dataFile.value|, garbage)
    ensures dataFile.Some? && Sorted(dataFile.value) ==> IsBinaryAnswer(dataFile.value, key, garbage, answer)
  {
    if dataFile == None {
      return None;
    }
    var file := dataFile.value;
    if Sorted(file) {
      SortedIsAnswered(file, key, garbage);
    }
    var low, high: int := 0, |file|;
    var record := garbage;
    while low <= high
      invariant 0 <= low <= |file| + 1 && -1 <= high <= |file|
      invariant Bin(file, key, low, high, record) == Bin(file, key, 0, |file|, garbage)
      decreases high - low + 1
    {
      var mid := (low + high) / 2;
      record := Read(file, mid, record);
      if KeyOf(record) == key {
        return Some(record);
      } else if KeyOf(record) < key {
        low := mid + 1;
      } else {
        high := mid - 1;
      }
    }
    return None;
  }

  // ---------------------------------------------------------------- which files are searched rightly

  /** No key repeats. */
  ghost predicate Distinct(file: seq<Record>) {
    forall i, j :: 0 <= i < j < |file| ==> KeyOf(file[i]) != KeyOf(file[j])
  }

  /** Every key is answered rightly. */
  ghost predicate AnswersAll(file: seq<Record>, garbage: Record) {
    forall key: nat :: key < TWO_64 ==> IsAnswer(file, key, Bin(file, key, 0, |file|, garbage))
  }

  /** From the window low..high on, with some other record in the buffer, the search finds the key of record i. */
  ghost predicate Finds(file: seq<Record>, low: nat, high: int, i: nat)
    requires i < |file|
  {
    exists buffer :: KeyOf(buffer) != KeyOf(file[i]) && Bin(file, KeyOf(file[i]), low, high, buffer).Some?
  }

  /** One probe: a record that is found lies on the side its key sends the search to, and is found there. */
  lemma FoundOnItsSide(file: seq<Record>, low: nat, high: int, i: nat)
    requires Distinct(file) && low <= i <= high <= |file| && i < |file| && Finds(file, low, high, i)
    ensures var mid := (low + high) / 2;
            && mid < |file|
            && (i < mid ==> KeyOf(file[i]) < KeyOf(file[mid]) && Finds(file, low, mid - 1, i))
            && (mid < i ==> KeyOf(file[mid]) < KeyOf(file[i]) && Finds(file, mid + 1, high, i))
  {
    var mid, key := (low + high) / 2, KeyOf(file[i]);
    assert mid < |file|;
    var buffer :| KeyOf(buffer) != key && Bin(file, key, low, high, buffer).Some?;
    if mid != i {
      assert KeyOf(file[mid]) != key;
      FoundInWindow(file, key, mid + 1, high, file[mid]);
      FoundInWindow(file, key, low, mid - 1, file[mid]);
    }
  }

  /** A window whose records are all found is in increasing order. */
  lemma {:induction false} FoundIsOrdered(file: seq<Record>, low: nat, high: int, i: nat, j: nat)
    requires Distinct(file) && low <= i < j <= high <= |file| && j < |file|
    requires forall k: nat :: low <= k <= high && k < |file| ==> Finds(file, low, high, k)
    ensures KeyOf(file[i]) < KeyOf(file[j])
    decreases high - low + 1
  {
    hide Finds, Distinct, Bin;
    var mid := (low + high) / 2;
    var before: int, after: nat := mid - 1, mid + 1;
    FoundOnItsSide(file, low, high, i);
    FoundOnItsSide(file, low, high, j);
    if j < mid {
      forall k: nat | low <= k <= before && k < |file|
        ensures Finds(file, low, before, k)
      {
        FoundOnItsSide(file, low, high, k);
      }
      FoundIsOrdered(file, low, before, i, j);
    } else if mid < i {
      forall k: nat | after <= k <= high && k < |file|
        ensures Finds(file, after, high, k)
      {
        FoundOnItsSide(file, low, high, k);
      }
      FoundIsOrdered(file, after, high, i, j);
    }
  }

  /** On a file in which no key repeats, binary search answers every key rightly if and only if the keys increase. */
  lemma AnswersAllIfIncreasing(file: seq<Record>, garbage: Record)
    requires file != [] && Distinct(file)
    ensures AnswersAll(file, garbage) <==> Increasing(file)
  {
    if Increasing(file) {
      forall key: nat | key < TWO_64
        ensures IsAnswer(file, key, Bin(file, key, 0, |file|, garbage))
      {
        SortedIsAnswered(file, key, garbage);
      }
    }
    if AnswersAll(file, garbage) {
      forall k: nat | k < |file|
        ensures Finds(file, 0, |file|, k)
      {
        var buffer := GarbageIsOverwritten(file, KeyOf(file[k]), garbage);
        assert IsAnswer(file, KeyOf(file[k]), Bin(file, KeyOf(file[k]), 0, |file|, garbage));
      }
      forall i, j | 0 <= i < j < |file|
        ensures KeyOf(file[i]) < KeyOf(file[j])
      {
        FoundIsOrdered(file, 0, |file|, i, j);
      }
    }
  }

  /** When keys repeat, a file out of order can still be searched rightly: each key has one record that is met. */
  lemma RepeatsCanHideDisorder(garbage: Record)
    ensures var (a, b) := (Record(5, 0.0, 0.0, 0.0), Record(3, 0.0, 0.0, 0.0));
            AnswersAll([a, b, a], garbage) && !Sorted([a, b, a])
  {
    var a, b := Record(5, 0.0, 0.0, 0.0), Record(3, 0.0, 0.0, 0.0);
    var file := [a, b, a];
    assert KeyOf(file[0]) > KeyOf(file[1]);
    forall key: nat | key < TWO_64
      ensures IsAnswer(file, key, Bin(file, key, 0, |file|, garbage))
    {
      var buffer := GarbageIsOverwritten(file, key, garbage);
      FoundInWindow(file, key, 0, |file|, buffer);
      assert file[2] == a && file[1] == b;
      assert key == 5 ==> Bin(file, 5, 2, 3, b) == Some(a);
    }
  }

  /** In signed order binary search answers every key rightly if and only if no negative key comes with another. */
  lemma AnswersAllInSignedOrder(file: seq<Record>, garbage: Record)
    requires file != [] && SignedIncreasing(file)
    ensures AnswersAll(file, garbage) <==> 0 <= file[0].key || file[|file| - 1].key < 0
  {
    SignedOrderIsSearchOrder(file);
    SignedKeysAreDistinct(file);
    AnswersAllIfIncreasing(file, garbage);
  }

  lemma SignedKeysAreDistinct(file: seq<Record>)
    requires SignedIncreasing(file)
    ensures Distinct(file)
    ensures forall i :: 0 <= i < |file| ==> KeyOf(file[i]) == file[i].key + if file[i].key < 0 then TWO_64 else 0
  {
  }

  /** On every file in signed order that mixes negative keys with others, the record at one end is not found. */
  lemma MixedFilesHideAnEnd(file: seq<Record>, garbage: Record)
    requires file != [] && SignedIncreasing(file) && file[0].key < 0 <= file[|file| - 1].key
    ensures var hidden := if file[|file| / 2].key < 0 then |file| - 1 else 0;
            Bin(file, KeyOf(file[hidden]), 0, |file|, garbage) == None
  {
    SignedKeysAreDistinct(file);
    var mid := |file| / 2;
    var hidden := if file[mid].key < 0 then |file| - 1 else 0;
    var key := KeyOf(file[hidden]);
    FoundInWindow(file, key, mid + 1, |file|, file[mid]);
    FoundInWindow(file, key, 0, mid - 1, file[mid]);
  }

  /** The first record in the file under the key. */
  ghost predicate IsFirst(file: seq<Record>, key: nat, r: Record) {
    exists i :: 0 <= i < |file| && file[i] == r && KeyOf(r) == key && forall j :: 0 <= j < i ==> KeyOf(file[j]) != key
  }

  /** Read the records one after the other until the key turns up. */
  method ExtLinearSearch(dataFile: Option<seq<Record>>, key: nat, garbage: Record) returns (answer: Option<Record>)
    requires key < TWO_64
    ensures dataFile.None? ==> answer == None
    ensures dataFile.Some? ==> IsAnswer(dataFile.value, key, answer)
    ensures dataFile.Some? && answer.Some? ==> IsFirst(dataFile.value, key, answer.value)
  {
    if dataFile == None {
      return None;
    }
    var file := dataFile.value;
    var record := garbage;
    var i := 0;
    while i < |file|
      invariant 0 <= i <= |file|
      invariant forall j :: 0 <= j < i ==> KeyOf(file[j]) != key
    {
      record := Read(file, i, record);
      if KeyOf(record) == key {
        return Some(record);
      }
      i := i + 1;
    }
    return None;
  }

  /**
    The two searches agree on whether a sorted file with a record in it has the key and, when no key repeats,
    on the record.  On an empty file they agree exactly when the allocated buffer happens not to hold the key.
   */
  method SearchBoth(file: seq<Record>, key: nat, garbage: Record, garbage': Record)
    returns (binary: Option<Record>, linear: Option<Record>)
    requires key < TWO_64 && Sorted(file)
    ensures IsBinaryAnswer(file, key, garbage, binary) && IsAnswer(file, key, linear)
    ensures file != [] ==> (binary.Some? <==> linear.Some?)
    ensures Increasing(file) ==> (binary == linear <==> file != [] || KeyOf(garbage) != key)
  {
    binary := ExtBinarySearch(Some(file), key, garbage);
    linear := ExtLinearSearch(Some(file), key, garbage');
    if file != [] && Increasing(file) {
      AnswerIsUnique(file, key, binary, linear);
    }
  }

  /** With this content of the allocated buffer, binary search answers as any search that answers rightly. */
  ghost predicate Agrees(file: seq<Record>, key: nat, garbage: Record) {
    forall b :: IsAnswer(file, key, b) ==> Bin(file, key, 0, |file|, garbage) == b
  }

  /** The two searches agree whatever the buffer holds when it is allocated if and only if the file has a record. */
  lemma AgreementIsSureWithRecords(file: seq<Record>, key: nat)
    requires key < TWO_64 && Increasing(file)
    ensures file != [] <==> forall garbage :: Agrees(file, key, garbage)
  {
    if file == [] {
      var garbage := Record(if key < TWO_63 then key else key - TWO_64, 0.0, 0.0, 0.0);
      assert Bin(file, key, 0, |file|, garbage) == Some(garbage);
      assert IsAnswer(file, key, None) && !Agrees(file, key, garbage);
    } else {
      forall garbage, b | IsAnswer(file, key, b)
        ensures Bin(file, key, 0, |file|, garbage) == b
      {
        SortedIsAnswered(file, key, garbage);
        AnswerIsUnique(file, key, Bin(file, key, 0, |file|, garbage), b);
      }
    }
  }

  /** On records in signed order, none or all of them under negative keys, both searches give the same record. */
  method SearchSigned(file: seq<Record>, key: nat, garbage: Record, garbage': Record)
    returns (binary: Option<Record>, linear: Option<Record>)
    requires key < TWO_64 && file != [] && SignedIncreasing(file)
    requires 0 <= file[0].key || file[|file| - 1].key < 0
    ensures binary == linear && IsAnswer(file, key, linear)
  {
    SignedOrderIsSearchOrder(file);
    binary, linear := SearchBoth(file, key, garbage, garbage');
  }
}

/**
 * The batching and outcome-counting logic of `index_documents_async`
 * (ingestion.py): the document list is cut into consecutive slices of
 * `batch_size`, each slice is submitted to the vector store as a task
 * numbered from 1, and the tasks' boolean results are reduced to a
 * success count that is compared with the number of batches.
 *
 * The vector store itself is not modelled: whether a submission succeeds is
 * an opaque function of the task (the batch and its number).
 */
module Ingestion {
  import opened Seqs

  /** Default `batch_size` of `index_documents_async`. */
  const DefaultBatchSize: int := 50

  /** The batch size the ingestion pipeline passes. */
  const PipelineBatchSize: int := 500

  function Min(a: int, b: int): int
  {
    if a <= b then a else b
  }

  /** Python's `range(start, stop, step)` for a positive step. */
  function Range(start: nat, stop: nat, step: nat): (r: seq<nat>)
    requires step > 0
    ensures forall k :: 0 <= k < |r| ==> r[k] == start + k * step && r[k] < stop
    ensures |r| == 0 <==> stop <= start
    ensures start < stop ==> start + (|r| - 1) * step < stop <= start + |r| * step
    decreases stop - start
  {
    if stop <= start then []
    else
      var rest := Range(start + step, stop, step);
      MulSucc(|rest|, step);
      assert forall k :: 1 <= k <= |rest| ==> (k - 1) * step + step == k * step;
      [start] + rest
  }

  /** Python's slice `s[lo:hi]` for non-negative bounds: both bounds are clamped to `|s|`. */
  function Slice<T>(s: seq<T>, lo: nat, hi: nat): (r: seq<T>)
    ensures |r| == if lo < hi && lo < |s| then Min(hi, |s|) - lo else 0
    ensures forall k :: 0 <= k < |r| ==> r[k] == s[lo + k]
  {
    var l := Min(lo, |s|);
    var h := Min(hi, |s|);
    if l < h then s[l..h] else []
  }

  /** The batches of ingestion.py:50-52: one slice of up to b documents for each start 0, b, 2b, ... below the length. */
  function Batches<T>(docs: seq<T>, b: nat): seq<seq<T>>
    requires b > 0
  {
    var starts := Range(0, |docs|, b);
    seq(|starts|, k requires 0 <= k < |starts| => Slice(docs, starts[k], starts[k] + b))
  }

  lemma MulSucc(k: int, b: int)
    ensures (k + 1) * b == k * b + b
  {
  }

  lemma MulCancelLess(i: int, j: int, b: int)
    requires b > 0
    requires i * b < j * b
    ensures i < j
  {
    assert (j - i) * b == j * b - i * b;
  }

  /** Ceiling division: the k with (k - 1) * b < n <= k * b is (n + b - 1) / b. */
  lemma CeilDiv(n: nat, b: nat, k: nat)
    requires b > 0
    requires (k - 1) * b < n <= k * b
    ensures k == (n + b - 1) / b
  {
    var q := (n + b - 1) / b;
    var rem := (n + b - 1) % b;
    assert n + b - 1 == q * b + rem;
    MulSucc(q, b);
    MulSucc(k, b);
    MulSucc(k - 1, b);
    MulCancelLess(k, q + 1, b);
    MulCancelLess(q, k + 1, b);
  }

  /** There are just enough batches to reach the end of the documents. */
  lemma BatchCountBounds<T>(docs: seq<T>, b: nat)
    requires b > 0
    ensures (|Batches(docs, b)| - 1) * b < |docs| <= |Batches(docs, b)| * b
  {
    assert |Batches(docs, b)| == |Range(0, |docs|, b)|;
  }

  /** Batch k is the slice of b documents starting at k * b, cut short at the end of the list. */
  lemma BatchAt<T>(docs: seq<T>, b: nat, k: nat)
    requires b > 0
    requires k < |Batches(docs, b)|
    ensures k * b < |docs|
    ensures Batches(docs, b)[k] == docs[k * b .. Min((k + 1) * b, |docs|)]
  {
    var starts := Range(0, |docs|, b);
    var lo := starts[k];
    assert lo == k * b && lo < |docs|;
    MulSucc(k, b);
    var slice := Slice(docs, lo, lo + b);
    assert Batches(docs, b)[k] == slice;
    assert slice == docs[lo .. Min(lo + b, |docs|)];
  }

  /**
   * Batch k is the slice of b documents starting at k * b, cut short at the
   * end of the list, and there are just enough batches to reach the end.
   */
  lemma BatchContents<T>(docs: seq<T>, b: nat)
    requires b > 0
    ensures var batches := Batches(docs, b);
      && (|batches| - 1) * b < |docs| <= |batches| * b
      && forall k :: 0 <= k < |batches| ==>
           batches[k] == docs[k * b .. Min((k + 1) * b, |docs|)]
  {
    BatchCountBounds(docs, b);
    forall k | 0 <= k < |Batches(docs, b)|
      ensures Batches(docs, b)[k] == docs[k * b .. Min((k + 1) * b, |docs|)]
    {
      BatchAt(docs, b, k);
    }
  }

  /** The number of batches is ceil(len(documents) / batch_size). */
  lemma BatchCount<T>(docs: seq<T>, b: nat)
    requires b > 0
    ensures |Batches(docs, b)| == (|docs| + b - 1) / b
  {
    BatchCountBounds(docs, b);
    CeilDiv(|docs|, b, |Batches(docs, b)|);
  }

  /**
   * Every batch is non-empty and holds at most b documents; every batch but the
   * last holds exactly b, and the last holds the remaining 1..b documents.
   */
  lemma BatchSizes<T>(docs: seq<T>, b: nat)
    requires b > 0
    ensures var batches := Batches(docs, b);
      && (forall k :: 0 <= k < |batches| ==> 0 < |batches[k]| <= b)
      && (forall k :: 0 <= k < |batches| - 1 ==> |batches[k]| == b)
      && (|batches| > 0 ==> |batches[|batches| - 1]| == |docs| - (|batches| - 1) * b)
  {
    var batches := Batches(docs, b);
    forall k | 0 <= k < |batches|
      ensures 0 < |batches[k]| <= b
      ensures k < |batches| - 1 ==> |batches[k]| == b
    {
      BatchAt(docs, b, k);
      MulSucc(k, b);
      if k < |batches| - 1 {
        BatchAt(docs, b, k + 1);
      }
    }
    if |batches| > 0 {
      BatchAt(docs, b, |batches| - 1);
      BatchCountBounds(docs, b);
      MulSucc(|batches| - 1, b);
    }
  }

  /** The cut points of the batches: batch j runs from bounds[j] to bounds[j + 1], the last ending at the end. */
  lemma BatchBounds<T>(docs: seq<T>, b: nat) returns (bounds: seq<nat>)
    requires b > 0
    ensures |bounds| == |Batches(docs, b)| + 1
    ensures bounds[0] == 0 && bounds[|Batches(docs, b)|] == |docs|
    ensures forall j :: 0 <= j < |Batches(docs, b)| ==> SliceAt(docs, Batches(docs, b), bounds, j)
  {
    var n := |Batches(docs, b)|;
    bounds := seq(n + 1, j requires 0 <= j <= n => Min(j * b, |docs|));
    forall j | 0 <= j < n
      ensures SliceAt(docs, Batches(docs, b), bounds, j)
    {
      BatchAt(docs, b, j);
      MulSucc(j, b);
    }
    BatchCountBounds(docs, b);
  }

  /** Joining the batches in order gives back the documents: nothing lost, repeated or reordered. */
  lemma BatchesCover<T>(docs: seq<T>, b: nat)
    requires b > 0
    ensures Concat(Batches(docs, b)) == docs
  {
    var bounds := BatchBounds(docs, b);
    ConcatOfSlices(docs, Batches(docs, b), bounds);
    assert docs[..|docs|] == docs;
  }

  /** One call of `add_batch(batch, batch_num)`. */
  datatype Task<T> = Task(batch: seq<T>, number: nat)

  /** `enumerate` over the batches with the index shifted to start at `first`. */
  function Enumerate<T>(batches: seq<seq<T>>, first: nat): (tasks: seq<Task<T>>)
    ensures |tasks| == |batches|
    ensures forall i :: 0 <= i < |tasks| ==> tasks[i] == Task(batches[i], first + i)
  {
    if |batches| == 0 then []
    else [Task(batches[0], first)] + Enumerate(batches[1..], first + 1)
  }

  /** The tasks of ingestion.py:71: one per batch, in batch order, numbered from 1. */
  function Tasks<T>(batches: seq<seq<T>>): seq<Task<T>>
  {
    Enumerate(batches, 1)
  }

  /** The numbers the tasks carry. */
  function Numbers<T>(tasks: seq<Task<T>>): set<nat>
  {
    set i | 0 <= i < |tasks| :: tasks[i].number
  }

  /** The batch numbers are exactly 1 .. len(batches), increasing along the list. */
  lemma BatchNumbers<T>(batches: seq<seq<T>>)
    ensures var tasks := Tasks(batches);
      && (forall n :: n in Numbers(tasks) <==> 1 <= n <= |batches|)
      && (forall i, j :: 0 <= i < j < |tasks| ==> tasks[i].number < tasks[j].number)
  {
    var tasks := Tasks(batches);
    forall n | 1 <= n <= |batches|
      ensures n in Numbers(tasks)
    {
      assert tasks[n - 1].number == n;
    }
  }

  /** The success count of ingestion.py:75: how many per-batch results are `True`. */
  function CountSucceeded(results: seq<bool>): (n: nat)
    ensures n <= |results|
    ensures n == |results| <==> forall i :: 0 <= i < |results| ==> results[i]
    ensures n == 0 <==> forall i :: 0 <= i < |results| ==> !results[i]
  {
    if |results| == 0 then 0
    else (if results[0] then 1 else 0) + CountSucceeded(results[1..])
  }

  /** The success count is the number of occurrences of `true` among the results. */
  lemma {:induction false} CountIsOccurrences(results: seq<bool>)
    ensures CountSucceeded(results) == multiset(results)[true]
  {
    if |results| > 0 {
      CountIsOccurrences(results[1..]);
      assert results == [results[0]] + results[1..];
      assert multiset(results) == multiset{results[0]} + multiset(results[1..]);
    }
  }

  /** The numbers of the tasks whose result is `False`, in order (the batches reported as failed). */
  function FailedNumbers<T>(tasks: seq<Task<T>>, results: seq<bool>): (failed: seq<nat>)
    requires |tasks| == |results|
    ensures |failed| + CountSucceeded(results) == |results|
    ensures forall n :: n in failed <==>
      exists i :: 0 <= i < |tasks| && !results[i] && tasks[i].number == n
  {
    if |tasks| == 0 then []
    else
      var rest := FailedNumbers(tasks[1..], results[1..]);
      assert forall i :: 1 <= i < |tasks| ==> tasks[1..][i - 1] == tasks[i] && results[1..][i - 1] == results[i];
      if results[0] then rest else [tasks[0].number] + rest
  }

  /** The `ValueError` that `range()` raises at ingestion.py:51 for a step of zero. */
  datatype BatchSizeError = ZeroBatchSize

  datatype Result<T> = Ok(value: T) | Err(error: BatchSizeError)

  /** What a call of `index_documents_async` reports. */
  datatype Report = Report(total: nat, succeeded: nat, failed: seq<nat>)

  /** The test of ingestion.py:77: as many batches succeeded as were attempted. */
  predicate AllSucceeded(r: Report)
  {
    r.succeeded == r.total
  }

  /** The per-task results that `gather` collects at ingestion.py:72, in task order. */
  function Outcomes<T>(tasks: seq<Task<T>>, accept: Task<T> -> bool): (results: seq<bool>)
    ensures |results| == |tasks|
    ensures forall i :: 0 <= i < |tasks| ==> results[i] == accept(tasks[i])
  {
    seq(|tasks|, i requires 0 <= i < |tasks| => accept(tasks[i]))
  }

  /**
   * Submitting every task and reducing the gathered results: `gather` keeps
   * the results in task order, and the count of `True` results is compared
   * with the number of batches.
   */
  function RunTasks<T>(tasks: seq<Task<T>>, accept: Task<T> -> bool): (r: Report)
    ensures r.total == |tasks|
    ensures r.succeeded <= r.total
    ensures r.succeeded == multiset(Outcomes(tasks, accept))[true]
    ensures |r.failed| == r.total - r.succeeded
    ensures AllSucceeded(r) <==> forall i :: 0 <= i < |tasks| ==> accept(tasks[i])
    ensures forall n :: n in r.failed <==>
      exists i :: 0 <= i < |tasks| && !accept(tasks[i]) && tasks[i].number == n
  {
    var results := Outcomes(tasks, accept);
    CountIsOccurrences(results);
    Report(|tasks|, CountSucceeded(results), FailedNumbers(tasks, results))
  }

  /**
   * `index_documents_async(documents, batch_size)`, with the vector store's
   * verdict on each task given by `accept`. A negative batch size gives an
   * empty range and so no batches; a zero batch size makes `range` raise.
   */
  function IndexDocuments<T>(docs: seq<T>, batchSize: int, accept: Task<T> -> bool): (r: Result<Report>)
    ensures r.Err? <==> batchSize == 0
    ensures batchSize < 0 ==> r == Ok(Report(0, 0, []))
    ensures r.Ok? ==> r.value.succeeded <= r.value.total
    ensures r.Ok? ==> |r.value.failed| == r.value.total - r.value.succeeded
    ensures batchSize > 0 ==>
      var tasks := Tasks(Batches(docs, batchSize));
      && r.Ok?
      && r.value.total == |tasks|
      && r.value.succeeded == multiset(Outcomes(tasks, accept))[true]
      && (AllSucceeded(r.value) <==> forall i :: 0 <= i < |tasks| ==> accept(tasks[i]))
      && forall n :: n in r.value.failed <==>
           exists i :: 0 <= i < |tasks| && !accept(tasks[i]) && tasks[i].number == n
  {
    if batchSize == 0 then Err(ZeroBatchSize)
    else if batchSize < 0 then Ok(RunTasks([], accept))
    else Ok(RunTasks(Tasks(Batches(docs, batchSize)), accept))
  }

  /** With a positive batch size the call attempts ceil(len(documents) / batch_size) batches. */
  lemma IndexedBatchCount<T>(docs: seq<T>, batchSize: nat, accept: Task<T> -> bool)
    requires batchSize > 0
    ensures IndexDocuments(docs, batchSize, accept).Ok?
    ensures IndexDocuments(docs, batchSize, accept).value.total == (|docs| + batchSize - 1) / batchSize
  {
    BatchCount(docs, batchSize);
  }

  /**
   * With the default batch size a call attempts ceil(n / 50) batches; with the
   * size the ingestion pipeline passes, ceil(n / 500).
   */
  lemma ConfiguredBatchCounts<T>(docs: seq<T>, accept: Task<T> -> bool)
    ensures IndexDocuments(docs, DefaultBatchSize, accept).Ok?
    ensures IndexDocuments(docs, DefaultBatchSize, accept).value.total == (|docs| + 49) / 50
    ensures IndexDocuments(docs, PipelineBatchSize, accept).Ok?
    ensures IndexDocuments(docs, PipelineBatchSize, accept).value.total == (|docs| + 499) / 500
  {
    IndexedBatchCount(docs, DefaultBatchSize, accept);
    IndexedBatchCount(docs, PipelineBatchSize, accept);
  }

  /** No documents: zero batches, and the call reports full success (0 of 0). */
  lemma EmptyInputSucceeds<T>(batchSize: int, accept: Task<T> -> bool)
    requires batchSize != 0
    ensures IndexDocuments([], batchSize, accept) == Ok(Report(0, 0, []))
    ensures AllSucceeded(IndexDocuments([], batchSize, accept).value)
  {
    if batchSize > 0 {
      var none: seq<T> := [];
      assert Batches(none, batchSize) == [];
    }
  }

  /** With one `False` among otherwise `True` results, the count is one short of the total. */
  lemma CountOneShort(results: seq<bool>, j: nat)
    requires j < |results|
    requires !results[j]
    requires forall i :: 0 <= i < |results| && i != j ==> results[i]
    ensures CountSucceeded(results) == |results| - 1
  {
    var before := results[..j];
    var after := results[j + 1..];
    assert results == before + [false] + after;
    assert CountSucceeded(before) == |before|;
    assert CountSucceeded(after) == |after|;
    CountIsOccurrences(results);
    CountIsOccurrences(before);
    CountIsOccurrences(after);
    assert multiset(results) == multiset(before) + multiset{false} + multiset(after);
  }

  /** When only the task at position j is rejected, one task fewer succeeds and only its number is reported. */
  lemma OneRejection<T>(tasks: seq<Task<T>>, accept: Task<T> -> bool, j: nat)
    requires j < |tasks|
    requires !accept(tasks[j])
    requires forall i :: 0 <= i < |tasks| && i != j ==> accept(tasks[i])
    ensures RunTasks(tasks, accept).succeeded == |tasks| - 1
    ensures RunTasks(tasks, accept).failed == [tasks[j].number]
  {
    var results := Outcomes(tasks, accept);
    CountOneShort(results, j);
    var r := RunTasks(tasks, accept);
    assert r.succeeded == CountSucceeded(results);
    assert |r.failed| == 1;
    assert tasks[j].number in r.failed;
  }

  /**
   * When exactly the batch at position j is rejected, one fewer batch than
   * attempted succeeds and the failure report names batch j + 1 alone.
   */
  lemma SingleFailureIsReported<T>(docs: seq<T>, batchSize: nat, accept: Task<T> -> bool, j: nat)
    requires batchSize > 0
    requires j < |Tasks(Batches(docs, batchSize))|
    requires !accept(Tasks(Batches(docs, batchSize))[j])
    requires forall i :: 0 <= i < |Tasks(Batches(docs, batchSize))| && i != j ==>
      accept(Tasks(Batches(docs, batchSize))[i])
    ensures var r := IndexDocuments(docs, batchSize, accept);
      && r.Ok?
      && r.value.succeeded == r.value.total - 1
      && r.value.failed == [j + 1]
      && !AllSucceeded(r.value)
  {
    var tasks := Tasks(Batches(docs, batchSize));
    OneRejection(tasks, accept, j);
  }
}

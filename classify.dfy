/**
 * `handleClassify`: one updater marks every entry as being processed, one
 * request per entry is sent with the entry's position, and when all requests
 * have succeeded a second updater merges the labels back by position. A
 * single failed request rejects the whole round and nothing is merged.
 */
module Classify {
  import opened Wrappers
  import opened QueueState

  /** `{ result, index }`: the label returned for the request sent at `index`. */
  datatype ClassifyResult = ClassifyResult(result: string, index: int)

  /** What `Promise.all` settles to: every result, or a rejection. */
  datatype Outcome = AllResolved(results: seq<ClassifyResult>) | Rejected

  /** The marking updater: every entry becomes `process`; an absent queue stays absent. */
  function MarkAll(q: Queue): (r: Queue)
    ensures r.Some? <==> q.Some?
    ensures q.Some? ==> |r.value| == |q.value|
    ensures q.Some? ==> forall k :: 0 <= k < |q.value| ==>
      var e, e' := q.value[k], r.value[k];
      && e'.status == Process
      && e'.url == e.url && e'.file == e.file && e'.name == e.name
      && e'.size == e.size && e'.result == e.result
  {
    if q.Some? then
      Some(seq(|q.value|, k requires 0 <= k < |q.value| => q.value[k].(status := Process)))
    else
      q
  }

  /** The files sent for classification, in queue order; request `k` carries index `k`. */
  function Requests(q: Queue): (r: seq<File>)
    ensures |r| == Len(q)
    ensures forall k :: 0 <= k < |r| ==> r[k] == q.value[k].file
  {
    if q.Some? then seq(|q.value|, k requires 0 <= k < |q.value| => q.value[k].file) else []
  }

  /** `results.find(r => r.index === i)`: the label of the FIRST result for position `i`. */
  function FindResult(results: seq<ClassifyResult>, i: int): (r: Option<string>)
    ensures r.None? <==> forall k :: 0 <= k < |results| ==> results[k].index != i
    ensures r.Some? ==>
      exists k :: && 0 <= k < |results| && results[k].index == i
                  && results[k].result == r.value
                  && forall l :: 0 <= l < k ==> results[l].index != i
  {
    if |results| == 0 then None
    else if results[0].index == i then Some(results[0].result)
    else
      var r := FindResult(results[1..], i);
      assert forall k :: 1 <= k < |results| ==> results[k] == results[1..][k - 1];
      r
  }

  /** The record after the lookup for its position: labelled and done when a result was found. */
  function MergeEntry(e: Entry, found: Option<string>): (r: Entry)
    ensures r.url == e.url && r.file == e.file && r.name == e.name && r.size == e.size
    ensures found.Some? ==> r.status == Done && r.result == found
    ensures found.None? ==> r == e
  {
    if found.Some? then e.(result := found, status := Done) else e
  }

  /** The merging updater: position `k` takes the first result whose index is `k`. */
  function Merge(q: Queue, results: seq<ClassifyResult>): (r: Queue)
    ensures r.Some? <==> q.Some?
    ensures q.Some? ==> |r.value| == |q.value|
    ensures q.Some? ==> forall k :: 0 <= k < |q.value| ==>
      var e, e' := q.value[k], r.value[k];
      && e'.url == e.url && e'.file == e.file && e'.name == e.name && e'.size == e.size
      && (FindResult(results, k).Some? ==> e'.status == Done && e'.result == FindResult(results, k))
      && (FindResult(results, k).None? ==> e' == e)
  {
    if q.Some? then
      Some(seq(|q.value|, k requires 0 <= k < |q.value| => MergeEntry(q.value[k], FindResult(results, k))))
    else
      q
  }

  /** The `.then` / `.catch` of the round: merge on success, nothing on failure. */
  function MergeOutcome(q: Queue, outcome: Outcome): (r: Queue)
    ensures outcome.Rejected? ==> r == q
    ensures outcome.AllResolved? ==> r == Merge(q, outcome.results)
  {
    match outcome
    case AllResolved(results) => Merge(q, results)
    case Rejected => q
  }

  /** The array `Promise.all` resolves to when the requests for `labels` all succeed. */
  function RoundResults(labels: seq<string>): (r: seq<ClassifyResult>)
    ensures |r| == |labels|
    ensures forall k :: 0 <= k < |r| ==> r[k].index == k && r[k].result == labels[k]
  {
    seq(|labels|, k requires 0 <= k < |labels| => ClassifyResult(labels[k], k))
  }

  /** The results at positions in `[0, n)` only, in their order. */
  function InRange(results: seq<ClassifyResult>, n: nat): (r: seq<ClassifyResult>)
    ensures forall k :: 0 <= k < |r| ==> 0 <= r[k].index < n
  {
    if |results| == 0 then []
    else if 0 <= results[0].index < n then [results[0]] + InRange(results[1..], n)
    else InRange(results[1..], n)
  }

  // ----- Lemmas -----

  /** In a complete round the result for position `i` is the label of request `i`. */
  lemma FindInRound(labels: seq<string>, i: int)
    ensures 0 <= i < |labels| ==> FindResult(RoundResults(labels), i) == Some(labels[i])
    ensures !(0 <= i < |labels|) ==> FindResult(RoundResults(labels), i) == None
  {
    var rs := RoundResults(labels);
    if 0 <= i < |labels| {
      assert rs[i].index == i;
    }
  }

  /** When every request of the round succeeded, every entry is done and
      carries the label returned for its own position. */
  lemma MergeRoundComplete(q: Queue, labels: seq<string>)
    requires q.Some? && |labels| == |q.value|
    ensures var r := Merge(q, RoundResults(labels));
      r.Some? && |r.value| == |q.value|
      && forall k :: 0 <= k < |q.value| ==>
        r.value[k] == q.value[k].(status := Done, result := Some(labels[k]))
  {
    forall k | 0 <= k < |q.value| {
      FindInRound(labels, k);
    }
  }

  /** Dropping the results outside `[0, n)` does not change any lookup inside it. */
  lemma {:induction false} FindIgnoresOutOfRange(results: seq<ClassifyResult>, n: nat, i: int)
    requires 0 <= i < n
    ensures FindResult(InRange(results, n), i) == FindResult(results, i)
  {
    if |results| > 0 {
      FindIgnoresOutOfRange(results[1..], n, i);
      if 0 <= results[0].index < n {
        assert ([results[0]] + InRange(results[1..], n))[1..] == InRange(results[1..], n);
      }
    }
  }

  /** Results whose index is negative or at least the queue length are ignored by the merge. */
  lemma MergeIgnoresOutOfRange(q: Queue, results: seq<ClassifyResult>)
    ensures Merge(q, results) == Merge(q, InRange(results, Len(q)))
  {
    if q.Some? {
      forall k | 0 <= k < |q.value| {
        FindIgnoresOutOfRange(results, |q.value|, k);
      }
      assert Merge(q, results).value == Merge(q, InRange(results, Len(q))).value;
    }
  }

  /** A rejected round leaves every marked entry marked. */
  lemma RejectedRoundStaysProcessing(q: Queue)
    requires q.Some?
    ensures var r := MergeOutcome(MarkAll(q), Rejected);
      r.Some? && |r.value| == |q.value|
      && forall k :: 0 <= k < |q.value| ==> r.value[k].status == Process
  {
  }

  /** Marking and merging keep the queue invariant. */
  lemma MarkKeepsValid(q: Queue)
    requires Valid(q)
    ensures Valid(MarkAll(q))
  {
  }

  lemma MergeKeepsValid(q: Queue, outcome: Outcome)
    requires Valid(q)
    ensures Valid(MergeOutcome(q, outcome))
  {
  }

  /** Marking again after a completed round keeps the old label on an entry
      that is now `process`: "labelled exactly when done" does not survive. */
  lemma RemarkBreaksResultIffDone(q: Queue, k: nat)
    requires q.Some? && k < |q.value| && q.value[k].status == Done && WellFormedEntry(q.value[k])
    ensures ResultIffDone(q.value[k])
    ensures !ResultIffDone(MarkAll(q).value[k])
  {
  }

  /** Marking twice is marking once. */
  lemma MarkIdempotent(q: Queue)
    ensures MarkAll(MarkAll(q)) == MarkAll(q)
  {
    if q.Some? {
      assert MarkAll(MarkAll(q)).value == MarkAll(q).value;
    }
  }
}

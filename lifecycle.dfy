/**
 * The page as a sequence of atomic state updates. Every `setPreviewUrls`
 * updater runs on its own, so any interleaving of drops, classification
 * rounds, removals and clears is a list of the steps below.
 */
module Lifecycle {
  import opened Wrappers
  import opened QueueState
  import Drop
  import Classify
  import Remove

  /** One atomic update of the `previewUrls` cell. */
  datatype Op =
    | DropFiles(files: seq<File>, urls: seq<string>, order: seq<nat>)
    | MarkForClassify
    | SettleRound(outcome: Classify.Outcome)
    | RemoveImage(index: int)
    | RemoveAll

  /** Drops come with a completion order the browser can produce. */
  predicate Allowed(op: Op) {
    op.DropFiles? ==> Drop.ValidCompletion(op.files, op.urls, op.order)
  }

  function Step(q: Queue, op: Op): (r: Queue)
    requires Allowed(op)
    ensures (op.MarkForClassify? || op.SettleRound?) ==> (r.Some? <==> q.Some?) && Len(r) == Len(q)
    ensures op.DropFiles? ==> Len(q) <= Len(r)
    ensures op.RemoveImage? ==> Len(r) <= Len(q)
    ensures op.RemoveAll? ==> r.None?
  {
    match op
    case DropFiles(files, urls, order) => Drop.DropInto(q, files, urls, order)
    case MarkForClassify => Classify.MarkAll(q)
    case SettleRound(outcome) => Classify.MergeOutcome(q, outcome)
    case RemoveImage(index) => Remove.RemoveAt(q, index)
    case RemoveAll => Remove.Clear(q)
  }

  function Run(q: Queue, ops: seq<Op>): Queue
    requires forall k :: 0 <= k < |ops| ==> Allowed(ops[k])
    decreases |ops|
  {
    if |ops| == 0 then q else Run(Step(q, ops[0]), ops[1..])
  }

  /** Each update keeps the queue invariant. */
  lemma StepKeepsValid(q: Queue, op: Op)
    requires Valid(q) && Allowed(op)
    ensures Valid(Step(q, op))
  {
    match op
    case DropFiles(files, urls, order) => Drop.DropKeepsValid(q, files, urls, order);
    case MarkForClassify => Classify.MarkKeepsValid(q);
    case SettleRound(outcome) => Classify.MergeKeepsValid(q, outcome);
    case RemoveImage(index) => Remove.RemoveKeepsValid(q, index);
    case RemoveAll =>
  }

  /** From the initial absent queue, whatever happens, the queue is never
      present-but-empty, names and sizes match their files, ready entries are
      unlabelled and done entries are labelled. */
  lemma {:induction false} RunKeepsValid(q: Queue, ops: seq<Op>)
    requires Valid(q)
    requires forall k :: 0 <= k < |ops| ==> Allowed(ops[k])
    ensures Valid(Run(q, ops))
    decreases |ops|
  {
    if |ops| > 0 {
      StepKeepsValid(q, ops[0]);
      RunKeepsValid(Step(q, ops[0]), ops[1..]);
    }
  }

  /** A removal between marking and merging shifts the labels: the entry that
      moved into position `j` receives the label computed for the entry that
      was at `j` when the round started. */
  lemma RemoveDuringRoundMisattributes(q: Queue, i: int, labels: seq<string>)
    requires q.Some? && |q.value| > 1 && 0 <= i < |q.value| && |labels| == |q.value|
    ensures var r := Classify.Merge(Remove.RemoveAt(q, i), Classify.RoundResults(labels));
      && r.Some? && |r.value| == |q.value| - 1
      && forall j :: i <= j < |q.value| - 1 ==>
           r.value[j].file == q.value[j + 1].file && r.value[j].result == Some(labels[j])
  {
    var removed := Remove.RemoveAt(q, i);
    Remove.RemoveShifts(q, i);
    forall j | i <= j < |q.value| - 1 {
      Classify.FindInRound(labels, j);
    }
  }

  /** The results of a round that was cleared land on whatever was dropped
      after the clear: they are not discarded. */
  lemma StaleRoundLabelsNewBatch(q: Queue, batch: seq<Entry>, labels: seq<string>)
    requires |batch| > 0 && |labels| == |batch|
    ensures var r := Classify.Merge(Drop.Append(Remove.Clear(q), batch), Classify.RoundResults(labels));
      forall k :: 0 <= k < |batch| ==> r.value[k].status == Done && r.value[k].result == Some(labels[k])
  {
    var renewed := Drop.Append(Remove.Clear(q), batch);
    Classify.MergeRoundComplete(renewed, labels);
  }

  /** Two images dropped and classified: both end up done with their own
      label, in the order they were dropped when read in that order. */
  lemma TwoImageRound()
    ensures var a := File("A.jpg", 50000, []);
      var b := File("B.png", 120000, []);
      var ops := [DropFiles([a, b], ["data:a", "data:b"], [0, 1]),
                  MarkForClassify,
                  SettleRound(Classify.AllResolved(Classify.RoundResults(["Organic", "Recycle"])))];
      Run(None, ops) == Some([
        Entry("data:a", a, "A.jpg", 50000, Done, Some("Organic")),
        Entry("data:b", b, "B.png", 120000, Done, Some("Recycle"))])
  {
    var a := File("A.jpg", 50000, []);
    var b := File("B.png", 120000, []);
    var round := Classify.AllResolved(Classify.RoundResults(["Organic", "Recycle"]));
    var ops := [DropFiles([a, b], ["data:a", "data:b"], [0, 1]), MarkForClassify, SettleRound(round)];
    var batch := Drop.BatchOf([a, b], ["data:a", "data:b"], [0, 1]);
    assert batch == [Drop.NewEntry(a, "data:a"), Drop.NewEntry(b, "data:b")];
    var dropped := Step(None, ops[0]);
    assert dropped == Some(batch);
    var marked := Step(dropped, ops[1]);
    Classify.MergeRoundComplete(marked, ["Organic", "Recycle"]);
    var settled := Step(marked, ops[2]);
    assert settled.value[0] == Entry("data:a", a, "A.jpg", 50000, Done, Some("Organic"));
    assert settled.value[1] == Entry("data:b", b, "B.png", 120000, Done, Some("Recycle"));
    assert |settled.value| == 2;
    assert settled.value == [settled.value[0], settled.value[1]];
    assert settled == Some([
      Entry("data:a", a, "A.jpg", 50000, Done, Some("Organic")),
      Entry("data:b", b, "B.png", 120000, Done, Some("Recycle"))]);
    assert Run(settled, ops[3..]) == settled;
    assert Run(marked, ops[2..]) == settled;
    assert Run(dropped, ops[1..]) == settled;
  }

  /** One image and its removal: the queue is absent again. */
  lemma RemoveOnlyImage(f: File, url: string)
    ensures Run(None, [DropFiles([f], [url], [0]), RemoveImage(0)]) == None
  {
    var ops := [DropFiles([f], [url], [0]), RemoveImage(0)];
    var dropped := Step(None, ops[0]);
    assert dropped.Some? && |dropped.value| == 1;
    assert Step(dropped, ops[1]) == None;
    assert Run(None, ops[2..]) == None;
    assert Run(dropped, ops[1..]) == None;
  }
}

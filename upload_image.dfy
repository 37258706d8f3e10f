/**
 * The `UploadImage` component's state: the `previewUrls` cell, overwritten
 * step by step by its handlers. Each method is one handler's update, applied
 * atomically; what it computes is given by the pure transitions.
 */
module UploadImagePage {
  import opened Wrappers
  import opened QueueState
  import Drop
  import Classify
  import Remove

  class UploadImage {
    /** `previewUrls`: absent, or the queued images in display order. */
    var previewUrls: Queue

    ghost predicate Valid()
      reads this
    {
      QueueState.Valid(previewUrls)
    }

    /** `useState<previewImage[] | null>(null)`. */
    constructor ()
      ensures Valid() && previewUrls == None
    {
      previewUrls := None;
    }

    /** `onDrop`: the readers of the accepted files finish in `order`; the
        last of them to complete the batch appends it. */
    method OnDrop(files: seq<File>, urls: seq<string>, order: seq<nat>)
      requires Valid() && Drop.ValidCompletion(files, urls, order)
      modifies this
      ensures Valid()
      ensures previewUrls == Drop.DropInto(old(previewUrls), files, urls, order)
      ensures 0 < |files| && |order| == |files| ==>
        previewUrls.Some? && |previewUrls.value| == Len(old(previewUrls)) + |files|
        && (forall k :: 0 <= k < Len(old(previewUrls)) ==> previewUrls.value[k] == old(previewUrls).value[k])
        && multiset(Drop.FilesOf(previewUrls.value[Len(old(previewUrls))..])) == multiset(files)
      ensures |files| == 0 || |order| < |files| ==> previewUrls == old(previewUrls)
    {
      var batch, committed := Drop.ReadBatch(files, urls, order);
      if committed {
        previewUrls := Drop.Append(previewUrls, batch);
        assert previewUrls.value[Len(old(previewUrls))..] == batch;
        Drop.BatchIsPermutation(files, urls, order);
      }
      Drop.DropKeepsValid(old(previewUrls), files, urls, order);
    }

    /** The first part of `handleClassify`: mark every entry as being
        processed and send one request per entry of the list as it was. */
    method HandleClassify() returns (requests: seq<File>)
      requires Valid()
      modifies this
      ensures Valid()
      ensures previewUrls == Classify.MarkAll(old(previewUrls))
      ensures |requests| == Len(old(previewUrls))
      ensures forall k :: 0 <= k < |requests| ==> requests[k] == old(previewUrls).value[k].file
    {
      var snapshot := previewUrls;
      previewUrls := Classify.MarkAll(previewUrls);
      Classify.MarkKeepsValid(snapshot);
      requests := Classify.Requests(snapshot);
    }

    /** The second part of `handleClassify`: the round settles. */
    method SettleRound(outcome: Classify.Outcome)
      requires Valid()
      modifies this
      ensures Valid()
      ensures previewUrls == Classify.MergeOutcome(old(previewUrls), outcome)
      ensures outcome.Rejected? ==> previewUrls == old(previewUrls)
    {
      Classify.MergeKeepsValid(previewUrls, outcome);
      match outcome
      case AllResolved(results) =>
        previewUrls := Classify.Merge(previewUrls, results);
      case Rejected =>
    }

    /** `handleRemoveImage(index)`: splice a copy, then null the cell if the
        list had a single entry. */
    method HandleRemoveImage(index: int)
      requires Valid()
      modifies this
      ensures Valid()
      ensures previewUrls == Remove.RemoveAt(old(previewUrls), index)
      ensures old(previewUrls).None? || |old(previewUrls).value| == 1 ==> previewUrls.None?
    {
      var snapshot := previewUrls;
      if previewUrls.Some? && |previewUrls.value| > 0 {
        var updated := previewUrls.value;
        updated := Remove.Splice(updated, index);
        previewUrls := Some(updated);
      }
      if snapshot.Some? && |snapshot.value| == 1 {
        previewUrls := None;
      }
      Remove.RemoveKeepsValid(snapshot, index);
    }

    /** "Remove all". */
    method RemoveAll()
      requires Valid()
      modifies this
      ensures Valid() && previewUrls == None
    {
      previewUrls := None;
    }
  }

  /** The two-image round driven through the component's handlers. */
  method TwoImageSession() {
    var a := File("A.jpg", 50000, []);
    var b := File("B.png", 120000, []);
    var page := new UploadImage();
    page.OnDrop([a, b], ["data:a", "data:b"], [1, 0]);
    assert page.previewUrls.Some? && |page.previewUrls.value| == 2;
    var requests := page.HandleClassify();
    assert |requests| == 2;
    page.SettleRound(Classify.Rejected);
    assert page.previewUrls.value[0].status == Process;
    page.HandleRemoveImage(0);
    assert |page.previewUrls.value| == 1;
    page.HandleRemoveImage(0);
    assert page.previewUrls == None;
    page.RemoveAll();
    assert page.previewUrls == None;
  }
}

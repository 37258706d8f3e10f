/**
 * The state of the upload page: the `previewImage` record and the single
 * `previewUrls` cell that holds either nothing (`null`) or the list of
 * queued images, in display order.
 */
module QueueState {
  import opened Wrappers

  /** `status: "ready" | "process" | "done"`. */
  datatype Status = Ready | Process | Done

  /** A browser `File` handle: its name, its reported byte size and its bytes. */
  datatype File = File(name: string, size: nat, content: seq<bv8>)

  /** One `previewImage`: the data URL read from `file`, the file itself, its
      name and size copied at insertion, the lifecycle status and the label. */
  datatype Entry = Entry(url: string, file: File, name: string, size: nat,
                         status: Status, result: Option<string>)

  /** `previewImage[] | null`. */
  type Queue = Option<seq<Entry>>

  /** Number of queued entries; an absent queue has none. */
  function Len(q: Queue): nat {
    if q.Some? then |q.value| else 0
  }

  /** The queue is absent or holds at least one entry: it is never present-but-empty. */
  predicate NeverEmpty(q: Queue) {
    q.Some? ==> |q.value| > 0
  }

  /** What every operation keeps of each entry: its name and size are those
      of its file, a ready entry has no label and a done entry has one. */
  predicate WellFormedEntry(e: Entry) {
    && e.name == e.file.name
    && e.size == e.file.size
    && (e.status == Ready ==> e.result == None)
    && (e.status == Done ==> e.result.Some?)
  }

  /** The queue invariant kept by every transition of the page. */
  predicate Valid(q: Queue) {
    && NeverEmpty(q)
    && (q.Some? ==> forall k :: 0 <= k < |q.value| ==> WellFormedEntry(q.value[k]))
  }

  /** The stronger per-entry property "a label is present exactly when the
      entry is done", which the page does NOT keep (see Classify). */
  predicate ResultIffDone(e: Entry) {
    e.result.Some? <==> e.status == Done
  }
}

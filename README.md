# Upload queue of the waste-mon upload page

This project models the upload queue of the waste-mon upload page (`src/page/UploadImage.tsx`) in Dafny. The page keeps one piece of state, `previewUrls`. It is either `null` or a list of `previewImage` records. Each record holds a data URL, the file, its name and size, a status (`ready`, `process` or `done`) and a label that is `null` until a classification result arrives. Four handlers overwrite the cell, through five kinds of update:

- `onDrop` reads every accepted file and appends the whole batch once every read has finished.
- `handleClassify` marks every entry as `process` and sends one request per entry. When every request has succeeded, it merges the labels back by position.
- `handleRemoveImage` splices out one entry. The queue becomes `null` when the last entry is removed.
- "Remove all" sets the queue to `null`.

The files are:

- `wrappers.dfy`: `Option`, used for `T | null`.
- `queue_state.dfy`: the records, the queue type and the invariant that every transition keeps. The invariant says:
  - the queue is never present-but-empty;
  - every entry's name and size are those of its file;
  - a `ready` entry has no label;
  - a `done` entry has one.
- `drop.dfy`: `onDrop`.
  - `ReadBatch` is the reader loop. It pushes one record per finished reader and commits when the count reaches the number of accepted files.
  - `Append` is the committing updater.
  - The pigeonhole and permutation lemmas show that the files of a committed batch equal the accepted files as a multiset: each appears exactly as often as it was accepted.
- `classify.dfy`: the marking updater, `find` by index, the merging updater and the outcome of `Promise.all`.
- `remove.dfy`: `splice` with ECMAScript's start normalisation, both updates of one removal click, and "Remove all".
- `lifecycle.dfy`: every update as one atomic step. Any interleaving of handlers is a list of steps. The invariant holds across any such list, and lemmas show the quirks below.
- `upload_image.dfy`: the component as a class. It holds the `previewUrls` field, and each handler is a method whose new state is given by the pure transitions. `TwoImageSession` is a usage example: it drives the handlers through a short session and checks the states with assertions; it has no contract of its own.

Behaviour of the code that the model keeps as written:

- **Batch order.** A dropped batch is queued in the order the readers finish, which can differ from the order of the accepted files. `OutOfOrderCompletionReordersBatch` shows this.
- **Failed reads.** If one read never finishes, the batch is never committed, so none of the drop's files is queued.
- **Re-marking.** Marking again keeps an old label on an entry that is now `process`. So "labelled exactly when done" is not an invariant (`RemarkBreaksResultIffDone`). The weaker invariant in `QueueState.Valid` is.
- **All-or-nothing merge.** Results are merged only once every request has succeeded. One failure means nothing is merged, so every entry stays `process`.
- **Merge by position.** Results are merged by current position. A removal during a round shifts labels onto the wrong entries (`RemoveDuringRoundMisattributes`).
- **Late results after a clear.** If new files are dropped after "Remove all", a round still in flight labels the new entries (`StaleRoundLabelsNewBatch`).
- **Removing from a one-entry list.** Removal from a list of one entry makes the queue absent, whatever the index.
- **Classifying an absent queue.** Classifying an absent queue sends no requests and leaves the queue absent.

## Model

| member | source | states |
|---|---|---|
| Drop.NewEntry | src/page/UploadImage.tsx:27-34 | the pushed record is `ready`, unlabelled, carries the file and its data URL, and its name and size are the file's |
| Drop.BatchOf | src/page/UploadImage.tsx:20-27 | the local list after the listed readers finish has one record per finished reader, in finishing order, each ready and unlabelled with that reader's file and data URL |
| Drop.Append | src/page/UploadImage.tsx:36-39 | the result is present; its length is the old length plus the batch size; every existing entry stays at its position; the batch follows in order (an absent queue becomes exactly the batch) |
| Drop.DropInto | src/page/UploadImage.tsx:19-45 | an empty drop, or one with a reader that has not finished, leaves the queue unchanged |
| Drop.ReadBatch | src/page/UploadImage.tsx:19-45 | the reader loop builds the records in finishing order and commits exactly when there are accepted files and all of them have been read |
| Drop.CompletionBound | src/page/UploadImage.tsx:22-36 | readers that each finish at most once push at most one record per accepted file |
| Drop.BatchEntriesFresh | src/page/UploadImage.tsx:25-34 | every pushed record is `ready`, has no label, and takes its url, file, name and size from the one file whose reader produced it |
| Drop.BatchIsPermutation | src/page/UploadImage.tsx:22-36 | a committed batch holds the accepted files as a multiset: each exactly as often as accepted |
| Drop.BatchCoversEveryFile | src/page/UploadImage.tsx:22-36 | a committed batch has, for every accepted file, the record built from that file and its own data URL |
| Drop.DropKeepsValid | src/page/UploadImage.tsx:19-45 | a drop keeps the queue invariant (never present-but-empty, metadata copied from the file, ready implies unlabelled, done implies labelled) |
| Drop.InOrderCompletionKeepsInputOrder | src/page/UploadImage.tsx:25-27 | readers finishing in input order give a batch in input order |
| Drop.OutOfOrderCompletionReordersBatch | src/page/UploadImage.tsx:25-27 | two files whose readers finish in reverse order are queued in reverse order |
| Classify.MarkAll | src/page/UploadImage.tsx:80-87 | every entry becomes `process`; url, file, name, size and label are kept; length and order are kept; an absent queue stays absent |
| Classify.MarkIdempotent | src/page/UploadImage.tsx:80-87 | marking twice is the same as marking once |
| Classify.MarkKeepsValid | src/page/UploadImage.tsx:80-87 | marking keeps the queue invariant |
| Classify.RemarkBreaksResultIffDone | src/page/UploadImage.tsx:82-84 | a done, labelled entry that is marked again is `process` and still labelled, so "labelled exactly when done" is not kept |
| Classify.Requests | src/page/UploadImage.tsx:88-90 | one request per entry, in queue order, each carrying that entry's file; none for an absent queue |
| Classify.RoundResults | src/page/UploadImage.tsx:92 | the array a fully successful round resolves to: one result per request, the k-th with index k and the k-th label |
| Classify.MergeEntry | src/page/UploadImage.tsx:102-104 | a found label makes the entry done with that label; no label leaves the entry unchanged; url, file, name and size are kept |
| Classify.FindResult | src/page/UploadImage.tsx:99-101 | the lookup finds nothing exactly when no result has that index; otherwise it returns the label of the first result with that index |
| Classify.Merge | src/page/UploadImage.tsx:96-108 | length and order are kept; an entry whose position has a result becomes `done` with that result's label; any other entry is unchanged; url, file, name and size are always kept; an absent queue stays absent |
| Classify.MergeOutcome | src/page/UploadImage.tsx:92-112 | a rejected round changes nothing; a resolved round is merged |
| Classify.FindInRound | src/page/UploadImage.tsx:88-92 | in the array a successful round resolves to, the result for position i is the label of request i, and positions outside the round have none |
| Classify.MergeRoundComplete | src/page/UploadImage.tsx:88-108 | after a fully successful round every entry is `done` with the label of its own request, and nothing else changes |
| Classify.FindIgnoresOutOfRange | src/page/UploadImage.tsx:99-101 | removing the results outside [0, n) does not change the lookup of any position in [0, n) |
| Classify.MergeIgnoresOutOfRange | src/page/UploadImage.tsx:96-108 | results whose index is negative or at least the queue length do not affect the merge |
| Classify.RejectedRoundStaysProcessing | src/page/UploadImage.tsx:80-112 | when a request of the round fails, every marked entry stays `process` |
| Classify.MergeKeepsValid | src/page/UploadImage.tsx:92-112 | settling a round keeps the queue invariant |
| Remove.Splice | src/page/UploadImage.tsx:118-119 | when the normalised start is inside the list, one element goes and the rest keep their order; otherwise the list is unchanged |
| Remove.RemoveAt | src/page/UploadImage.tsx:115-126 | an absent or one-entry queue ends absent; a present-but-empty queue is unchanged; a list of two or more is spliced at the normalised start |
| Remove.RemoveShifts | src/page/UploadImage.tsx:115-127 | on a list of two or more, removing position i gives one entry fewer: entries before i stay, and the entry at j > i moves to j - 1 |
| Remove.RemoveLastMakesAbsent | src/page/UploadImage.tsx:124-126 | removing from a one-entry list makes the queue absent, whatever the index |
| Remove.RemoveFromAbsent | src/page/UploadImage.tsx:116-123 | removing from an absent queue leaves it absent |
| Remove.RemovePastEnd | src/page/UploadImage.tsx:117-120 | an index at or past the end of a list of two or more removes nothing |
| Remove.RemoveNegative | src/page/UploadImage.tsx:117-120 | a negative index removes the entry that many places from the end, or the first one |
| Remove.RemoveKeepsValid | src/page/UploadImage.tsx:115-127 | removal keeps the queue invariant, so it never leaves a present-but-empty list |
| Remove.Clear | src/page/UploadImage.tsx:237 | "Remove all" makes the queue absent |
| Remove.ClearIdempotent | src/page/UploadImage.tsx:237 | clearing twice gives the absent queue both times |
| Lifecycle.Step | src/page/UploadImage.tsx:17-237 | one atomic update of the cell: marking and settling keep presence and length, a drop never shortens the queue, a removal never lengthens it, and a clear makes it absent |
| Lifecycle.StepKeepsValid | src/page/UploadImage.tsx:17-127 | each atomic update of the cell keeps the queue invariant |
| Lifecycle.RunKeepsValid | src/page/UploadImage.tsx:17-237 | any sequence of drops, marks, settled rounds, removals and clears keeps the invariant; in particular the queue is never present-but-empty |
| Lifecycle.RemoveDuringRoundMisattributes | src/page/UploadImage.tsx:96-127 | a removal at i between marking and merging gives the entry now at j >= i the label computed for the entry that was at j |
| Lifecycle.StaleRoundLabelsNewBatch | src/page/UploadImage.tsx:92-108 | a round still in flight across a clear labels the entries dropped after the clear |
| Lifecycle.TwoImageRound | src/page/UploadImage.tsx:19-108 | dropping A.jpg and B.png, marking, and a round answering Organic and Recycle leaves both done with their own labels, in order |
| Lifecycle.RemoveOnlyImage | src/page/UploadImage.tsx:19-127 | dropping one image and removing it leaves the queue absent |
| UploadImagePage.UploadImage.constructor | src/page/UploadImage.tsx:17 | the cell starts absent |
| UploadImagePage.UploadImage.OnDrop | src/page/UploadImage.tsx:19-45 | the new state is the drop transition of the old one. A completed non-empty drop keeps the old entries as a prefix and appends a permutation of the accepted files. Otherwise nothing changes |
| UploadImagePage.UploadImage.HandleClassify | src/page/UploadImage.tsx:79-91 | the new state is the old one marked; one request is sent per old entry, with that entry's file, in order |
| UploadImagePage.UploadImage.SettleRound | src/page/UploadImage.tsx:92-112 | the new state is the merged outcome; a rejected round changes nothing |
| UploadImagePage.UploadImage.HandleRemoveImage | src/page/UploadImage.tsx:115-127 | the new state is the splice-then-null transition; removing from an absent or one-entry queue leaves it absent |
| UploadImagePage.UploadImage.RemoveAll | src/page/UploadImage.tsx:237 | the cell becomes absent |

## Left out

- `src/App.tsx`: a single-image preview and a timer-driven loading animation. It holds no queue state.
- Rendering, styling, icons and drag overlays (`src/page/UploadImage.tsx:129-335`).
- `FileReader` decoding. Each file's data URL is an opaque string passed in (`urls`). The order in which the readers finish is a parameter (`order`).
- The HTTP request to the classifier (`src/page/UploadImage.tsx:58-77`). Only its outcome is modelled: the array `Promise.all` resolves to, or a rejection.
- MIME filtering by the drop-zone library (`src/page/UploadImage.tsx:49-55`). Files are taken as already accepted.
- Console logging.
- Promise scheduling. Each `setPreviewUrls` update is one atomic step, and interleavings are explicit step sequences (`Lifecycle.Run`).
- The stale closure. The handlers read `previewUrls` as it was at the last render; the model takes that to be the current state.
- Numeric details. The splice index is an integer (JavaScript would truncate a fractional one). File sizes are unbounded naturals.

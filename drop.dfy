/**
 * `onDrop`: every accepted file gets its own reader; each reader, when it
 * finishes, pushes a fresh ready record onto a local list, and the reader
 * that brings the list to the number of accepted files commits the whole
 * list to the queue in one update. The list is therefore in the order the
 * readers finished, which is a parameter of the model (`order`: the
 * positions of the accepted files whose readers finished, in finishing order).
 */
module Drop {
  import opened Wrappers
  import opened QueueState

  /** The record pushed when the reader of `file` finishes with data URL `url`. */
  function NewEntry(file: File, url: string): (e: Entry)
    ensures e.status == Ready && e.result == None
    ensures e.file == file && e.url == url
    ensures WellFormedEntry(e) && ResultIffDone(e)
  {
    Entry(url, file, file.name, file.size, Ready, None)
  }

  /** `order` lists distinct positions below `n`. */
  predicate DistinctBelow(order: seq<nat>, n: nat) {
    && (forall k :: 0 <= k < |order| ==> order[k] < n)
    && (forall k, l :: 0 <= k < l < |order| ==> order[k] != order[l])
  }

  /** What the browser guarantees about one drop: one data URL per accepted
      file, and each reader finishes at most once. */
  predicate ValidCompletion(files: seq<File>, urls: seq<string>, order: seq<nat>) {
    |urls| == |files| && DistinctBelow(order, |files|)
  }

  /** `xs` picked at the positions listed in `order`. */
  function Pick<T>(xs: seq<T>, order: seq<nat>): seq<T>
    requires forall k :: 0 <= k < |order| ==> order[k] < |xs|
  {
    seq(|order|, k requires 0 <= k < |order| => xs[order[k]])
  }

  /** The local list after the readers listed in `order` have finished. */
  function BatchOf(files: seq<File>, urls: seq<string>, order: seq<nat>): (batch: seq<Entry>)
    requires ValidCompletion(files, urls, order)
    ensures |batch| == |order|
    ensures forall k :: 0 <= k < |batch| ==>
      && batch[k].file == files[order[k]] && batch[k].url == urls[order[k]]
      && batch[k].status == Ready && batch[k].result == None
  {
    seq(|order|, k requires 0 <= k < |order| => NewEntry(files[order[k]], urls[order[k]]))
  }

  /** The files of a list of records, in list order. */
  function FilesOf(batch: seq<Entry>): seq<File> {
    seq(|batch|, k requires 0 <= k < |batch| => batch[k].file)
  }

  /** The committing updater: `prev ? [...prev, ...batch] : batch`. Every
      existing entry stays where it was, and the batch follows it. */
  function Append(q: Queue, batch: seq<Entry>): (r: Queue)
    ensures r.Some?
    ensures |r.value| == Len(q) + |batch|
    ensures forall k :: 0 <= k < Len(q) ==> r.value[k] == q.value[k]
    ensures forall k :: 0 <= k < |batch| ==> r.value[Len(q) + k] == batch[k]
  {
    if q.Some? then Some(q.value + batch) else Some(batch)
  }

  /** The queue once the readers listed in `order` have finished: the batch
      is appended exactly when every accepted file has been read, and an empty
      drop or one with a reader still pending leaves the queue as it was. */
  function DropInto(q: Queue, files: seq<File>, urls: seq<string>, order: seq<nat>): (r: Queue)
    requires ValidCompletion(files, urls, order)
    ensures |files| == 0 || |order| != |files| ==> r == q
  {
    if 0 < |files| && |order| == |files| then Append(q, BatchOf(files, urls, order)) else q
  }

  /** The readers of one drop: push per finished reader, commit when the list
      reaches the number of accepted files. Returns the list and whether the
      commit fired. */
  method ReadBatch(files: seq<File>, urls: seq<string>, order: seq<nat>)
    returns (batch: seq<Entry>, committed: bool)
    requires ValidCompletion(files, urls, order)
    ensures batch == BatchOf(files, urls, order)
    ensures committed <==> 0 < |files| && |order| == |files|
  {
    CompletionBound(order, |files|);
    batch := [];
    committed := false;
    var i := 0;
    while i < |order|
      invariant 0 <= i <= |order|
      invariant batch == BatchOf(files, urls, order[..i])
      invariant committed <==> 0 < |files| <= i
    {
      var f := order[i];
      batch := batch + [NewEntry(files[f], urls[f])];
      if |batch| == |files| {
        committed := true;
      }
      i := i + 1;
    }
    assert order[..i] == order;
  }

  // ----- Pigeonhole facts about completion orders -----

  /** The set of positions below `n`. */
  function Below(n: nat): (s: set<nat>)
    ensures forall i: nat :: i in s <==> i < n
    ensures |s| == n
  {
    if n == 0 then {} else Below(n - 1) + {n - 1}
  }

  /** The positions listed in `order`. */
  function Listed(order: seq<nat>): set<nat> {
    set k | k in order
  }

  lemma {:induction false} SubsetCard(a: set<nat>, b: set<nat>)
    requires a <= b
    ensures |a| <= |b|
    decreases |b|
  {
    if a != {} {
      var x :| x in a;
      assert |a - {x}| == |a| - 1;
      assert |b - {x}| == |b| - 1;
      SubsetCard(a - {x}, b - {x});
    }
  }

  lemma {:induction false} DistinctCard(order: seq<nat>, n: nat)
    requires DistinctBelow(order, n)
    ensures |Listed(order)| == |order|
  {
    if |order| > 0 {
      var last := order[|order| - 1];
      var init := order[..|order| - 1];
      assert order == init + [last];
      DistinctCard(init, n);
      assert last !in init;
      assert Listed(order) == Listed(init) + {last};
    }
  }

  /** Readers finish at most once each, so no more records than accepted files are pushed. */
  lemma CompletionBound(order: seq<nat>, n: nat)
    requires DistinctBelow(order, n)
    ensures |order| <= n
  {
    DistinctCard(order, n);
    SubsetCard(Listed(order), Below(n));
  }

  /** Once as many readers as accepted files have finished, every accepted file's reader has. */
  lemma CompleteCovers(order: seq<nat>, n: nat, j: nat)
    requires DistinctBelow(order, n) && |order| == n && j < n
    ensures j in order
  {
    if j !in order {
      assert |Below(n) - {j}| == n - 1;
      DistinctCard(order, n);
      SubsetCard(Listed(order), Below(n) - {j});
    }
  }

  lemma PickConcat<T>(xs: seq<T>, a: seq<nat>, b: seq<nat>)
    requires forall k :: 0 <= k < |a| ==> a[k] < |xs|
    requires forall k :: 0 <= k < |b| ==> b[k] < |xs|
    ensures Pick(xs, a + b) == Pick(xs, a) + Pick(xs, b)
  {
  }

  lemma PickPrefix<T>(xs: seq<T>, m: nat, order: seq<nat>)
    requires m <= |xs|
    requires forall k :: 0 <= k < |order| ==> order[k] < m
    ensures Pick(xs, order) == Pick(xs[..m], order)
  {
  }

  /** Removing position `p` from a list of distinct positions keeps it distinct
      and drops the value found there. */
  lemma RemoveListed(order: seq<nat>, n: nat, p: nat)
    requires DistinctBelow(order, n) && p < |order| && order[p] == n - 1
    ensures DistinctBelow(order[..p] + order[p + 1..], n - 1)
  {
    var rest := order[..p] + order[p + 1..];
    forall k | 0 <= k < |rest| ensures rest[k] < n - 1 {
      var orig := if k < p then k else k + 1;
      assert rest[k] == order[orig];
    }
    forall k, l | 0 <= k < l < |rest| ensures rest[k] != rest[l] {
      var ok := if k < p then k else k + 1;
      var ol := if l < p then l else l + 1;
      assert rest[k] == order[ok] && rest[l] == order[ol];
    }
  }

  /** Picking with the last position taken out of the middle of `order`. */
  lemma PickSplit<T>(xs: seq<T>, order: seq<nat>, p: nat)
    requires DistinctBelow(order, |xs|) && p < |order| && order[p] == |xs| - 1
    ensures var m := |xs| - 1;
      Pick(xs, order) == Pick(xs[..m], order[..p]) + [xs[m]] + Pick(xs[..m], order[p + 1..])
  {
    var m := |xs| - 1;
    var before, after := order[..p], order[p + 1..];
    RemoveListed(order, |xs|, p);
    assert forall k :: 0 <= k < |before| ==> before[k] == (before + after)[k];
    assert forall k :: 0 <= k < |after| ==> after[k] == (before + after)[|before| + k];
    assert order == before + [m] + after;
    PickConcat(xs, before + [m], after);
    PickConcat(xs, before, [m]);
    PickPrefix(xs, m, before);
    PickPrefix(xs, m, after);
  }

  lemma MultisetMiddle<T>(a: seq<T>, x: T, b: seq<T>)
    ensures multiset(a + [x] + b) == multiset(a + b) + multiset{x}
  {
  }

  /** A complete completion order picks every element exactly as often as it occurs. */
  lemma {:induction false} PickPermutation<T>(xs: seq<T>, order: seq<nat>)
    requires DistinctBelow(order, |xs|) && |order| == |xs|
    ensures multiset(Pick(xs, order)) == multiset(xs)
  {
    if |xs| > 0 {
      var m := |xs| - 1;
      CompleteCovers(order, |xs|, m);
      var p :| 0 <= p < |order| && order[p] == m;
      var init, before, after := xs[..m], order[..p], order[p + 1..];
      RemoveListed(order, |xs|, p);
      PickSplit(xs, order, p);
      PickConcat(init, before, after);
      PickPermutation(init, before + after);
      MultisetMiddle(Pick(init, before), xs[m], Pick(init, after));
      assert xs == init + [xs[m]];
    }
  }

  // ----- What a committed batch is -----

  /** Every pushed record is ready, unlabelled, and carries the name, size,
      file and data URL of the one accepted file whose reader produced it. */
  lemma BatchEntriesFresh(files: seq<File>, urls: seq<string>, order: seq<nat>, k: nat)
    requires ValidCompletion(files, urls, order) && k < |order|
    ensures var e := BatchOf(files, urls, order)[k];
      && e.status == Ready && e.result == None
      && e.file == files[order[k]] && e.url == urls[order[k]]
      && e.name == e.file.name && e.size == e.file.size
      && WellFormedEntry(e) && ResultIffDone(e)
  {
  }

  /** A committed batch holds the accepted files, each exactly once, in some order. */
  lemma BatchIsPermutation(files: seq<File>, urls: seq<string>, order: seq<nat>)
    requires ValidCompletion(files, urls, order) && |order| == |files|
    ensures multiset(FilesOf(BatchOf(files, urls, order))) == multiset(files)
  {
    assert FilesOf(BatchOf(files, urls, order)) == Pick(files, order);
    PickPermutation(files, order);
  }

  /** A committed batch has, for every accepted file, the record built from
      that file and its own data URL. */
  lemma BatchCoversEveryFile(files: seq<File>, urls: seq<string>, order: seq<nat>, j: nat)
    requires ValidCompletion(files, urls, order) && |order| == |files| && j < |files|
    ensures exists k :: 0 <= k < |order| && BatchOf(files, urls, order)[k] == NewEntry(files[j], urls[j])
  {
    CompleteCovers(order, |files|, j);
    var k :| 0 <= k < |order| && order[k] == j;
    assert BatchOf(files, urls, order)[k] == NewEntry(files[j], urls[j]);
  }

  /** A drop keeps the queue invariant: existing entries are untouched and a
      committed batch is non-empty and made of fresh ready records. */
  lemma DropKeepsValid(q: Queue, files: seq<File>, urls: seq<string>, order: seq<nat>)
    requires Valid(q) && ValidCompletion(files, urls, order)
    ensures Valid(DropInto(q, files, urls, order))
  {
    if 0 < |files| && |order| == |files| {
      var r := DropInto(q, files, urls, order).value;
      forall k | 0 <= k < |r| ensures WellFormedEntry(r[k]) {
        if k >= Len(q) {
          BatchEntriesFresh(files, urls, order, k - Len(q));
        }
      }
    }
  }

  /** When readers finish in input order the batch is in input order. */
  lemma InOrderCompletionKeepsInputOrder(files: seq<File>, urls: seq<string>, order: seq<nat>)
    requires ValidCompletion(files, urls, order) && |order| == |files|
    requires forall k :: 0 <= k < |order| ==> order[k] == k
    ensures FilesOf(BatchOf(files, urls, order)) == files
  {
  }

  /** Readers finishing out of input order put the batch out of input order:
      dropping A then B, with B read first, queues B before A. */
  lemma OutOfOrderCompletionReordersBatch()
    ensures var a := File("A.jpg", 50000, []);
      var b := File("B.png", 120000, []);
      var batch := BatchOf([a, b], ["data:a", "data:b"], [1, 0]);
      FilesOf(batch) == [b, a] && FilesOf(batch) != [a, b]
  {
  }
}

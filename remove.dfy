/**
 * `handleRemoveImage(index)`: an updater copies the list and splices one
 * element out at `index`; then, if the list the handler was rendered with had
 * exactly one entry, the cell is set to `null`. Both updates are applied
 * together, the second last. The "Remove all" handler sets the cell to `null`.
 */
module Remove {
  import opened Wrappers
  import opened QueueState

  /** Where `splice(index, 1)` starts on a list of length `len`: a negative
      index counts back from the end (stopping at 0), one past the end or
      more starts at the end. */
  function SpliceStart(len: nat, index: int): nat {
    if index < 0 then (if len + index < 0 then 0 else len + index)
    else if index < len then index
    else len
  }

  /** `copy.splice(index, 1)` on a copy of `s`: at most one element goes. */
  function Splice<T>(s: seq<T>, index: int): (r: seq<T>)
    ensures var start := SpliceStart(|s|, index);
      && (start < |s| ==> |r| == |s| - 1 && r[..start] == s[..start] && r[start..] == s[start + 1..])
      && (start == |s| ==> r == s)
  {
    var start := SpliceStart(|s|, index);
    if start < |s| then s[..start] + s[start + 1..] else s
  }

  /** Both updates of one click, against the list the handler was rendered with. */
  function RemoveAt(q: Queue, index: int): (r: Queue)
    ensures q.None? || |q.value| == 1 ==> r.None?
    ensures q.Some? && |q.value| == 0 ==> r == q
    ensures q.Some? && |q.value| > 1 ==> r == Some(Splice(q.value, index))
  {
    var spliced := if q.Some? && |q.value| > 0 then Some(Splice(q.value, index)) else q;
    if q.Some? && |q.value| == 1 then None else spliced
  }

  /** "Remove all". */
  function Clear(q: Queue): (r: Queue)
    ensures r.None?
  {
    None
  }

  // ----- Lemmas -----

  /** Removing position `i` of a list of two or more: one fewer entry, those
      before `i` stay, those after `i` move down by one. */
  lemma RemoveShifts(q: Queue, i: int)
    requires q.Some? && |q.value| > 1 && 0 <= i < |q.value|
    ensures var r := RemoveAt(q, i);
      && r.Some? && |r.value| == |q.value| - 1
      && (forall j :: 0 <= j < i ==> r.value[j] == q.value[j])
      && (forall j :: i < j < |q.value| ==> r.value[j - 1] == q.value[j])
  {
    var r := RemoveAt(q, i).value;
    forall j | 0 <= j < i ensures r[j] == q.value[j] {
      assert r[j] == r[..i][j];
    }
    forall j | i < j < |q.value| ensures r[j - 1] == q.value[j] {
      assert r[j - 1] == r[i..][j - 1 - i];
    }
  }

  /** Removing the only entry makes the queue absent, whatever the index. */
  lemma RemoveLastMakesAbsent(q: Queue, i: int)
    requires q.Some? && |q.value| == 1
    ensures RemoveAt(q, i) == None
  {
  }

  /** Removing from an absent queue does nothing. */
  lemma RemoveFromAbsent(i: int)
    ensures RemoveAt(None, i) == None
  {
  }

  /** An index at or past the end of a list of two or more removes nothing. */
  lemma RemovePastEnd(q: Queue, i: int)
    requires q.Some? && |q.value| > 1 && i >= |q.value|
    ensures RemoveAt(q, i) == q
  {
  }

  /** A negative index `-d` removes the entry `d` places from the end, or the first entry. */
  lemma RemoveNegative(q: Queue, i: int)
    requires q.Some? && |q.value| > 1 && i < 0
    ensures var at := if |q.value| + i < 0 then 0 else |q.value| + i;
      RemoveAt(q, i) == RemoveAt(q, at)
  {
  }

  /** Removal keeps the queue invariant; in particular it never leaves a present-but-empty queue. */
  lemma RemoveKeepsValid(q: Queue, i: int)
    requires Valid(q)
    ensures Valid(RemoveAt(q, i))
  {
    if q.Some? && |q.value| > 1 {
      var s := q.value;
      var start := SpliceStart(|s|, i);
      if start < |s| {
        var r := RemoveAt(q, i).value;
        forall k | 0 <= k < |r| ensures WellFormedEntry(r[k]) {
          if k < start {
            assert r[k] == r[..start][k];
          } else {
            assert r[k] == r[start..][k - start];
          }
        }
      }
    }
  }

  /** Clearing twice is clearing once. */
  lemma ClearIdempotent(q: Queue)
    ensures Clear(Clear(q)) == Clear(q) == None
  {
  }
}

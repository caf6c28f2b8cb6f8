/** The JavaScript value and array semantics the log relies on. */
module Js {

  /** A value that may be `undefined` (None). */
  datatype Option<T> = None | Some(value: T)

  /** How `Array.prototype.slice` turns a start or end argument into a position
      of an array of length `len`: a negative argument counts back from the end,
      and the result is clamped to `0..len`. */
  function RelativeIndex(k: int, len: nat): (r: nat)
    ensures r <= len
    ensures 0 <= k ==> r == if k <= len then k else len
    ensures k < 0 ==> r == if -k <= len then len + k else 0
  {
    if k < 0 then (if len + k < 0 then 0 else len + k)
    else if k < len then k else len
  }

  /** `a.slice(start, end)`, with `end` possibly `undefined`: the elements from
      position `start` up to, and not including, position `end`. */
  function Slice<T>(a: seq<T>, start: int, end: Option<int>): (r: seq<T>)
    ensures |r| <= |a|
    ensures var from := RelativeIndex(start, |a|);
            var to := if end.None? then |a| else RelativeIndex(end.value, |a|);
            |r| == (if from < to then to - from else 0)
    ensures forall k :: 0 <= k < |r| ==> r[k] == a[RelativeIndex(start, |a|) + k]
  {
    var from := RelativeIndex(start, |a|);
    var to := if end.None? then |a| else RelativeIndex(end.value, |a|);
    if from < to then a[from..to] else []
  }

  /** With non-negative arguments, a slice is the end-exclusive range between
      them, each clamped to the length; an end before the start gives nothing. */
  lemma SliceNonNegative<T>(a: seq<T>, start: int, end: int)
    requires 0 <= start && 0 <= end
    ensures var from := if start <= |a| then start else |a|;
            var to := if end <= |a| then end else |a|;
            Slice(a, start, Some(end)) == if from <= to then a[from..to] else []
  {
  }

  /** Omitting the end slices to the last element. */
  lemma SliceToEnd<T>(a: seq<T>, start: int)
    requires 0 <= start
    ensures Slice(a, start, None) == if start <= |a| then a[start..] else []
  {
  }

  /** Slicing `[s, m)` and then `[m, e)` yields the slice `[s, e)`, for any
      non-negative `s <= m <= e`, in range or not. */
  lemma SliceSplit<T>(a: seq<T>, s: int, m: int, e: int)
    requires 0 <= s <= m <= e
    ensures Slice(a, s, Some(m)) + Slice(a, m, Some(e)) == Slice(a, s, Some(e))
  {
  }

  /** A slice of an unchanged prefix does not see elements appended later. */
  lemma SliceOfPrefix<T>(a: seq<T>, b: seq<T>, s: int, e: int)
    requires 0 <= s <= e <= |a|
    ensures Slice(a + b, s, Some(e)) == Slice(a, s, Some(e))
  {
  }

  /** For five entries, `slice(1, 3)` holds the entries at 1 and 2, and
      `slice(2)` those at 2, 3 and 4. */
  lemma SliceExample<T>(a: seq<T>)
    requires |a| == 5
    ensures Slice(a, 1, Some(3)) == [a[1], a[2]]
    ensures Slice(a, 2, None) == [a[2], a[3], a[4]]
  {
  }
}

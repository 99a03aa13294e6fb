/** Python list slicing and insertion for non-negative indices.

    A slice bound past the end of a list is clamped to its length, so
    `s[:n]` with `n > len(s)` is the whole list and `s[n:]` is empty.
 */
module Slices {

  function Min(a: nat, b: nat): nat {
    if a <= b then a else b
  }

  /** `s[:i] + [x] + s[i:]`, which is also what `list.insert(i, x)` does for `i >= 0`. */
  function InsertAt<T>(s: seq<T>, i: nat, x: T): (r: seq<T>)
    ensures |r| == |s| + 1
    ensures r[Min(i, |s|)] == x
    ensures r[..Min(i, |s|)] == s[..Min(i, |s|)]
    ensures r[Min(i, |s|) + 1..] == s[Min(i, |s|)..]
  {
    s[..Min(i, |s|)] + [x] + s[Min(i, |s|)..]
  }

  /** `s[:i] + s[i+1:]`: drops element `i` when there is one. */
  function SliceOut<T>(s: seq<T>, i: nat): (r: seq<T>)
    ensures i < |s| ==> |r| == |s| - 1 && r[..i] == s[..i] && r[i..] == s[i + 1..]
    ensures i >= |s| ==> r == s
  {
    s[..Min(i, |s|)] + s[Min(i + 1, |s|)..]
  }

  /** Removing what was just inserted gives the list back. */
  lemma SliceOutInsertAt<T>(s: seq<T>, i: nat, x: T)
    requires i <= |s|
    ensures SliceOut(InsertAt(s, i, x), i) == s
  {
    var t := InsertAt(s, i, x);
    assert t[..i] == s[..i];
    assert t[i + 1..] == s[i..];
    assert s == s[..i] + s[i..];
  }

  /** Putting a removed element back at its place gives the list back. */
  lemma InsertAtSliceOut<T>(s: seq<T>, i: nat)
    requires i < |s|
    ensures InsertAt(SliceOut(s, i), i, s[i]) == s
  {
    var t := SliceOut(s, i);
    assert t[..i] == s[..i];
    assert t[i..] == s[i + 1..];
    assert s == s[..i] + [s[i]] + s[i + 1..];
  }
}

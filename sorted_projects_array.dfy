/** `getSortedProjects` over arrays, as the TypeScript runs it: `filter`
    builds a fresh array of the non-draft entries and `sort` reorders that
    copy in place, so the caller's array is never written. */
module SortedProjectsArray {
  import opened SortedProjects

  /** The `filter` step, which keeps the entries whose draft flag is unset:
      a fresh array of the non-draft entries in input order. */
  method FilterDrafts(a: array<Entry>) returns (b: array<Entry>)
    ensures fresh(b)
    ensures b[..] == Published(a[..])
  {
    var kept: seq<Entry> := [];
    var i := 0;
    while i < a.Length
      invariant 0 <= i <= a.Length
      invariant kept == Published(a[..i])
    {
      assert a[..i + 1][..i] == a[..i];
      if !a[i].draft {
        kept := kept + [a[i]];
      }
      i := i + 1;
    }
    assert a[..a.Length] == a[..];
    b := new Entry[|kept|](j requires 0 <= j < |kept| => kept[j]);
  }

  /** Where `InsertBack` puts `x`: behind position `j - 1` when every entry
      from `j` on belongs after `x` and the one before does not. */
  lemma {:induction false} InsertBackSplit(t: seq<Entry>, x: Entry, j: int)
    requires 0 <= j <= |t|
    requires j == 0 || Compare(t[j - 1], x) <= 0
    requires forall k :: j <= k < |t| ==> Compare(t[k], x) > 0
    ensures InsertBack(t, x) == t[..j] + [x] + t[j..]
  {
    if j < |t| {
      var init, last := t[..|t| - 1], t[|t| - 1];
      assert Compare(last, x) > 0;
      InsertBackSplit(init, x, j);
      assert init[..j] == t[..j];
      assert init[j..] + [last] == t[j..];
    }
  }

  lemma PlaceAt(u: seq<Entry>, t: seq<Entry>, x: Entry, j: int)
    requires 0 <= j <= |t| && |u| == |t| + 1
    requires forall k :: 0 <= k < j ==> u[k] == t[k]
    requires u[j] == x
    requires forall k :: j < k < |u| ==> u[k] == t[k - 1]
    ensures u == t[..j] + [x] + t[j..]
  {
  }

  /** One pass of the in-place insertion sort: `b[i]` is moved left past
      the entries of the sorted prefix `b[..i]` that the comparator places
      after it, and no further. */
  method InsertAt(b: array<Entry>, i: int)
    requires 0 <= i < b.Length
    modifies b
    ensures b[..i + 1] == InsertBack(old(b[..i]), old(b[i]))
    ensures b[i + 1..] == old(b[i + 1..])
  {
    ghost var t := b[..i];
    var x := b[i];
    var j := i;
    while j > 0 && Compare(b[j - 1], x) > 0
      invariant 0 <= j <= i
      invariant forall k :: 0 <= k < j ==> b[k] == t[k]
      invariant forall k :: j < k <= i ==> b[k] == t[k - 1]
      invariant forall k :: i < k < b.Length ==> b[k] == old(b[k])
      invariant forall k :: j <= k < i ==> Compare(t[k], x) > 0
    {
      b[j] := b[j - 1];
      j := j - 1;
    }
    InsertBackSplit(t, x, j);
    b[j] := x;
    PlaceAt(b[..i + 1], t, x, j);
    assert b[i + 1..] == old(b[i + 1..]);
  }

  /** The `sort` step with the comparator `Compare`, as a stable in-place
      insertion sort. */
  method SortInPlace(b: array<Entry>)
    modifies b
    ensures b[..] == SortDesc(old(b[..]))
  {
    ghost var s := b[..];
    var i := 0;
    while i < b.Length
      invariant 0 <= i <= b.Length
      invariant b[..i] == SortDesc(s[..i])
      invariant b[i..] == s[i..]
    {
      assert b[i] == s[i];
      InsertAt(b, i);
      assert s[..i + 1][..i] == s[..i];
      i := i + 1;
    }
    assert s[..b.Length] == s;
  }

  /** `getSortedProjects` on an array: the result is a new array holding
      `GetSortedProjects` of the input, and the input array is left as it was. */
  method GetSortedProjectsArray(a: array<Entry>) returns (b: array<Entry>)
    ensures fresh(b)
    ensures b[..] == GetSortedProjects(a[..])
    ensures a[..] == old(a[..])
  {
    b := FilterDrafts(a);
    SortInPlace(b);
  }
}

/** The project-listing helper: drop the drafts, then order what is left
    newest first by publish time at one-second resolution, keeping the input
    order among entries published in the same second. */
module SortedProjects {

  /** A content entry reduced to what the helper looks at: the draft flag and
      the publish time in milliseconds, plus an identifier so that two entries
      with the same time can be told apart. */
  datatype Entry = Entry(id: string, draft: bool, timeMs: int)

  /** The publish time truncated to whole seconds, rounding towards minus
      infinity as `Math.floor(ms / 1000)` does. */
  function Sec(e: Entry): (r: int)
    ensures 1000 * r <= e.timeMs < 1000 * r + 1000
  {
    e.timeMs / 1000
  }

  /** The sort comparator: positive when `a` belongs after `b`. */
  function Compare(a: Entry, b: Entry): (r: int)
    ensures r > 0 <==> Sec(a) < Sec(b)
    ensures r == 0 <==> Sec(a) == Sec(b)
    ensures r < 0 <==> Sec(b) < Sec(a)
  {
    Sec(b) - Sec(a)
  }

  /** The draft filter, keeping the input order. */
  function Published(s: seq<Entry>): (r: seq<Entry>)
    ensures |r| <= |s|
    ensures forall e :: e in r ==> !e.draft
  {
    if s == [] then []
    else
      var init, last := s[..|s| - 1], s[|s| - 1];
      Published(init) + (if last.draft then [] else [last])
  }

  /** Newest first: no entry has a later second than one before it. */
  ghost predicate Descending(r: seq<Entry>)
  {
    forall i, j :: 0 <= i < j < |r| ==> Sec(r[j]) <= Sec(r[i])
  }

  /** The entries of `s` whose publish second is `k`, in their order in `s`. */
  ghost function InSecond(s: seq<Entry>, k: int): (r: seq<Entry>)
  {
    if s == [] then []
    else InSecond(s[..|s| - 1], k) + (if Sec(s[|s| - 1]) == k then [s[|s| - 1]] else [])
  }

  /** `r` orders the entries of each second as `s` does. */
  ghost predicate SameOrderPerSecond(r: seq<Entry>, s: seq<Entry>)
  {
    forall k :: InSecond(r, k) == InSecond(s, k)
  }

  /** One insertion step of a stable sort: `x` goes behind every entry of `t`
      that the comparator does not place after it. */
  function InsertBack(t: seq<Entry>, x: Entry): (r: seq<Entry>)
  {
    if t == [] || Compare(t[|t| - 1], x) <= 0 then t + [x]
    else InsertBack(t[..|t| - 1], x) + [t[|t| - 1]]
  }

  /** Stable descending sort by publish second (insertion sort). */
  function SortDesc(s: seq<Entry>): (r: seq<Entry>)
  {
    if s == [] then []
    else InsertBack(SortDesc(s[..|s| - 1]), s[|s| - 1])
  }

  /** `getSortedProjects`: the non-draft entries, newest second first,
      same-second entries in input order. */
  function GetSortedProjects(s: seq<Entry>): (r: seq<Entry>)
    ensures forall e :: e in r ==> !e.draft
    ensures forall e :: multiset(r)[e] == if e.draft then 0 else multiset(s)[e]
    ensures Descending(r)
    ensures SameOrderPerSecond(r, Published(s))
    ensures |r| <= |s|
  {
    forall e ensures multiset(Published(s))[e] == if e.draft then 0 else multiset(s)[e] {
      PublishedCount(s, e);
    }
    SortDescSorts(Published(s));
    SortDesc(Published(s))
  }

  /** The filter keeps every copy of a non-draft entry and no copy of a
      draft. */
  lemma {:induction false} PublishedCount(s: seq<Entry>, e: Entry)
    ensures multiset(Published(s))[e] == if e.draft then 0 else multiset(s)[e]
  {
    if s != [] {
      var init, last := s[..|s| - 1], s[|s| - 1];
      assert s == init + [last];
      PublishedCount(init, e);
    }
  }

  // ---------------------------------------------------------------------
  // Lemmas about the insertion step and the per-second subsequences

  lemma {:induction false} InsertBackCount(t: seq<Entry>, x: Entry)
    ensures multiset(InsertBack(t, x)) == multiset(t) + multiset{x}
  {
    if t != [] && Compare(t[|t| - 1], x) > 0 {
      var init, last := t[..|t| - 1], t[|t| - 1];
      assert t == init + [last];
      InsertBackCount(init, x);
    }
  }

  /** When `x` is inserted before the last entry of a newest-first `t`, no
      entry of the shorter result is in an earlier second than that last one. */
  lemma InsertBackNotEarlier(t: seq<Entry>, x: Entry)
    requires Descending(t) && t != [] && Compare(t[|t| - 1], x) > 0
    ensures forall e :: e in InsertBack(t[..|t| - 1], x) ==> Sec(t[|t| - 1]) <= Sec(e)
  {
    var init, last := t[..|t| - 1], t[|t| - 1];
    var u := InsertBack(init, x);
    InsertBackCount(init, x);
    forall e | e in u ensures Sec(last) <= Sec(e) {
      assert e in multiset(u);
      if e != x {
        assert e in multiset(init);
        var i :| 0 <= i < |init| && init[i] == e;
        assert t[i] == e;
      }
    }
  }

  lemma {:induction false} InsertBackDescending(t: seq<Entry>, x: Entry)
    requires Descending(t)
    ensures Descending(InsertBack(t, x))
  {
    if t == [] || Compare(t[|t| - 1], x) <= 0 {
    } else {
      var init, last := t[..|t| - 1], t[|t| - 1];
      InsertBackDescending(init, x);
      var u := InsertBack(init, x);
      InsertBackNotEarlier(t, x);
      var r := u + [last];
      forall i, j | 0 <= i < j < |r| ensures Sec(r[j]) <= Sec(r[i]) {
        if j < |u| {
          assert r[i] == u[i] && r[j] == u[j];
        } else {
          assert r[i] in u;
        }
      }
    }
  }

  lemma {:induction false} InSecondAppend(s: seq<Entry>, x: Entry, k: int)
    ensures InSecond(s + [x], k) == InSecond(s, k) + (if Sec(x) == k then [x] else [])
  {
    assert (s + [x])[..|s|] == s;
  }

  lemma {:induction false} InsertBackInSecond(t: seq<Entry>, x: Entry, k: int)
    ensures InSecond(InsertBack(t, x), k) == InSecond(t, k) + (if Sec(x) == k then [x] else [])
  {
    if t == [] || Compare(t[|t| - 1], x) <= 0 {
      InSecondAppend(t, x, k);
    } else {
      var init, last := t[..|t| - 1], t[|t| - 1];
      assert t == init + [last];
      InsertBackInSecond(init, x, k);
      InSecondAppend(InsertBack(init, x), last, k);
      InSecondAppend(init, last, k);
    }
  }

  lemma {:induction false} InSecondHas(s: seq<Entry>, i: int)
    requires 0 <= i < |s|
    ensures s[i] in InSecond(s, Sec(s[i]))
  {
    var init := s[..|s| - 1];
    if i < |s| - 1 {
      assert init[i] == s[i];
      InSecondHas(init, i);
    }
  }

  lemma {:induction false} InSecondElements(s: seq<Entry>, k: int, e: Entry)
    requires e in InSecond(s, k)
    ensures e in s && Sec(e) == k
  {
    var init := s[..|s| - 1];
    if e in InSecond(init, k) {
      InSecondElements(init, k, e);
    }
  }

  /** The insertion sort is a permutation, newest first, and stable. */
  lemma {:induction false} SortDescSorts(s: seq<Entry>)
    ensures multiset(SortDesc(s)) == multiset(s)
    ensures Descending(SortDesc(s))
    ensures SameOrderPerSecond(SortDesc(s), s)
  {
    if s != [] {
      var init, last := s[..|s| - 1], s[|s| - 1];
      assert s == init + [last];
      var t := SortDesc(init);
      SortDescSorts(init);
      InsertBackCount(t, last);
      InsertBackDescending(t, last);
      forall k ensures InSecond(InsertBack(t, last), k) == InSecond(s, k) {
        InsertBackInSecond(t, last, k);
        InSecondAppend(init, last, k);
      }
    }
  }

  // ---------------------------------------------------------------------
  // The sort is determined by its two properties

  lemma DescendingInit(r: seq<Entry>)
    requires Descending(r) && r != []
    ensures Descending(r[..|r| - 1])
  {
    var r0 := r[..|r| - 1];
    forall i, j | 0 <= i < j < |r0| ensures Sec(r0[j]) <= Sec(r0[i]) {
      assert r0[i] == r[i] && r0[j] == r[j];
    }
  }

  /** The last entry of a newest-first sequence is in its earliest second, so
      two such sequences that order every second alike end in the same second. */
  lemma LastSecondsAgree(r: seq<Entry>, q: seq<Entry>)
    requires Descending(r) && Descending(q) && r != [] && q != []
    requires SameOrderPerSecond(r, q)
    ensures Sec(q[|q| - 1]) <= Sec(r[|r| - 1])
  {
    var a, b := r[|r| - 1], q[|q| - 1];
    InSecondHas(r, |r| - 1);
    assert a in InSecond(q, Sec(a));
    InSecondElements(q, Sec(a), a);
    var i :| 0 <= i < |q| && q[i] == a;
    assert Sec(q[|q| - 1]) <= Sec(q[i]);
  }

  lemma SameOrderPerSecondInit(r: seq<Entry>, q: seq<Entry>)
    requires r != [] && q != [] && r[|r| - 1] == q[|q| - 1]
    requires SameOrderPerSecond(r, q)
    ensures SameOrderPerSecond(r[..|r| - 1], q[..|q| - 1])
  {
    var r0, q0, a := r[..|r| - 1], q[..|q| - 1], r[|r| - 1];
    forall k ensures InSecond(r0, k) == InSecond(q0, k) {
      if k == Sec(a) {
        assert InSecond(r, k) == InSecond(r0, k) + [a];
        assert InSecond(q, k) == InSecond(q0, k) + [a];
        assert InSecond(r0, k) == InSecond(r, k)[..|InSecond(r, k)| - 1];
        assert InSecond(q0, k) == InSecond(q, k)[..|InSecond(q, k)| - 1];
      } else {
        assert InSecond(r0, k) == InSecond(r, k);
        assert InSecond(q0, k) == InSecond(q, k);
      }
    }
  }

  lemma SameOrderPerSecondEmpty(r: seq<Entry>, q: seq<Entry>)
    requires SameOrderPerSecond(r, q) && r == []
    ensures q == []
  {
    if q != [] {
      InSecondHas(q, 0);
    }
  }

  lemma LastEntriesAgree(r: seq<Entry>, q: seq<Entry>)
    requires r != [] && q != [] && Sec(r[|r| - 1]) == Sec(q[|q| - 1])
    requires SameOrderPerSecond(r, q)
    ensures r[|r| - 1] == q[|q| - 1]
  {
    var a, b := r[|r| - 1], q[|q| - 1];
    var sa, sb := InSecond(r, Sec(a)), InSecond(q, Sec(a));
    assert sa == InSecond(r[..|r| - 1], Sec(a)) + [a];
    assert sb == InSecond(q[..|q| - 1], Sec(a)) + [b];
    assert sa == sb;
    assert sa[|sa| - 1] == a && sb[|sb| - 1] == b;
  }

  /** Two newest-first sequences that order every second's entries alike are
      the same sequence. */
  lemma {:induction false} DescendingUnique(r: seq<Entry>, q: seq<Entry>)
    requires Descending(r) && Descending(q)
    requires SameOrderPerSecond(r, q)
    ensures r == q
    decreases |r| + |q|
  {
    if r == [] {
      SameOrderPerSecondEmpty(r, q);
    } else if q == [] {
      SameOrderPerSecondEmpty(q, r);
      assert false;
    } else {
      var r0, q0 := r[..|r| - 1], q[..|q| - 1];
      LastSecondsAgree(r, q);
      LastSecondsAgree(q, r);
      LastEntriesAgree(r, q);
      SameOrderPerSecondInit(r, q);
      DescendingInit(r);
      DescendingInit(q);
      DescendingUnique(r0, q0);
      assert r == r0 + [r[|r| - 1]] && q == q0 + [q[|q| - 1]];
    }
  }

  /** The output of `getSortedProjects` is exactly the newest-first sequence
      that keeps the input order of the non-draft entries of every second. */
  lemma GetSortedProjectsCharacterized(s: seq<Entry>, r: seq<Entry>)
    ensures r == GetSortedProjects(s) <==> Descending(r) && SameOrderPerSecond(r, Published(s))
  {
    var g := GetSortedProjects(s);
    if Descending(r) && SameOrderPerSecond(r, Published(s)) {
      DescendingUnique(r, g);
    }
  }

  // ---------------------------------------------------------------------
  // Consequences

  lemma {:induction false} PublishedKeepsAll(s: seq<Entry>)
    requires forall i :: 0 <= i < |s| ==> !s[i].draft
    ensures Published(s) == s
  {
    if s != [] {
      var init, last := s[..|s| - 1], s[|s| - 1];
      assert s == init + [last];
      assert !last.draft;
      assert forall i :: 0 <= i < |init| ==> !init[i].draft by {
        forall i | 0 <= i < |init| ensures !init[i].draft {
          assert init[i] == s[i];
        }
      }
      PublishedKeepsAll(init);
      calc {
        Published(s);
        Published(init) + [last];
        init + [last];
        s;
      }
    }
  }

  /** An input that has no drafts and is already newest first comes back
      unchanged. */
  lemma SortedInputUnchanged(s: seq<Entry>)
    requires forall e :: e in s ==> !e.draft
    requires Descending(s)
    ensures GetSortedProjects(s) == s
  {
    PublishedKeepsAll(s);
    GetSortedProjectsCharacterized(s, s);
  }

  lemma GetSortedProjectsIdempotent(s: seq<Entry>)
    ensures GetSortedProjects(GetSortedProjects(s)) == GetSortedProjects(s)
  {
    SortedInputUnchanged(GetSortedProjects(s));
  }

  /** The output is empty exactly when every input entry is a draft; in
      particular the empty input gives the empty output. */
  lemma EmptyIffAllDrafts(s: seq<Entry>)
    ensures GetSortedProjects(s) == [] <==> forall e :: e in s ==> e.draft
  {
    var r := GetSortedProjects(s);
    if r == [] {
      forall e | e in s ensures e.draft {
        assert multiset(r)[e] == 0;
      }
    } else {
      assert multiset(r)[r[0]] > 0;
      assert r[0] in s && !r[0].draft;
    }
  }

  /** Two published entries of the same second keep their order, however far
      apart their milliseconds are. */
  lemma SameSecondKeepsOrder(a: Entry, b: Entry)
    requires !a.draft && !b.draft
    requires Sec(a) == Sec(b)
    ensures GetSortedProjects([a, b]) == [a, b]
  {
    SortedInputUnchanged([a, b]);
  }

  /** Of two published entries of different seconds, the later comes first. */
  lemma LaterSecondFirst(a: Entry, b: Entry)
    requires !a.draft && !b.draft
    requires Sec(a) < Sec(b)
    ensures GetSortedProjects([a, b]) == [b, a]
  {
    assert [a, b][..1] == [a];
    assert [a][..0] == [];
    assert Published([a, b]) == [a, b];
    assert SortDesc([a]) == [a];
    assert InsertBack([a], b) == [b, a];
  }

  /** A draft dropped and two entries a hundred seconds apart reordered. */
  lemma DraftDroppedScenario()
    ensures GetSortedProjects([Entry("p1", true, 300_000), Entry("p2", false, 100_000), Entry("p3", false, 200_000)])
         == [Entry("p3", false, 200_000), Entry("p2", false, 100_000)]
  {
    var s := [Entry("p1", true, 300_000), Entry("p2", false, 100_000), Entry("p3", false, 200_000)];
    assert s[..2][..1] == [s[0]];
    assert Published(s) == [s[1], s[2]];
    LaterSecondFirst(s[1], s[2]);
  }

  /** The same entries with the times read as milliseconds all fall in second
      0, so the published ones keep their input order. */
  lemma SubSecondScenario()
    ensures GetSortedProjects([Entry("p1", true, 300), Entry("p2", false, 100), Entry("p3", false, 200)])
         == [Entry("p2", false, 100), Entry("p3", false, 200)]
  {
    var s := [Entry("p1", true, 300), Entry("p2", false, 100), Entry("p3", false, 200)];
    assert s[..2][..1] == [s[0]];
    assert Published(s) == [s[1], s[2]];
    SameSecondKeepsOrder(s[1], s[2]);
  }
}

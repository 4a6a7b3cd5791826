# getSortedProjects, verified

This project models `getSortedProjects`, the one piece of logic the site
repository owns. It is the helper that builds the project listing from a
collection of content entries. It drops every entry whose `draft` flag is
set. It then orders the rest newest first by `pubDatetime`, truncated to
whole seconds with `Math.floor(ms / 1000)`. `Array.prototype.sort` is stable
(ECMA-262, 2019 edition onward), so entries published in the same second
keep their input order.

The model has two modules.

- `SortedProjects` (`sorted_projects.dfy`) holds the value-level model.
  `Entry` keeps the draft flag, the publish time in milliseconds, and an `id`
  so that entries with equal times can be told apart. `Sec` is the seconds
  key. Dafny's `/` by a positive divisor rounds towards minus infinity, as
  `Math.floor` does, so times before 1970 are handled the same way. `Compare`
  is the source's comparator, `Published` is the `filter`, and `SortDesc` is
  a stable insertion sort driven by `Compare`. `GetSortedProjects` is their
  composition.
- `SortedProjectsArray` (`sorted_projects_array.dfy`) runs the same
  operation the way the TypeScript does. `filter` writes into a fresh array,
  `sort` reorders that copy in place, and the caller's array is never
  written. Each method is proved equal to the function it refines.

ECMA-262 does not fix the algorithm behind `sort`. `DescendingUnique` shows
that the choice does not matter: there is exactly one sequence that is newest
first and keeps every second's entries in input order. Any stable sort with
this comparator therefore returns what `SortDesc` returns.

Two terms used below:
- "newest first" (`Descending`): no entry is in a later second than an entry
  before it, for every pair of positions, adjacent pairs included.
- "same order per second" (`SameOrderPerSecond`): for every second `k`, the
  entries in second `k`, read in order, are the same subsequence in both
  sequences. This is stability. It also implies that both sequences hold the
  same entries.

Take a draft at time 300 followed by non-draft entries at 100 and 200. The
output is 200 then 100 only if those numbers are seconds
(`DraftDroppedScenario`). If they are milliseconds, all three fall into
second 0, and the code keeps 100 before 200 (`SubSecondScenario`). The model
follows the code, which compares whole seconds only.

## Model

| member | source | states |
|---|---|---|
| `SortedProjects.Sec` | src/utils/getSortedProjects.ts:8-9 | the key is the floor of the milliseconds divided by 1000: `1000 * r <= timeMs < 1000 * r + 1000`, negative times included |
| `SortedProjects.Compare` | src/utils/getSortedProjects.ts:7-9 | the comparator is positive exactly when `a` is in an earlier second than `b` (so `a` goes after `b`), zero exactly when both are in the same second, and negative otherwise |
| `SortedProjects.Published` | src/utils/getSortedProjects.ts:5 | the filtered sequence contains no draft and is no longer than the input |
| `SortedProjects.PublishedCount` | src/utils/getSortedProjects.ts:4-5 | the filter keeps every copy of each non-draft entry and no copy of a draft |
| `SortedProjects.PublishedKeepsAll` | src/utils/getSortedProjects.ts:5 | on an input without drafts the filter returns the input unchanged |
| `SortedProjects.InsertBackCount` | src/utils/getSortedProjects.ts:6-10 | one insertion step `InsertBack` adds exactly the inserted entry and loses nothing |
| `SortedProjects.InsertBackDescending` | src/utils/getSortedProjects.ts:6-10 | `InsertBack` into a newest-first sequence keeps it newest first |
| `SortedProjects.InsertBackInSecond` | src/utils/getSortedProjects.ts:6-10 | `InsertBack` of `x` changes the entries of each second only by appending `x` to its own second (the step is stable) |
| `SortedProjects.SortDescSorts` | src/utils/getSortedProjects.ts:6-10 | the insertion sort `SortDesc` is a permutation of its input, newest first, and keeps the order within each second |
| `SortedProjects.GetSortedProjects` | src/utils/getSortedProjects.ts:3-10 | the output has no drafts; each non-draft entry occurs as often as in the input and each draft never; it is newest first; within each second it keeps the order of the non-draft input; it is no longer than the input |
| `SortedProjects.DescendingUnique` | src/utils/getSortedProjects.ts:6-10 | two newest-first sequences with the same order per second are equal, so a stable sort on this key has one possible result |
| `SortedProjects.GetSortedProjectsCharacterized` | src/utils/getSortedProjects.ts:3-10 | a sequence is the output if and only if it is newest first and has the same order per second as the non-draft input |
| `SortedProjects.SortedInputUnchanged` | src/utils/getSortedProjects.ts:3-10 | an input with no drafts that is already newest first comes back unchanged |
| `SortedProjects.GetSortedProjectsIdempotent` | src/utils/getSortedProjects.ts:3-10 | applying the helper to its own output returns that output |
| `SortedProjects.EmptyIffAllDrafts` | src/utils/getSortedProjects.ts:4-5 | the output is empty if and only if every input entry is a draft, the empty input included |
| `SortedProjects.SameSecondKeepsOrder` | src/utils/getSortedProjects.ts:7-9 | for a two-entry input `[a, b]` of published entries in the same second, the output is `[a, b]`, whatever their milliseconds (the general property is the per-second order in `GetSortedProjects`) |
| `SortedProjects.LaterSecondFirst` | src/utils/getSortedProjects.ts:7-9 | for a two-entry input `[a, b]` of published entries with `a` in an earlier second, the output is `[b, a]` |
| `SortedProjects.DraftDroppedScenario` | src/utils/getSortedProjects.ts:3-10 | a draft at 300 s is dropped, and entries at 100 s and 200 s come out as 200 s then 100 s |
| `SortedProjects.SubSecondScenario` | src/utils/getSortedProjects.ts:3-10 | with 300 ms, 100 ms and 200 ms, the draft is dropped and the other two keep their input order |
| `SortedProjectsArray.FilterDrafts` | src/utils/getSortedProjects.ts:5 | `filter` returns a fresh array holding `Published` of the input array |
| `SortedProjectsArray.InsertAt` | src/utils/getSortedProjects.ts:6-10 | one in-place insertion pass leaves the prefix equal to `InsertBack` of the old sorted prefix and the old entry, and does not touch the rest |
| `SortedProjectsArray.SortInPlace` | src/utils/getSortedProjects.ts:6-10 | the in-place sort leaves the array equal to `SortDesc` of its old contents |
| `SortedProjectsArray.GetSortedProjectsArray` | src/utils/getSortedProjects.ts:3-10 | the result is a fresh array equal to `GetSortedProjects` of the input; the method has no `modifies` clause, so the input array is unchanged |

## Left out

- `new Date(pubDatetime).getTime()`: date parsing is left out. Times are
  given as integer milliseconds, assumed valid. An invalid date gives NaN,
  which would make the comparator inconsistent; that case is not modelled.
- The range of `getTime()`: JavaScript numbers are doubles. Every valid date
  is an exact integer of at most 8.64e15 ms, so `ms / 1000` is at most
  8.64e12 < 2^43 in size. At that size half a unit in the last place is below
  0.001, so `Math.floor(ms / 1000)` is exact. The integer model is therefore
  exact over the whole range of valid dates.
- The Astro `CollectionEntry` type is reduced to the draft flag, the publish
  time and an identifier. Its other fields are not read by the helper.
- The algorithm inside `Array.prototype.sort` is implementation-defined. The
  model uses insertion sort. `DescendingUnique` shows that every stable sort
  with this comparator gives the same result.
- `Sources/Site/main.swift` holds the site configuration and one call into
  the external Publish pipeline: Markdown rendering, the HighlightJS and
  CNAME plugins, RSS and sitemap generation, and GitHub deployment. All of
  that is foreign code or I/O, with no local logic to model.
- `Package.swift` only declares dependencies.

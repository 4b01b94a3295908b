# GithubTrendingRepos: list search and single selection

This project models the in-memory list logic of the GithubTrendingRepos Android client. The app shows cached GitHub repositories in a list that the user can search and tap. Two parts of `MainFragment.kt` carry that logic, and the model is written in Dafny.

- **The search filter of `ReposAdapter`.** The adapter keeps the full list `repos` and the visible list `filterList`.
  - `setItems` installs a new full list and shows all of it.
  - `performFiltering` / `publishResults` recompute the visible list from `repos` and the query text. An empty query shows `repos` itself. Any other query keeps, in order, the rows whose lower-cased name contains the lower-cased query.
- **The click handler of `MainFragment`.** The fragment keeps the full list `listItems` and a stored position, `mPreviousSelectionState`, where -1 means none. On a click, the handler first clears the row at the stored position, but only if that position is not -1 and lies inside `listItems`. It then sets `isSelected` on the first occurrence of the clicked record and stores that position.

Modules:

- `KotlinText` (`text.dfy`): ASCII `toLowerCase` and `contains`. A recursive `Contains` is proved equal to "occurs at some index".
- `Repos` (`repo.dfy`): the shared `Repo` record. It is a class, because `isSelected` is updated in place and seen through every list that holds the record. The module also defines `indexOf`.
- `RepoFilter` (`filter.dfy`): the filter's membership rule `Matches` and the list it selects, `Filtered`, with lemmas about both.
- `Adapter` (`adapter.dfy`): the `ReposAdapter` class. Its filtering loop is proved against `Filtered`.
- `Selection` (`selection.dfy`): the click rule on the sequence of selection flags, with its invariant "the stored position marks the one selected row".
- `Fragment` (`fragment.dfy`): the `MainFragment` class. It has the list observer and the click handler, which is proved against the flag rule.

Behaviour of the code that is easy to miss:

- `setItems` drops any active filter. It does not re-apply the filter.
- The stored selection position is an index into the full list `listItems`, not into the visible list. Filtering never makes it stale. Only a new list from the database can.
- Clicking a record that is not in `listItems` is not a no-op. The handler has already cleared the previous selection, and then it throws at `listItems[-1]`. The model returns the outcome `NotListed` in that case.
- A null query is not treated as empty. `constraint.toString()` turns it into the text `"null"`, and the filter then matches against that text (`Query(None)`).
- `lateinit` fields read before they are assigned throw. The model returns the outcome `NotInitialized` from the filter and `NotLoaded` from a click, and no state changes.

## Model

| member | source | states |
|---|---|---|
| KotlinText.LowerChar | app/src/main/java/com/rohith/githubtrendingrepos/ui/MainFragment.kt:223 | lower-casing never yields an upper-case ASCII letter, maps 'A'..'Z' onto 'a'..'z' and keeps every other character |
| KotlinText.ToLower | app/src/main/java/com/rohith/githubtrendingrepos/ui/MainFragment.kt:223 | `toLowerCase()` keeps the length, leaves no upper-case ASCII letter, and returns a string with no upper-case ASCII letters unchanged |
| KotlinText.Contains | app/src/main/java/com/rohith/githubtrendingrepos/ui/MainFragment.kt:223 | defines `contains` as "some suffix starts with the needle": the empty needle is found in every string, and a found needle is no longer than the string |
| KotlinText.ToLowerIdempotent | app/src/main/java/com/rohith/githubtrendingrepos/ui/MainFragment.kt:223 | lower-casing an already lower-cased string changes nothing |
| KotlinText.ContainsIffOccurs | app/src/main/java/com/rohith/githubtrendingrepos/ui/MainFragment.kt:223 | `contains` holds exactly when the needle occurs at some index of the name, in both directions |
| Repos.IndexOf | app/src/main/java/com/rohith/githubtrendingrepos/ui/MainFragment.kt:107-108 | `indexOf` is -1 exactly when the record is absent; otherwise it is a position holding the record, and no earlier position holds it |
| RepoFilter.Query | app/src/main/java/com/rohith/githubtrendingrepos/ui/MainFragment.kt:217 | defines `constraint.toString()`: the query text is empty exactly when the constraint is the empty string, so a null constraint never takes the show-everything branch |
| RepoFilter.Matches | app/src/main/java/com/rohith/githubtrendingrepos/ui/MainFragment.kt:223 | defines the membership test, lower-cased name contains lower-cased query: the empty query matches every name, and a match needs a query no longer than the name |
| RepoFilter.Filtered | app/src/main/java/com/rohith/githubtrendingrepos/ui/MainFragment.kt:221-227 | the filter result is no longer than the list; every row in it is a row of the list whose name matches; every matching row of the list is in it |
| RepoFilter.FilterIsSubsequence | app/src/main/java/com/rohith/githubtrendingrepos/ui/MainFragment.kt:221-227 | the filter result sits at strictly increasing positions of the list it filters, so it preserves order |
| RepoFilter.FilterEmptyQuery | app/src/main/java/com/rohith/githubtrendingrepos/ui/MainFragment.kt:218-219 | filtering by the empty query keeps the whole list: same rows, same order |
| RepoFilter.FilterIdempotent | app/src/main/java/com/rohith/githubtrendingrepos/ui/MainFragment.kt:221-227 | filtering the filtered list again with the same query changes nothing |
| RepoFilter.FilterIgnoresQueryCase | app/src/main/java/com/rohith/githubtrendingrepos/ui/MainFragment.kt:223 | lower-casing the query first selects the same rows |
| RepoFilter.MatchesIgnoringCase | app/src/main/java/com/rohith/githubtrendingrepos/ui/MainFragment.kt:223 | "A" matches "Alpha", "beta" and "gamma"; "be" matches "beta" only |
| Adapter.ReposAdapter.constructor | app/src/main/java/com/rohith/githubtrendingrepos/ui/MainFragment.kt:172-174 | a new adapter shows no rows and has no full list yet |
| Adapter.ReposAdapter.ItemCount | app/src/main/java/com/rohith/githubtrendingrepos/ui/MainFragment.kt:189 | defines `getItemCount()` as the number of visible rows; it is zero exactly when no row is visible |
| Adapter.ReposAdapter.SetItems | app/src/main/java/com/rohith/githubtrendingrepos/ui/MainFragment.kt:189-210 | `repos` and `filterList` both become the new list, whatever filter was active, and `getItemCount()` is its length |
| Adapter.ReposAdapter.PerformFiltering | app/src/main/java/com/rohith/githubtrendingrepos/ui/MainFragment.kt:216-232 | the visible list becomes `Filtered(repos, query)` and is returned, whatever was shown before. An empty query shows `repos` exactly. The row count is at most that of `repos`. An unassigned `repos` gives `NotInitialized` and changes nothing |
| Adapter.ReposAdapter.PublishResults | app/src/main/java/com/rohith/githubtrendingrepos/ui/MainFragment.kt:234-237 | the visible list becomes exactly the computed results |
| Adapter.ReposAdapter.ApplyFilter | app/src/main/java/com/rohith/githubtrendingrepos/ui/MainFragment.kt:146-148 | filtering then publishing leaves `Filtered(repos, query)` visible, or fails and changes nothing when `repos` is unassigned |
| Adapter.FilterTwice | app/src/main/java/com/rohith/githubtrendingrepos/ui/MainFragment.kt:216-237 | applying the same query twice shows the same rows both times |
| Selection.ClickFlags | app/src/main/java/com/rohith/githubtrendingrepos/ui/MainFragment.kt:103-108 | after a click, the clicked position is selected. The stored position, if it is inside the list and differs, is cleared. A stored position past the end is ignored. No other flag changes |
| Selection.TrackedCount | app/src/main/java/com/rohith/githubtrendingrepos/ui/MainFragment.kt:103-108 | while the stored position is accurate, exactly one row is selected, or none when it is -1 |
| Selection.ClickKeepsTracked | app/src/main/java/com/rohith/githubtrendingrepos/ui/MainFragment.kt:103-108 | a click from an accurate stored position leaves exactly the clicked row selected, with its position as the accurate new stored position |
| Selection.ClickAgain | app/src/main/java/com/rohith/githubtrendingrepos/ui/MainFragment.kt:103-108 | clicking the just-clicked row again leaves every flag as it was |
| Fragment.MainFragment.constructor | app/src/main/java/com/rohith/githubtrendingrepos/ui/MainFragment.kt:42-47 | a new fragment has no list yet and no stored selection |
| Fragment.MainFragment.OnReposChanged | app/src/main/java/com/rohith/githubtrendingrepos/ui/MainFragment.kt:65-70 | a new list from the database becomes `listItems`. When there is an adapter, the list also becomes the adapter's assigned full list and its visible list. The stored selection position is kept |
| Fragment.MainFragment.Click | app/src/main/java/com/rohith/githubtrendingrepos/ui/MainFragment.kt:101-110 | the stored position is cleared only when it is not -1 and lies inside `listItems`. The clicked record is then selected and its first position is stored. Only those two records change. A record not in the list gives `NotListed`, after the clearing. Without duplicates, the flags follow `ClickFlags` |
| Fragment.SearchAfterLoad | app/src/main/java/com/rohith/githubtrendingrepos/ui/MainFragment.kt:146-148 | a query typed after the list observer has run always filters, and shows exactly the matching rows of the new list |
| Fragment.ClickKeepsOneSelected | app/src/main/java/com/rohith/githubtrendingrepos/ui/MainFragment.kt:101-110 | from an accurate stored position, with no record listed twice, a click on a listed row leaves exactly one row selected and the stored position accurate |

## Left out

- Android plumbing is not modelled: view inflation, view holders, data binding, the options menu and `SearchView` wiring, and the network-error Toast. The redraw requests (`notifyDataSetChanged`, `notifyItemChanged`) are not modelled either, so the model does not capture that `notifyItemChanged` is given a position in the full list while the adapter shows the filtered list.
- The worker-thread / UI-thread split between `performFiltering` and `publishResults` is not modelled. They run as one sequential step (`ApplyFilter`). How the framework treats an exception thrown inside `performFiltering` is not modelled.
- Lower-casing covers ASCII letters only. The locale-dependent Unicode rules of Kotlin's `toLowerCase` are not modelled.
- Fragment.MainFragment.OnReposChanged: the observer's `repos?.apply` skips a null list; the model's list parameter cannot be null, so that no-op branch is not modelled (the database's list query does not emit null).
- `Repo.kt` is not part of this model. Records are compared by reference, so `indexOf` finds the first slot holding the same object. If `Repo` is a data class, its `equals` compares fields instead, and two equal-valued records would be indistinguishable.
- `MainViewModel` is not part of this model. Its `mPreviousSelectionState` is a field of the fragment model, assumed to start at -1. The view model outliving a re-created fragment is not modelled.
- Lists are modelled as values. `setItems` and the empty-query branch make `filterList` the same list object as `repos`. Nothing mutates either list in place, so sharing is not observable. The `as MutableList<Repo>` casts, which would throw on an immutable list, are not modelled. Neither is a null `FilterResults` passed to `publishResults`.
- Fragment.MainFragment.Click: the position-by-position flag equation with `ClickFlags` is stated only when no record appears twice in `listItems`. The record-level postconditions hold without that condition.
- `GitRepository.kt` (network fetch and database insert), `Room.kt` (DAO and database singleton), `BindingAdapters.kt` (view visibility) and `RepoSearchResponse.kt` (response holder) are I/O, persistence and UI glue. They are outside this model.

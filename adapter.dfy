/**
 * `ReposAdapter`: the list adapter that owns the full list `repos` and the
 * visible list `filterList`, and filters the one into the other.
 * Redraw requests (`notifyDataSetChanged`) are not modelled.
 */
module Adapter {
  import opened Repos
  import opened RepoFilter

  /** What `performFiltering` produces: the filtered rows, or the exception thrown
      when `repos` (a `lateinit` field) has never been assigned. */
  datatype FilterOutcome = Results(values: seq<Repo>) | NotInitialized

  class ReposAdapter {
    /** The full list shown by the adapter (`lateinit var repos`). */
    var repos: seq<Repo>
    /** Whether `repos` has been assigned yet. */
    var reposSet: bool
    /** The rows currently shown. */
    var filterList: seq<Repo>

    /** A new adapter shows nothing and has no full list yet. */
    constructor ()
      ensures !reposSet && filterList == [] && ItemCount() == 0
    {
      repos := [];
      reposSet := false;
      filterList := [];
    }

    /** `getItemCount()`: the number of visible rows. */
    function ItemCount(): (n: nat)
      reads this
      ensures n == 0 <==> filterList == []
    {
      |filterList|
    }

    /** `setItems`: install a new full list and show all of it, dropping any active filter. */
    method SetItems(items: seq<Repo>)
      modifies this
      ensures reposSet && repos == items
      ensures filterList == items && ItemCount() == |items|
    {
      repos := items;
      reposSet := true;
      filterList := repos;
    }

    /**
     * `performFiltering`: recompute the visible list from `repos` and the
     * query alone. An empty query shows `repos` itself; any other query keeps
     * the matching rows in order.
     */
    method PerformFiltering(constraint: Option<string>) returns (outcome: FilterOutcome)
      modifies this`filterList
      ensures !reposSet ==> outcome == NotInitialized && filterList == old(filterList)
      ensures reposSet ==> outcome == Results(filterList)
      ensures reposSet ==> filterList == Filtered(repos, Query(constraint))
      ensures reposSet && Query(constraint) == "" ==> filterList == repos
      ensures reposSet ==> ItemCount() <= |repos|
    {
      if !reposSet {
        return NotInitialized;
      }
      var charSearch := Query(constraint);
      if |charSearch| == 0 {
        filterList := repos;
        FilterEmptyQuery(repos);
      } else {
        var resultList: seq<Repo> := [];
        for i := 0 to |repos|
          invariant resultList == Filtered(repos[..i], charSearch)
        {
          assert repos[..i + 1][..i] == repos[..i];
          if Matches(repos[i].name, charSearch) {
            resultList := resultList + [repos[i]];
          }
        }
        assert repos[..|repos|] == repos;
        filterList := resultList;
      }
      outcome := Results(filterList);
    }

    /** `publishResults`: show exactly the rows the filtering step produced. */
    method PublishResults(values: seq<Repo>)
      modifies this`filterList
      ensures filterList == values
    {
      filterList := values;
    }

    /**
     * `getFilter().filter(constraint)`: filtering then publishing, run as one
     * sequential step. Afterwards the visible list depends only on `repos` and
     * the query, not on what was shown before.
     */
    method ApplyFilter(constraint: Option<string>) returns (ok: bool)
      modifies this`filterList
      ensures ok == reposSet
      ensures !ok ==> filterList == old(filterList)
      ensures ok ==> filterList == Filtered(repos, Query(constraint))
    {
      var outcome := PerformFiltering(constraint);
      ok := outcome.Results?;
      if ok {
        PublishResults(outcome.values);
      }
    }
  }

  /** Running the same filter twice shows the same rows both times. */
  method FilterTwice(adapter: ReposAdapter, constraint: Option<string>)
    returns (first: seq<Repo>, second: seq<Repo>)
    modifies adapter`filterList
    ensures first == second == adapter.filterList
  {
    var _ := adapter.ApplyFilter(constraint);
    first := adapter.filterList;
    var _ := adapter.ApplyFilter(constraint);
    second := adapter.filterList;
  }
}

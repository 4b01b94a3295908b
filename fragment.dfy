/**
 * `MainFragment`: holds the full list `listItems`, hands new lists to the
 * adapter, and runs the click handler that moves the selection highlight.
 * The stored selection position `mPreviousSelectionState` belongs to
 * `MainViewModel`; here it is the field `previousSelection`.
 * Redraw requests (`notifyItemChanged`) are not modelled.
 */
module Fragment {
  import opened Repos
  import opened Adapter
  import opened Selection
  import opened RepoFilter

  /** How a click ends: the row's position in the full list, or the exception the handler throws. */
  datatype ClickOutcome =
    | Selected(index: nat)
    | NotListed  // `listItems.indexOf(it)` is -1, so `listItems[-1]` throws
    | NotLoaded  // `listItems` (a `lateinit` field) has never been assigned

  /** The `isSelected` flags of `items`, position by position. */
  ghost function Flags(items: seq<Repo>): seq<bool>
    reads items
  {
    seq(|items|, i requires 0 <= i < |items| reads items => items[i].isSelected)
  }

  class MainFragment {
    /** The full list last received from the database (`lateinit var listItems`). */
    var listItems: seq<Repo>
    /** Whether `listItems` has been assigned yet. */
    var loaded: bool
    /** `mPreviousSelectionState`: position in `listItems` of the last selected row, -1 for none. */
    var previousSelection: int
    /** `viewModelAdapter`, null until the view is created. */
    var adapter: ReposAdapter?

    /** The stored position is -1 or a position; it is only ever set from a successful `indexOf`. */
    ghost predicate Valid()
      reads this
    {
      previousSelection >= -1
    }

    /** The stored position names the one selected row of `listItems`, or is -1 and none is selected. */
    ghost predicate Tracked()
      reads this, listItems
    {
      TrackedFlags(Flags(listItems), previousSelection)
    }

    constructor (adapter: ReposAdapter?)
      ensures Valid() && !loaded && previousSelection == -1 && this.adapter == adapter
    {
      listItems := [];
      loaded := false;
      previousSelection := -1;
      this.adapter := adapter;
    }

    /**
     * The observer of the cached list: keep the new list and
     * hand it to the adapter if there is one. The stored selection position
     * is left as it was.
     */
    method OnReposChanged(repos: seq<Repo>)
      requires Valid()
      modifies this, adapter
      ensures Valid() && loaded && listItems == repos
      ensures previousSelection == old(previousSelection) && adapter == old(adapter)
      ensures adapter != null ==> adapter.reposSet && adapter.repos == repos && adapter.filterList == repos
    {
      listItems := repos;
      loaded := true;
      if adapter != null {
        adapter.SetItems(repos);
      }
    }

    /**
     * The `ItemClick` handler for a click on row `it`. It clears the
     * stored position when that is not -1 and lies inside `listItems`, then
     * selects the first occurrence of `it` in `listItems` and stores its
     * position. A row that is not in `listItems` makes the handler throw after
     * the clearing step.
     */
    method Click(it: Repo) returns (outcome: ClickOutcome)
      requires Valid()
      modifies this`previousSelection, listItems
      ensures Valid()
      ensures !loaded ==> outcome == NotLoaded && previousSelection == old(previousSelection)
      ensures !loaded ==> forall i :: 0 <= i < |listItems| ==> listItems[i].isSelected == old(listItems[i].isSelected)
      ensures loaded && it !in listItems ==> outcome == NotListed && previousSelection == old(previousSelection)
      ensures loaded && it in listItems ==>
        var k := IndexOf(listItems, it);
        outcome == Selected(k) && previousSelection == k && it.isSelected
      ensures loaded && 0 <= old(previousSelection) < |listItems| && listItems[old(previousSelection)] != it ==>
        !listItems[old(previousSelection)].isSelected
      ensures forall i ::
        (&& 0 <= i < |listItems|
         && listItems[i] != it
         && !(0 <= old(previousSelection) < |listItems| && listItems[i] == listItems[old(previousSelection)]))
        ==> listItems[i].isSelected == old(listItems[i].isSelected)
      ensures loaded && it in listItems && Distinct(listItems) ==>
        Flags(listItems) == ClickFlags(old(Flags(listItems)), old(previousSelection), IndexOf(listItems, it))
    {
      if !loaded {
        return NotLoaded;
      }
      if previousSelection != -1 && previousSelection < |listItems| {
        listItems[previousSelection].isSelected := false;
      }
      var k := IndexOf(listItems, it);
      if k == -1 {
        return NotListed;
      }
      listItems[k].isSelected := true;
      previousSelection := k;
      outcome := Selected(k);
    }
  }

  /**
   * With the stored position accurate and no record listed twice, a click on
   * a listed row leaves exactly that row selected, and the stored position
   * accurate again.
   */
  method ClickKeepsOneSelected(fragment: MainFragment, it: Repo) returns (outcome: ClickOutcome)
    requires fragment.Valid() && fragment.loaded && fragment.Tracked()
    requires Distinct(fragment.listItems) && it in fragment.listItems
    modifies fragment`previousSelection, fragment.listItems
    ensures outcome == Selected(IndexOf(fragment.listItems, it))
    ensures fragment.Valid() && fragment.Tracked()
    ensures CountSelected(Flags(fragment.listItems)) == 1
  {
    ghost var before := Flags(fragment.listItems);
    ghost var prev := fragment.previousSelection;
    outcome := fragment.Click(it);
    ClickKeepsTracked(before, prev, IndexOf(fragment.listItems, it));
  }

  /**
   * A query typed after the cached list has arrived (`onQueryTextChange`
   * after the list observer) always filters: the adapter's full list is
   * assigned, and it shows the matching rows of the new list.
   */
  method SearchAfterLoad(fragment: MainFragment, repos: seq<Repo>, constraint: Option<string>)
    returns (ok: bool)
    requires fragment.Valid() && fragment.adapter != null
    modifies fragment, fragment.adapter
    ensures ok && fragment.listItems == repos
    ensures fragment.adapter != null && fragment.adapter.filterList == Filtered(repos, Query(constraint))
  {
    fragment.OnReposChanged(repos);
    ok := fragment.adapter.ApplyFilter(constraint);
  }
}

/**
 * The cached repository record shown in the list. Rows are shared objects:
 * the fragment's full list, the adapter's `repos` and its `filterList` all
 * hold references to the same records, so setting `isSelected` on one is
 * seen through all of them.
 */
module Repos {

  datatype Option<+T> = None | Some(value: T)

  class Repo {
    /** The display name the search filter matches against. */
    const name: string
    /** The selection highlight, updated in place on a click. */
    var isSelected: bool

    constructor (name: string, isSelected: bool)
      ensures this.name == name && this.isSelected == isSelected
    {
      this.name := name;
      this.isSelected := isSelected;
    }
  }

  /**
   * `List.indexOf`: the first position holding `x`, or -1 when there is none.
   * Records are compared by reference.
   */
  function IndexOf<T(==)>(s: seq<T>, x: T): (i: int)
    ensures x !in s <==> i == -1
    ensures x in s ==> 0 <= i < |s| && s[i] == x && x !in s[..i]
  {
    if s == [] then -1
    else if s[0] == x then 0
    else
      var j := IndexOf(s[1..], x);
      if j == -1 then -1
      else
        assert s[..j + 1] == [s[0]] + s[1..][..j];
        j + 1
  }

  /** No record appears twice in `s`. */
  predicate Distinct<T(==)>(s: seq<T>)
  {
    forall i, j :: 0 <= i < j < |s| ==> s[i] != s[j]
  }
}

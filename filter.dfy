/**
 * The membership rule of the adapter's search filter, and the list it
 * selects, stated as pure functions over the shared `Repo` records.
 */
module RepoFilter {
  import opened KotlinText
  import opened Repos

  /** `constraint.toString()`: a null constraint reads as the text "null". */
  function Query(constraint: Option<string>): (text: string)
    ensures text == "" <==> constraint == Some("")
  {
    match constraint
    case None => "null"
    case Some(text) => text
  }

  /** `name.toLowerCase().contains(query.toLowerCase())`. */
  function Matches(name: string, query: string): (m: bool)
    ensures query == "" ==> m
    ensures m ==> |query| <= |name|
  {
    Contains(ToLower(name), ToLower(query))
  }

  /**
   * The rows of `xs` whose name matches `query`, in their order in `xs`.
   * Defined from the last row backwards, the way a left-to-right loop
   * extends its result.
   */
  function Filtered(xs: seq<Repo>, query: string): (r: seq<Repo>)
    ensures |r| <= |xs|
    ensures forall i :: 0 <= i < |r| ==> r[i] in xs && Matches(r[i].name, query)
    ensures forall i :: 0 <= i < |xs| && Matches(xs[i].name, query) ==> xs[i] in r
    decreases |xs|
  {
    if xs == [] then []
    else
      var last := xs[|xs| - 1];
      Filtered(xs[..|xs| - 1], query) + (if Matches(last.name, query) then [last] else [])
  }

  /** Every name matches the empty query, so filtering by "" keeps the whole list. */
  lemma {:induction false} FilterEmptyQuery(xs: seq<Repo>)
    ensures Filtered(xs, "") == xs
    decreases |xs|
  {
    if xs != [] {
      var last := xs[|xs| - 1];
      FilterEmptyQuery(xs[..|xs| - 1]);
      assert ToLower("") == "";
      assert xs[..|xs| - 1] + [last] == xs;
    }
  }

  /** A query matches regardless of case: "A" is in all three names, "be" only in "beta". */
  lemma MatchesIgnoringCase()
    ensures Matches("Alpha", "A") && Matches("beta", "A") && Matches("gamma", "A")
    ensures Matches("beta", "be") && !Matches("Alpha", "be") && !Matches("gamma", "be")
  {
    assert ToLower("A") == "a" && ToLower("be") == "be";
    assert ToLower("Alpha") == "alpha" && ToLower("beta") == "beta" && ToLower("gamma") == "gamma";
    assert "a" <= "alpha";
    assert "be" <= "beta";
    assert Contains("eta", "a");
    assert Contains("amma", "a");
  }

  /** Filtering a concatenation filters each part. */
  lemma {:induction false} FilterAppend(a: seq<Repo>, b: seq<Repo>, query: string)
    ensures Filtered(a + b, query) == Filtered(a, query) + Filtered(b, query)
    decreases |b|
  {
    if b == [] {
      assert a + b == a;
    } else {
      var last := b[|b| - 1];
      var init := b[..|b| - 1];
      assert (a + b)[..|a + b| - 1] == a + init;
      FilterAppend(a, init, query);
    }
  }

  /** Filtering the filtered list again with the same query changes nothing. */
  lemma {:induction false} FilterIdempotent(xs: seq<Repo>, query: string)
    ensures Filtered(Filtered(xs, query), query) == Filtered(xs, query)
    decreases |xs|
  {
    if xs != [] {
      var last := xs[|xs| - 1];
      var init := xs[..|xs| - 1];
      var tail := if Matches(last.name, query) then [last] else [];
      FilterIdempotent(init, query);
      FilterAppend(Filtered(init, query), tail, query);
      if Matches(last.name, query) {
        assert [last][..0] == [];
      }
    }
  }

  /** The query's case does not matter: lower-casing it first selects the same rows. */
  lemma {:induction false} FilterIgnoresQueryCase(xs: seq<Repo>, query: string)
    ensures Filtered(xs, ToLower(query)) == Filtered(xs, query)
    decreases |xs|
  {
    ToLowerIdempotent(query);
    if xs != [] {
      FilterIgnoresQueryCase(xs[..|xs| - 1], query);
    }
  }

  /**
   * `idx` lists strictly increasing positions of `b` at which the elements
   * of `a` are found, in order: `a` is an order-preserving subsequence of `b`.
   */
  ghost predicate Embeds<T>(a: seq<T>, b: seq<T>, idx: seq<int>)
  {
    && |idx| == |a|
    && (forall j :: 0 <= j < |idx| ==> 0 <= idx[j] < |b| && a[j] == b[idx[j]])
    && (forall j, k :: 0 <= j < k < |idx| ==> idx[j] < idx[k])
  }

  /** The filter result is an order-preserving subsequence of the list it filters. */
  lemma {:induction false} FilterIsSubsequence(xs: seq<Repo>, query: string)
    ensures exists idx :: Embeds(Filtered(xs, query), xs, idx)
    decreases |xs|
  {
    if xs == [] {
      assert Embeds(Filtered(xs, query), xs, []);
    } else {
      var last := xs[|xs| - 1];
      var init := xs[..|xs| - 1];
      FilterIsSubsequence(init, query);
      var idx :| Embeds(Filtered(init, query), init, idx);
      if Matches(last.name, query) {
        assert Embeds(Filtered(xs, query), xs, idx + [|xs| - 1]);
      } else {
        assert Embeds(Filtered(xs, query), xs, idx);
      }
    }
  }
}

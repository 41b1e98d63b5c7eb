/**
 * Autocomplete by a linear scan over the terms sorted by query: skip to the
 * first matching term, then extend the block of matches as far as it goes.
 */
module LinearRanges {
  import opened Wrappers
  import opened Terms
  import opened Autocomplete

  class LinearRangeSearch {
    /** The stored copy of the terms, in the natural order. */
    const terms: seq<Term>

    ghost predicate Valid()
    {
      Sorted(ByQuery, terms)
    }

    /** Stores a sorted copy of already validated terms. */
    constructor (input: seq<Term>)
      ensures Valid()
      ensures terms == Sort(ByQuery, input)
    {
      terms := Sort(ByQuery, input);
    }

    /**
     * `allMatches` as written: the scan reads the first term before it
     * compares the position with the end, so with no terms at all it fails
     * with an index out of bounds instead of answering `null`.  With at least
     * one term it answers like the binary search.
     */
    method AllMatches(prefix: Option<string>) returns (r: Result<Option<seq<Term>>, SearchError>)
      requires Valid()
      ensures prefix.None? ==> r == Failure(NullPrefix)
      ensures prefix.Some? && |terms| == 0 ==> r == Failure(IndexOutOfBounds)
      ensures prefix.Some? && |terms| > 0 ==> r == Success(MatchesByWeight(terms, prefix.value))
    {
      if prefix.None? {
        return Failure(NullPrefix);
      }
      var p := prefix.value;
      var first := 0;
      var end := |terms|;
      if first >= end {
        // `terms[first]` is out of bounds.
        return Failure(IndexOutOfBounds);
      }
      while PrefixCompare(terms[first], p) != 0
        invariant 0 <= first < end == |terms|
        invariant forall k :: 0 <= k < first ==> !Matches(terms[k], p)
        decreases end - first
      {
        first := first + 1;
        if first == end {
          return Success(None);
        }
      }
      var m := Block(p, first);
      r := Success(m);
    }

    /**
     * `allMatches` with the bounds check first: `null` for an empty array, as
     * for any other array without a match.
     */
    method AllMatchesChecked(prefix: Option<string>) returns (r: Result<Option<seq<Term>>, SearchError>)
      requires Valid()
      ensures prefix.None? ==> r == Failure(NullPrefix)
      ensures prefix.Some? ==> r == Success(MatchesByWeight(terms, prefix.value))
    {
      if prefix.None? {
        return Failure(NullPrefix);
      }
      var p := prefix.value;
      var first := 0;
      var end := |terms|;
      while first < end && PrefixCompare(terms[first], p) != 0
        invariant 0 <= first <= end == |terms|
        invariant forall k :: 0 <= k < first ==> !Matches(terms[k], p)
        decreases end - first
      {
        first := first + 1;
      }
      if first == end {
        return Success(None);
      }
      var m := Block(p, first);
      r := Success(m);
    }

    /**
     * The second scan, from the first match: extends the block while the
     * terms match, then sorts it heaviest first.  The block holds every match.
     */
    method Block(p: string, first: int) returns (m: Option<seq<Term>>)
      requires Valid() && 0 <= first < |terms| && Matches(terms[first], p)
      requires forall k :: 0 <= k < first ==> !Matches(terms[k], p)
      ensures m == MatchesByWeight(terms, p)
    {
      var end := |terms|;
      var last := first + 1;
      while last < end && PrefixCompare(terms[last], p) == 0
        invariant first < last <= end
        invariant forall k :: first <= k < last ==> Matches(terms[k], p)
        decreases end - last
      {
        last := last + 1;
      }
      forall k | last <= k < end
        ensures !Matches(terms[k], p)
      {
        SortedPrefixCompare(terms, p, first, last);
        SortedPrefixCompare(terms, p, last, k);
      }
      FilterOfRun(terms, p, first, last);
      assert terms[first] in Filter(terms, p);
      m := Some(Sort(ByReverseWeight, terms[first..last]));
    }
  }

  /**
   * The constructor: validates the terms (a missing array or element is
   * refused) and stores a sorted copy.
   */
  method NewLinearRangeSearch(input: Option<seq<Option<Term>>>) returns (r: Result<LinearRangeSearch, SearchError>)
    ensures r.Success? <==> input.Some? && NoNulls(input.value)
    ensures input.None? ==> r == Failure(NullTerms)
    ensures r.Success? ==> fresh(r.value) && r.value.Valid() && r.value.terms == Sort(ByQuery, Unwrap(input.value))
  {
    var valid := ValidateTerms(input);
    if valid.Failure? {
      return Failure(valid.error);
    }
    var search := new LinearRangeSearch(valid.value);
    return Success(search);
  }
}

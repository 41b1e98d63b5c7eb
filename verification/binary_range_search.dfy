/**
 * Autocomplete by binary search: the terms are kept sorted by query, so the
 * terms matching a prefix form one contiguous block; a binary search finds
 * one of them and two more searches find the ends of the block.
 */
module BinaryRanges {
  import opened Wrappers
  import opened Terms
  import opened Autocomplete

  class BinaryRangeSearch {
    /** The stored copy of the terms, in the natural order. */
    const terms: seq<Term>

    ghost predicate Valid()
    {
      Sorted(ByQuery, terms)
    }

    /** Stores a sorted copy of already validated terms. */
    constructor (input: seq<Term>)
      ensures Valid()
      ensures terms == Sort(ByQuery, input)
    {
      terms := Sort(ByQuery, input);
    }

    /**
     * `matchesFirst`: the first position in `low..high+1` whose term is not
     * below the prefix.
     */
    function MatchesFirst(prefix: string, low: int, high: int): (i: int)
      requires Valid() && 0 <= low <= high + 1 <= |terms|
      ensures low <= i <= high + 1
      ensures forall k :: low <= k < i ==> PrefixCompare(terms[k], prefix) < 0
      ensures forall k :: i <= k <= high ==> PrefixCompare(terms[k], prefix) >= 0
      decreases high - low + 1
    {
      if low > high || PrefixCompare(terms[high], prefix) < 0 then
        assert forall k :: low <= k <= high ==> PrefixCompare(terms[k], prefix) < 0 by {
          forall k | low <= k <= high {
            SortedPrefixCompare(terms, prefix, k, high);
          }
        }
        high + 1
      else
        var mid := (low + high) / 2;
        if PrefixCompare(terms[mid], prefix) < 0 then
          assert forall k :: low <= k <= mid ==> PrefixCompare(terms[k], prefix) < 0 by {
            forall k | low <= k <= mid {
              SortedPrefixCompare(terms, prefix, k, mid);
            }
          }
          MatchesFirst(prefix, mid + 1, high)
        else
          assert forall k :: mid <= k <= high ==> PrefixCompare(terms[k], prefix) >= 0 by {
            forall k | mid <= k <= high {
              SortedPrefixCompare(terms, prefix, mid, k);
            }
          }
          MatchesFirst(prefix, low, mid - 1)
    }

    /**
     * `matchesLast`: the first position in `low..high+1` whose term is above
     * the prefix.
     */
    function MatchesLast(prefix: string, low: int, high: int): (i: int)
      requires Valid() && 0 <= low <= high + 1 <= |terms|
      ensures low <= i <= high + 1
      ensures forall k :: low <= k < i ==> PrefixCompare(terms[k], prefix) <= 0
      ensures forall k :: i <= k <= high ==> PrefixCompare(terms[k], prefix) > 0
      decreases high - low + 1
    {
      if low > high then
        high + 1
      else if PrefixCompare(terms[low], prefix) > 0 then
        assert forall k :: low <= k <= high ==> PrefixCompare(terms[k], prefix) > 0 by {
          forall k | low <= k <= high {
            SortedPrefixCompare(terms, prefix, low, k);
          }
        }
        low
      else
        var mid := (low + high) / 2;
        if PrefixCompare(terms[mid], prefix) > 0 then
          assert forall k :: mid <= k <= high ==> PrefixCompare(terms[k], prefix) > 0 by {
            forall k | mid <= k <= high {
              SortedPrefixCompare(terms, prefix, mid, k);
            }
          }
          MatchesLast(prefix, low, mid - 1)
        else
          assert forall k :: low <= k <= mid ==> PrefixCompare(terms[k], prefix) <= 0 by {
            forall k | low <= k <= mid {
              SortedPrefixCompare(terms, prefix, k, mid);
            }
          }
          MatchesLast(prefix, mid + 1, high)
    }

    /**
     * `allMatches`: refuses a missing prefix; otherwise `null` when no term
     * starts with the prefix, or else all the terms that do, heaviest first.
     */
    method AllMatches(prefix: Option<string>) returns (r: Result<Option<seq<Term>>, SearchError>)
      requires Valid()
      ensures prefix.None? ==> r == Failure(NullPrefix)
      ensures prefix.Some? ==> r == Success(MatchesByWeight(terms, prefix.value))
    {
      if prefix.None? {
        return Failure(NullPrefix);
      }
      var p := prefix.value;
      var low := 0;
      var high := |terms| - 1;
      while low <= high
        invariant 0 <= low <= high + 1 <= |terms|
        invariant forall k :: 0 <= k < low ==> PrefixCompare(terms[k], p) < 0
        invariant forall k :: high < k < |terms| ==> PrefixCompare(terms[k], p) > 0
        decreases high - low
      {
        var mid := (low + high) / 2;
        if PrefixCompare(terms[mid], p) < 0 {
          forall k | low <= k <= mid
            ensures PrefixCompare(terms[k], p) < 0
          {
            SortedPrefixCompare(terms, p, k, mid);
          }
          low := mid + 1;
        } else if PrefixCompare(terms[mid], p) > 0 {
          forall k | mid <= k <= high
            ensures PrefixCompare(terms[k], p) > 0
          {
            SortedPrefixCompare(terms, p, mid, k);
          }
          high := mid - 1;
        } else {
          var first := MatchesFirst(p, low, mid - 1);
          var last := MatchesLast(p, mid + 1, high);
          forall k | 0 <= k < |terms|
            ensures Matches(terms[k], p) <==> first <= k < last
          {
            if k <= mid {
              SortedPrefixCompare(terms, p, k, mid);
            } else {
              SortedPrefixCompare(terms, p, mid, k);
            }
          }
          FilterOfRun(terms, p, first, last);
          assert terms[mid] in Filter(terms, p);
          return Success(Some(Sort(ByReverseWeight, terms[first..last])));
        }
      }
      return Success(None);
    }
  }

  /**
   * The constructor: validates the terms (a missing array or element is
   * refused) and stores a sorted copy.
   */
  method NewBinaryRangeSearch(input: Option<seq<Option<Term>>>) returns (r: Result<BinaryRangeSearch, SearchError>)
    ensures r.Success? <==> input.Some? && NoNulls(input.value)
    ensures input.None? ==> r == Failure(NullTerms)
    ensures r.Success? ==> fresh(r.value) && r.value.Valid() && r.value.terms == Sort(ByQuery, Unwrap(input.value))
  {
    var valid := ValidateTerms(input);
    if valid.Failure? {
      return Failure(valid.error);
    }
    var search := new BinaryRangeSearch(valid.value);
    return Success(search);
  }
}

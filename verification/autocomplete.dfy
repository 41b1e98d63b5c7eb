/**
 * What both autocomplete implementations share: the orders terms are sorted
 * by (`Arrays.sort`, a stable sort, with `Term`'s natural order or with
 * `TermComparators.byReverseWeightOrder`), what it means for a term to
 * match a prefix, the answer `allMatches` must give, and the validation of
 * the term array both constructors perform.
 */
module Autocomplete {
  import opened Wrappers
  import opened Terms

  /** The `IllegalArgumentException`s of the constructors and of `allMatches`, and the array access that fails on no terms. */
  datatype SearchError = NullTerms | NullTerm | NullPrefix | IndexOutOfBounds

  // ---------------------------------------------------------------------
  // Sorting
  // ---------------------------------------------------------------------

  /** `Term`'s natural order (by query), or descending weight. */
  datatype Order = ByQuery | ByReverseWeight

  function Compare(o: Order, a: Term, b: Term): int
  {
    match o
    case ByQuery => CompareTo(a, b)
    case ByReverseWeight => CompareToByReverseWeightOrder(a, b)
  }

  /** Either order is total ... */
  lemma CompareTotal(o: Order, a: Term, b: Term)
    ensures Compare(o, a, b) > 0 ==> Compare(o, b, a) < 0
  {
  }

  /** ... and transitive. */
  lemma CompareTransitive(o: Order, a: Term, b: Term, c: Term)
    requires Compare(o, a, b) <= 0 && Compare(o, b, c) <= 0
    ensures Compare(o, a, c) <= 0
  {
    if o == ByQuery {
      CompareStringsTransitive(a.query, b.query, c.query);
    }
  }

  ghost predicate Sorted(o: Order, s: seq<Term>)
  {
    forall i, j :: 0 <= i < j < |s| ==> Compare(o, s[i], s[j]) <= 0
  }

  /** `x` placed before the first element it does not come after. */
  function Insert(o: Order, x: Term, s: seq<Term>): (r: seq<Term>)
    ensures multiset(r) == multiset(s) + multiset{x}
  {
    if s == [] then [x]
    else if Compare(o, x, s[0]) <= 0 then [x] + s
    else
      assert s == [s[0]] + s[1..];
      [s[0]] + Insert(o, x, s[1..])
  }

  /** A head that comes before every element of a sorted tail keeps it sorted. */
  lemma SortedCons(o: Order, h: Term, t: seq<Term>)
    requires Sorted(o, t) && forall j :: 0 <= j < |t| ==> Compare(o, h, t[j]) <= 0
    ensures Sorted(o, [h] + t)
  {
    var r := [h] + t;
    forall i, j | 0 <= i < j < |r|
      ensures Compare(o, r[i], r[j]) <= 0
    {
      assert r[j] == t[j - 1];
      if i > 0 {
        assert r[i] == t[i - 1];
      }
    }
  }

  /** Inserting into a sorted sequence keeps it sorted. */
  lemma {:induction false} InsertSorted(o: Order, x: Term, s: seq<Term>)
    requires Sorted(o, s)
    ensures Sorted(o, Insert(o, x, s))
  {
    if s == [] {
    } else if Compare(o, x, s[0]) <= 0 {
      forall j | 0 <= j < |s|
        ensures Compare(o, x, s[j]) <= 0
      {
        if j > 0 {
          CompareTransitive(o, x, s[0], s[j]);
        }
      }
      SortedCons(o, x, s);
    } else {
      var rest := s[1..];
      assert Sorted(o, rest) by {
        forall i, j | 0 <= i < j < |rest|
          ensures Compare(o, rest[i], rest[j]) <= 0
        {
          assert rest[i] == s[i + 1] && rest[j] == s[j + 1];
        }
      }
      InsertSorted(o, x, rest);
      CompareTotal(o, x, s[0]);
      var tail := Insert(o, x, rest);
      forall j | 0 <= j < |tail|
        ensures Compare(o, s[0], tail[j]) <= 0
      {
        assert tail[j] in multiset(tail);
        if tail[j] != x {
          assert tail[j] in multiset(rest);
          var k :| 0 <= k < |rest| && rest[k] == tail[j];
          assert s[k + 1] == tail[j];
        }
      }
      SortedCons(o, s[0], tail);
    }
  }


  /** The model of `Arrays.sort`: an insertion sort, stable like the library's. */
  function Sort(o: Order, s: seq<Term>): (r: seq<Term>)
    ensures Sorted(o, r)
    ensures multiset(r) == multiset(s)
  {
    if s == [] then []
    else
      assert s == [s[0]] + s[1..];
      InsertSorted(o, s[0], Sort(o, s[1..]));
      Insert(o, s[0], Sort(o, s[1..]))
  }

  /** Two terms tie under `o` when they have the same query (the same weight). */
  predicate Tie(o: Order, a: Term, b: Term)
  {
    match o
    case ByQuery => a.query == b.query
    case ByReverseWeight => a.weight == b.weight
  }

  /** Terms tie exactly when the order compares them equal. */
  lemma CompareTie(o: Order, a: Term, b: Term)
    ensures Compare(o, a, b) == 0 <==> Tie(o, a, b)
  {
  }

  /** The terms of `s` that tie with `e` under `o`, in their order in `s`. */
  function Ties(o: Order, s: seq<Term>, e: Term): seq<Term>
  {
    if s == [] then [] else (if Tie(o, s[0], e) then [s[0]] else []) + Ties(o, s[1..], e)
  }

  /** The ties of a sequence with a head are the head's, then the tail's. */
  lemma TiesCons(o: Order, h: Term, t: seq<Term>, e: Term)
    ensures Ties(o, [h] + t, e) == Ties(o, [h], e) + Ties(o, t, e)
  {
    var r := [h] + t;
    assert r[0] == h && r[1..] == t;
    assert [h][1..] == [];
  }

  /** Inserting `x` puts it before every term it ties with. */
  lemma {:induction false} InsertTies(o: Order, x: Term, s: seq<Term>, e: Term)
    ensures Ties(o, Insert(o, x, s), e) == Ties(o, [x], e) + Ties(o, s, e)
  {
    if s == [] {
      assert Insert(o, x, s) == [x];
    } else if Compare(o, x, s[0]) <= 0 {
      assert Insert(o, x, s) == [x] + s;
      TiesCons(o, x, s, e);
    } else {
      assert s == [s[0]] + s[1..];
      InsertTies(o, x, s[1..], e);
      CompareTie(o, x, s[0]);
      TiesPassOver(o, x, s[0], s[1..], Insert(o, x, s[1..]), e);
    }
  }

  /**
   * Passing over a head `h` it does not tie with, `x` still comes before
   * the terms it ties with.
   */
  lemma TiesPassOver(o: Order, x: Term, h: Term, t: seq<Term>, rest: seq<Term>, e: Term)
    requires !Tie(o, x, h)
    requires Ties(o, rest, e) == Ties(o, [x], e) + Ties(o, t, e)
    ensures Ties(o, [h] + rest, e) == Ties(o, [x], e) + Ties(o, [h] + t, e)
  {
    TiesCons(o, h, rest, e);
    TiesCons(o, h, t, e);
    TiesSingle(o, h, e);
    TiesSingle(o, x, e);
    if Tie(o, h, e) {
      assert !Tie(o, x, e);
      assert Ties(o, [x], e) + Ties(o, t, e) == Ties(o, t, e);
    } else {
      assert Ties(o, [h], e) == [];
    }
  }

  /** A single term ties with `e` or is filtered out. */
  lemma TiesSingle(o: Order, x: Term, e: Term)
    ensures Ties(o, [x], e) == if Tie(o, x, e) then [x] else []
  {
    assert [x][1..] == [];
  }

  /**
   * `Sort` is stable: the terms that tie with any `e` keep, in the sorted
   * sequence, the order they had.
   */
  lemma {:induction false} SortStable(o: Order, s: seq<Term>, e: Term)
    ensures Ties(o, Sort(o, s), e) == Ties(o, s, e)
  {
    if s != [] {
      SortStable(o, s[1..], e);
      InsertTies(o, s[0], Sort(o, s[1..]), e);
    }
  }

  // ---------------------------------------------------------------------
  // Matching a prefix
  // ---------------------------------------------------------------------

  /** `terms[i].queryPrefix(prefix.length()).compareTo(prefix)`, as both searches compute it. */
  function PrefixCompare(t: Term, prefix: string): int
  {
    CompareStrings(QueryPrefix(t, |prefix|).value, prefix)
  }

  predicate Matches(t: Term, prefix: string)
  {
    PrefixCompare(t, prefix) == 0
  }

  /** A term matches a prefix exactly when its query starts with the prefix. */
  lemma MatchesMeaning(t: Term, prefix: string)
    ensures Matches(t, prefix) <==> prefix <= t.query
  {
    CompareStringsZero(QueryPrefix(t, |prefix|).value, prefix);
  }

  /** Cutting two ordered strings to the same length keeps them ordered. */
  lemma {:induction false} PrefixMonotone(a: string, b: string, r: nat)
    requires CompareStrings(a, b) <= 0
    ensures CompareStrings(a[..Min(r, |a|)], b[..Min(r, |b|)]) <= 0
    decreases r
  {
    var pa, pb := a[..Min(r, |a|)], b[..Min(r, |b|)];
    if r == 0 || |a| == 0 || |b| == 0 {
    } else if a[0] != b[0] {
      assert pa[0] == a[0] && pb[0] == b[0];
    } else {
      PrefixMonotone(a[1..], b[1..], r - 1);
      assert pa[1..] == a[1..][..Min(r - 1, |a| - 1)];
      assert pb[1..] == b[1..][..Min(r - 1, |b| - 1)];
    }
  }

  /**
   * Along the natural order, terms below the prefix come before matching
   * ones, and matching ones before those above it.
   */
  lemma PrefixCompareMonotone(a: Term, b: Term, prefix: string)
    requires CompareTo(a, b) <= 0
    ensures PrefixCompare(b, prefix) < 0 ==> PrefixCompare(a, prefix) < 0
    ensures PrefixCompare(a, prefix) > 0 ==> PrefixCompare(b, prefix) > 0
  {
    var r := |prefix|;
    var pa, pb := QueryPrefix(a, r).value, QueryPrefix(b, r).value;
    PrefixMonotone(a.query, b.query, r);
    assert pa == a.query[..Min(r, |a.query|)] && pb == b.query[..Min(r, |b.query|)];
    if PrefixCompare(b, prefix) < 0 {
      CompareStringsStrict(pa, pb, prefix);
    }
    if PrefixCompare(b, prefix) <= 0 {
      CompareStringsTransitive(pa, pb, prefix);
    }
  }

  /** The same, for two positions of a sorted sequence. */
  lemma SortedPrefixCompare(s: seq<Term>, prefix: string, i: int, j: int)
    requires Sorted(ByQuery, s) && 0 <= i <= j < |s|
    ensures PrefixCompare(s[j], prefix) < 0 ==> PrefixCompare(s[i], prefix) < 0
    ensures PrefixCompare(s[i], prefix) > 0 ==> PrefixCompare(s[j], prefix) > 0
  {
    if i < j {
      PrefixCompareMonotone(s[i], s[j], prefix);
    }
  }

  /** The terms of `s` that match `prefix`, in order. */
  function Filter(s: seq<Term>, prefix: string): (r: seq<Term>)
    ensures forall t :: t in r <==> t in s && Matches(t, prefix)
    ensures |r| <= |s|
  {
    if s == [] then []
    else if Matches(s[0], prefix) then [s[0]] + Filter(s[1..], prefix)
    else Filter(s[1..], prefix)
  }

  /**
   * What `allMatches` returns for a prefix: `null` when no term matches,
   * otherwise every matching term, heaviest first.
   */
  function MatchesByWeight(terms: seq<Term>, prefix: string): (r: Option<seq<Term>>)
    ensures r.None? <==> forall t :: t in terms ==> !Matches(t, prefix)
    ensures r.Some? ==> Sorted(ByReverseWeight, r.value) && multiset(r.value) == multiset(Filter(terms, prefix))
  {
    var m := Filter(terms, prefix);
    if |m| == 0 then
      None
    else
      assert m[0] in m;
      Some(Sort(ByReverseWeight, m))
  }

  /** Filtering distributes over concatenation. */
  lemma {:induction false} FilterAppend(a: seq<Term>, b: seq<Term>, prefix: string)
    ensures Filter(a + b, prefix) == Filter(a, prefix) + Filter(b, prefix)
    decreases |a|
  {
    if a == [] {
      assert a + b == b;
    } else {
      assert (a + b)[0] == a[0] && (a + b)[1..] == a[1..] + b;
      FilterAppend(a[1..], b, prefix);
      if Matches(a[0], prefix) {
        assert Filter(a + b, prefix) == [a[0]] + Filter(a[1..] + b, prefix);
        assert Filter(a, prefix) == [a[0]] + Filter(a[1..], prefix);
      } else {
        assert Filter(a + b, prefix) == Filter(a[1..] + b, prefix);
      }
    }
  }

  /** Filtering keeps a slice of matches whole. */
  lemma {:induction false} FilterAll(s: seq<Term>, prefix: string, lo: int, hi: int)
    requires 0 <= lo <= hi <= |s|
    requires forall k :: lo <= k < hi ==> Matches(s[k], prefix)
    ensures Filter(s[lo..hi], prefix) == s[lo..hi]
    decreases hi - lo
  {
    if lo < hi {
      assert s[lo..hi][0] == s[lo] && s[lo..hi][1..] == s[lo + 1..hi];
      FilterAll(s, prefix, lo + 1, hi);
    }
  }

  /** Filtering empties a slice without matches. */
  lemma {:induction false} FilterNone(s: seq<Term>, prefix: string, lo: int, hi: int)
    requires 0 <= lo <= hi <= |s|
    requires forall k :: lo <= k < hi ==> !Matches(s[k], prefix)
    ensures Filter(s[lo..hi], prefix) == []
    decreases hi - lo
  {
    if lo < hi {
      assert s[lo..hi][0] == s[lo] && s[lo..hi][1..] == s[lo + 1..hi];
      FilterNone(s, prefix, lo + 1, hi);
    }
  }

  /** When the matches are exactly the positions `first..last-1`, they are that slice. */
  lemma FilterOfRun(s: seq<Term>, prefix: string, first: int, last: int)
    requires 0 <= first <= last <= |s|
    requires forall k :: 0 <= k < |s| ==> (Matches(s[k], prefix) <==> first <= k < last)
    ensures Filter(s, prefix) == s[first..last]
  {
    assert s == s[0..first] + s[first..last] + s[last..|s|];
    FilterAppend(s[0..first] + s[first..last], s[last..|s|], prefix);
    FilterAppend(s[0..first], s[first..last], prefix);
    FilterNone(s, prefix, 0, first);
    FilterAll(s, prefix, first, last);
    FilterNone(s, prefix, last, |s|);
  }

  // ---------------------------------------------------------------------
  // Validating the term array
  // ---------------------------------------------------------------------

  predicate NoNulls(input: seq<Option<Term>>)
  {
    forall i :: 0 <= i < |input| ==> input[i].Some?
  }

  function Unwrap(input: seq<Option<Term>>): (r: seq<Term>)
    requires NoNulls(input)
    ensures |r| == |input| && forall i :: 0 <= i < |r| ==> input[i] == Some(r[i])
  {
    if input == [] then [] else [input[0].value] + Unwrap(input[1..])
  }

  /**
   * The constructors' checks: a missing (`null`) array is refused, then any
   * missing element; otherwise the terms, in the order given.
   */
  method ValidateTerms(input: Option<seq<Option<Term>>>) returns (r: Result<seq<Term>, SearchError>)
    ensures input.None? ==> r == Failure(NullTerms)
    ensures input.Some? && !NoNulls(input.value) ==> r == Failure(NullTerm)
    ensures input.Some? && NoNulls(input.value) ==> r == Success(Unwrap(input.value))
  {
    if input.None? {
      return Failure(NullTerms);
    }
    var terms := input.value;
    var i := 0;
    while i < |terms|
      invariant 0 <= i <= |terms|
      invariant forall k :: 0 <= k < i ==> terms[k].Some?
    {
      if terms[i].None? {
        return Failure(NullTerm);
      }
      i := i + 1;
    }
    return Success(Unwrap(terms));
  }
}

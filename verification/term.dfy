/**
 * Autocomplete terms: a query string with a non-negative weight, and the
 * three orders terms are compared by.  String comparison follows Java's
 * `String.compareTo`: the difference of the first differing characters,
 * or else the difference of the lengths.
 */
module Terms {
  import opened Wrappers

  datatype Term = Term(query: string, weight: nat)

  /** The `IllegalArgumentException`s the term operations throw. */
  datatype TermError = NullQuery | NegativeWeight | NegativeLength

  /**
   * The constructor: a missing (`null`) query is refused first, then a
   * negative weight; otherwise the term holds both.
   */
  function NewTerm(query: Option<string>, weight: int): (r: Result<Term, TermError>)
    ensures r.Success? <==> query.Some? && weight >= 0
    ensures r.Success? ==> r.value.query == query.value && r.value.weight == weight
    ensures query.None? ==> r == Failure(NullQuery)
  {
    if query.None? then Failure(NullQuery)
    else if weight < 0 then Failure(NegativeWeight)
    else Success(Term(query.value, weight))
  }

  // ---------------------------------------------------------------------
  // String comparison
  // ---------------------------------------------------------------------

  /** `String.compareTo`. */
  function CompareStrings(a: string, b: string): int
  {
    if |a| == 0 || |b| == 0 then |a| - |b|
    else if a[0] != b[0] then a[0] as int - b[0] as int
    else CompareStrings(a[1..], b[1..])
  }

  /**
   * Lexicographic order, defined directly: `a` is a proper prefix of `b`,
   * or at the first position where they differ `a` has the smaller character.
   */
  ghost predicate LexBefore(a: string, b: string)
  {
    (|a| < |b| && a == b[..|a|]) ||
    exists k :: 0 <= k < |a| && k < |b| && a[..k] == b[..k] && a[k] < b[k]
  }

  /** `compareTo` is zero exactly on equal strings. */
  lemma {:induction false} CompareStringsZero(a: string, b: string)
    ensures CompareStrings(a, b) == 0 <==> a == b
    decreases |a|
  {
    if |a| > 0 && |b| > 0 && a[0] == b[0] {
      CompareStringsZero(a[1..], b[1..]);
      assert a == [a[0]] + a[1..] && b == [b[0]] + b[1..];
    }
  }

  /** `compareTo` is negative exactly when the first string comes first lexicographically. */
  lemma {:induction false} CompareStringsMeaning(a: string, b: string)
    ensures CompareStrings(a, b) < 0 <==> LexBefore(a, b)
    decreases |a|
  {
    if |a| == 0 || |b| == 0 {
      if |a| == 0 && |b| > 0 {
        assert a == b[..|a|];
      }
    } else if a[0] != b[0] {
      if a[0] < b[0] {
        assert a[..0] == b[..0];
      }
    } else {
      CompareStringsMeaning(a[1..], b[1..]);
      if LexBefore(a[1..], b[1..]) {
        LexBeforeCons(a, b);
      }
      if LexBefore(a, b) {
        LexBeforeTail(a, b);
      }
    }
  }

  lemma LexBeforeCons(a: string, b: string)
    requires |a| > 0 && |b| > 0 && a[0] == b[0] && LexBefore(a[1..], b[1..])
    ensures LexBefore(a, b)
  {
    var a', b' := a[1..], b[1..];
    if |a'| < |b'| && a' == b'[..|a'|] {
      assert a == [a[0]] + a' && b[..|a|] == [b[0]] + b'[..|a'|];
    } else {
      var k :| 0 <= k < |a'| && k < |b'| && a'[..k] == b'[..k] && a'[k] < b'[k];
      assert a[..k + 1] == [a[0]] + a'[..k] && b[..k + 1] == [b[0]] + b'[..k];
      assert a[k + 1] < b[k + 1];
    }
  }

  lemma LexBeforeTail(a: string, b: string)
    requires |a| > 0 && |b| > 0 && a[0] == b[0] && LexBefore(a, b)
    ensures LexBefore(a[1..], b[1..])
  {
    var a', b' := a[1..], b[1..];
    if |a| < |b| && a == b[..|a|] {
      assert a' == b'[..|a'|];
    } else {
      var k :| 0 <= k < |a| && k < |b| && a[..k] == b[..k] && a[k] < b[k];
      assert k != 0;
      assert a'[..k - 1] == a[..k][1..] && b'[..k - 1] == b[..k][1..];
      assert a'[k - 1] < b'[k - 1];
    }
  }

  /** Swapping the arguments negates the comparison. */
  lemma {:induction false} CompareStringsAntisymmetric(a: string, b: string)
    ensures CompareStrings(a, b) == -CompareStrings(b, a)
    decreases |a|
  {
    if |a| > 0 && |b| > 0 && a[0] == b[0] {
      CompareStringsAntisymmetric(a[1..], b[1..]);
    }
  }

  /** Comparison is transitive. */
  lemma {:induction false} CompareStringsTransitive(a: string, b: string, c: string)
    requires CompareStrings(a, b) <= 0 && CompareStrings(b, c) <= 0
    ensures CompareStrings(a, c) <= 0
    decreases |a|
  {
    if |a| > 0 && |b| > 0 && |c| > 0 && a[0] == b[0] && b[0] == c[0] {
      CompareStringsTransitive(a[1..], b[1..], c[1..]);
    }
  }

  /** Transitivity through one strict comparison stays strict. */
  lemma CompareStringsStrict(a: string, b: string, c: string)
    requires CompareStrings(a, b) <= 0 && CompareStrings(b, c) <= 0
    requires CompareStrings(a, b) < 0 || CompareStrings(b, c) < 0
    ensures CompareStrings(a, c) < 0
  {
    CompareStringsTransitive(a, b, c);
    CompareStringsZero(a, c);
    if a == c {
      CompareStringsAntisymmetric(a, b);
    }
  }

  // ---------------------------------------------------------------------
  // The term operations
  // ---------------------------------------------------------------------

  /** `compareTo`: the terms in lexicographic order of their queries. */
  function CompareTo(t: Term, that: Term): (c: int)
    ensures c == -CompareStrings(that.query, t.query)
    ensures c < 0 <==> LexBefore(t.query, that.query)
    ensures c == 0 <==> t.query == that.query
  {
    CompareStringsAntisymmetric(t.query, that.query);
    CompareStringsMeaning(t.query, that.query);
    CompareStringsZero(t.query, that.query);
    CompareStrings(t.query, that.query)
  }

  /** `compareToByReverseWeightOrder`: the heavier term comes first. */
  function CompareToByReverseWeightOrder(t: Term, that: Term): (c: int)
    ensures c < 0 <==> t.weight > that.weight
    ensures c == 0 <==> t.weight == that.weight
    ensures c > 0 <==> t.weight < that.weight
  {
    if t.weight > that.weight then -1
    else if t.weight < that.weight then 1
    else 0
  }

  function Min(a: int, b: int): int
  {
    if a < b then a else b
  }

  /**
   * `queryPrefix`: the first `r` characters of the query, or the whole query
   * when it is shorter; a negative `r` is refused.
   */
  function QueryPrefix(t: Term, r: int): (p: Result<string, TermError>)
    ensures p.Success? <==> r >= 0
    ensures p.Success? ==> |p.value| == Min(r, |t.query|) && p.value <= t.query
  {
    if r < 0 then Failure(NegativeLength)
    else
      var n := if r > |t.query| then |t.query| else r;
      Success(t.query[..n])
  }

  /**
   * `compareToByPrefixOrder`: compares only the first `r` characters, with
   * `r` cut down to the shorter query; a negative `r` is refused.  Zero means
   * the queries agree on those characters.
   */
  function CompareToByPrefixOrder(t: Term, that: Term, r: int): (c: Result<int, TermError>)
    ensures c.Success? <==> r >= 0
    ensures c.Success? ==>
      var n := Min(r, Min(|t.query|, |that.query|));
      (c.value == 0 <==> t.query[..n] == that.query[..n]) &&
      (c.value < 0 <==> LexBefore(t.query[..n], that.query[..n]))
  {
    if r < 0 then Failure(NegativeLength)
    else
      var n1 := if r > |t.query| then |t.query| else r;
      var n := if n1 > |that.query| then |that.query| else n1;
      CompareStringsMeaning(t.query[..n], that.query[..n]);
      CompareStringsZero(t.query[..n], that.query[..n]);
      Success(CompareStrings(t.query[..n], that.query[..n]))
  }

  /** `equals`: same query and same weight. */
  predicate Equals(t: Term, that: Term)
    ensures Equals(t, that) <==> t == that
  {
    t.weight == that.weight && t.query == that.query
  }
}

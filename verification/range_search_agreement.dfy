/**
 * The two autocomplete implementations built over the same terms give the
 * same answers, except that the linear scan fails on an empty term array
 * where the binary search answers `null`.
 */
module RangeSearchAgreement {
  import opened Wrappers
  import opened Terms
  import opened Autocomplete
  import opened BinaryRanges
  import opened LinearRanges

  method SearchesAgree(input: seq<Term>, prefix: Option<string>)
    returns (binary: Result<Option<seq<Term>>, SearchError>, linear: Result<Option<seq<Term>>, SearchError>)
    ensures |input| > 0 || prefix.None? ==> linear == binary
    ensures |input| == 0 && prefix.Some? ==> binary == Success(None) && linear == Failure(IndexOutOfBounds)
  {
    var b := new BinaryRangeSearch(input);
    var l := new LinearRangeSearch(input);
    assert |b.terms| == |multiset(b.terms)| == |multiset(input)| == |input|;
    binary := b.AllMatches(prefix);
    linear := l.AllMatches(prefix);
  }
}

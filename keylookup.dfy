/** db/main.go: a SELECT that names one string key as `key='…'` and returns
    the value GET gives for it. The key is the text after the first `key='`
    up to the next quote; when the query has no `key='` at all, the search
    for the closing quote starts at position 4 instead. */
module KeyLookup {
  import opened GoStrings
  import opened Store
  import opened Results
  import opened Clauses

  /** The marker in front of the key. */
  const Marker: string := "key='"

  /** `strings.Index(query, "key='") + len("key='")`: the first position of the
      key, or 4 when the marker is missing (-1 + 5). */
  function KeyStart(q: string): (start: int)
    ensures start >= 4
    ensures start == 4 <==> !Contains(q, Marker)
    ensures Contains(q, Marker) ==> At(q, Marker, start - 5) && start <= |q|
    ensures forall j :: 0 <= j < start - 5 ==> !At(q, Marker, j)
  {
    Index(q, Marker) + |Marker|
  }

  /** `strings.Index(query[start:], "'") + start`: the position of the first
      quote at or after `start`, or `start - 1` when there is none. */
  function KeyEnd(q: string, start: int): (end: int)
    requires 0 <= start <= |q|
    ensures end == start - 1 <==> forall j :: start <= j < |q| ==> q[j] != '\''
    ensures end >= start ==>
      end < |q| && q[end] == '\'' && forall j :: start <= j < end ==> q[j] != '\''
  {
    QuoteSearch(q, start);
    Index(q[start..], "'") + start
  }

  /** The quote search from `start`, in terms of the characters of `q`. */
  lemma QuoteSearch(q: string, start: int)
    requires 0 <= start <= |q|
    ensures var i := Index(q[start..], "'");
      (i == -1 <==> forall j :: start <= j < |q| ==> q[j] != '\'') &&
      (i >= 0 ==>
        start + i < |q| && q[start + i] == '\'' && forall j :: start <= j < start + i ==> q[j] != '\'')
  {
    var t := q[start..];
    IndexChar(t, '\'');
    assert forall j :: start <= j < |q| ==> q[j] == t[j - start];
    if '\'' in t {
      var k :| 0 <= k < |t| && t[k] == '\'';
      assert q[start + k] == '\'';
    }
  }

  /** The GET and its error mapping: a missing key is "key not found", any
      other store error is passed on unchanged. */
  function Fetch(s: StringStore, key: string): (r: Result<string>)
    ensures r.Ok? <==> Get(s, key).Found?
    ensures r.Err? ==> r.error == KeyNotFound || r.error.StoreFailure?
  {
    match Get(s, key)
    case Found(v) => Ok(v)
    case Nil => Err(KeyNotFound)
    case Fail(m) => Err(StoreFailure(m))
  }

  /** `handleSQLQuery`. A trimmed query that starts with SELECT is at least 6
      long, so `query[start:]` is always in bounds; `end` is never -1 since
      `start` is at least 4. */
  function Query(s: StringStore, query: string): (r: Result<string>)
    ensures r == Err(UnsupportedQuery) <==> !IsSelect(TrimSpace(query))
    ensures r.Err? ==>
      r.error == UnsupportedQuery || r.error == InvalidSqlQuery || r.error == KeyNotFound || r.error.StoreFailure?
  {
    var q := TrimSpace(query);
    if !IsSelect(q) then Err(UnsupportedQuery)
    else
      StartInBounds(q);
      var start := KeyStart(q);
      if start > |q| then Err(SlicePanic)
      else
        var end := KeyEnd(q, start);
        if start == -1 || end == -1 || end <= start then Err(InvalidSqlQuery)
        else Fetch(s, q[start..end])
  }

  /** A SELECT's trimmed text is never shorter than the position the key
      search starts from, so the guard `start > |q|` above is never taken
      and `query[start:]` never panics. */
  lemma {:induction false} StartInBounds(q: string)
    requires IsSelect(q)
    ensures 4 <= KeyStart(q) <= |q|
  {
    assert |ToUpper(q)| == |q| >= 6;
  }

  /** The guards `start == -1` and `end == -1` never fire: only `end <= start`
      can reject a query. */
  lemma DeadGuards(q: string)
    requires IsSelect(q)
    ensures KeyStart(q) != -1
    ensures KeyEnd(q, KeyStart(q)) != -1
  {
    StartInBounds(q);
  }

  /** No earlier occurrence of the marker than `i`, and one at `i`: `Index`
      finds `i`. */
  lemma FirstAt(s: string, t: string, i: int)
    requires At(s, t, i) && forall j :: 0 <= j < i ==> !At(s, t, j)
    ensures Index(s, t) == i
  {
  }

  /** A query of the form `pre` `key='` `k` `'` `post`, whose first `key='` is
      the one after `pre`, reads the store at `k` exactly when `k` is not
      empty and holds no quote; then the answer is GET's value, "key not
      found", or the store's own error. */
  lemma KeyBetweenQuotes(s: StringStore, query: string, pre: string, k: string, post: string)
    requires TrimSpace(query) == pre + Marker + k + "'" + post
    requires IsSelect(TrimSpace(query))
    requires forall j :: 0 <= j < |pre| ==> !At(TrimSpace(query), Marker, j)
    requires '\'' !in k
    ensures k != [] ==> Query(s, query) == Fetch(s, k)
    ensures k == [] ==> Query(s, query) == Err(InvalidSqlQuery)
  {
    var q := TrimSpace(query);
    var start, end := |pre| + 5, |pre| + 5 + |k|;
    KeyPosition(q, pre, k, post);
    QueryAt(s, query, start, end);
    assert q[start..end] == k;
  }

  /** `Query` once the start and end of the key are known. */
  lemma QueryAt(s: StringStore, query: string, start: int, end: int)
    requires IsSelect(TrimSpace(query))
    requires KeyStart(TrimSpace(query)) == start <= |TrimSpace(query)|
    requires KeyEnd(TrimSpace(query), start) == end
    ensures end <= start ==> Query(s, query) == Err(InvalidSqlQuery)
    ensures end > start ==> start <= end <= |TrimSpace(query)| && Query(s, query) == Fetch(s, TrimSpace(query)[start..end])
  {
  }

  /** Where the key search starts and ends on a query of that form. */
  lemma KeyPosition(q: string, pre: string, k: string, post: string)
    requires q == pre + Marker + k + "'" + post
    requires forall j :: 0 <= j < |pre| ==> !At(q, Marker, j)
    requires '\'' !in k
    ensures KeyStart(q) == |pre| + 5 <= |q|
    ensures KeyEnd(q, |pre| + 5) == |pre| + 5 + |k|
    ensures q[|pre| + 5..|pre| + 5 + |k|] == k
  {
    var start := |pre| + 5;
    assert q[|pre|..start] == Marker;
    FirstAt(q, Marker, |pre|);
    KeyEndAt(q, start, k, post);
  }

  lemma KeyEndAt(q: string, start: int, k: string, post: string)
    requires 0 <= start <= |q| && q[start..] == k + "'" + post && '\'' !in k
    ensures KeyEnd(q, start) == start + |k|
    ensures q[start..start + |k|] == k
  {
    var t := q[start..];
    assert t[|k|] == '\'';
    forall j | 0 <= j < |k| ensures t[j] != '\'' {
      assert t[j] == k[j];
    }
    IndexChar(t, '\'');
    assert t[..|k|] == k;
  }

  /** A SELECT is rejected as invalid exactly when the text from the key's
      start holds no quote, or begins with one (an empty key). */
  lemma InvalidIff(s: StringStore, query: string)
    requires IsSelect(TrimSpace(query))
    ensures var q := TrimSpace(query); var start := KeyStart(q);
      start <= |q| &&
      (Query(s, query) == Err(InvalidSqlQuery) <==>
        (forall j :: start <= j < |q| ==> q[j] != '\'') || (start < |q| && q[start] == '\''))
  {
    var q := TrimSpace(query);
    StartInBounds(q);
  }

  /** A query is unsupported exactly when its trimmed text does not start
      with SELECT in some letter case. */
  lemma UnsupportedIffNotSelect(s: StringStore, query: string)
    ensures Query(s, query) == Err(UnsupportedQuery) <==> !IsSelect(TrimSpace(query))
  {
    var q := TrimSpace(query);
    if IsSelect(q) {
      StartInBounds(q);
      var start := KeyStart(q);
      var end := KeyEnd(q, start);
      QueryAt(s, query, start, end);
      if end > start {
        var r := Fetch(s, q[start..end]);
        assert r.Err? ==> r.error != UnsupportedQuery;
      }
    }
  }

  /** Without `key='` the key is read from position 4 on: a query that names
      its key some other way reads the text `CT x FROM t WHERE id=` as the
      key. */
  lemma NoMarkerReadsFromFour(s: StringStore)
    ensures Query(s, Sample) == Fetch(s, SampleKey)
  {
    SampleTrimmed();
    SampleNoMarker();
    SampleQuote();
    QuoteSearch(Sample, 4);
    NoMarkerStartsAtFour(s, Sample);
  }

  /** Without `key='`, the key runs from position 4 to the first quote after
      it. */
  lemma NoMarkerStartsAtFour(s: StringStore, query: string)
    requires IsSelect(TrimSpace(query)) && !Contains(TrimSpace(query), Marker)
    ensures var q := TrimSpace(query); var end := KeyEnd(q, 4);
      |q| >= 6 && Query(s, query) == if end <= 4 then Err(InvalidSqlQuery) else Fetch(s, q[4..end])
  {
    StartInBounds(TrimSpace(query));
  }

  /** A query that names its key with `id=` rather than `key=`. */
  const Sample: string := "SELECT x FROM t WHERE id='a'"

  /** The text the lookup takes for its key. */
  const SampleKey: string := "CT x FROM t WHERE id="

  lemma SampleTrimmed()
    ensures TrimSpace(Sample) == Sample && IsSelect(Sample)
  {
    var q := Sample;
    assert !IsSpace(q[0]) && !IsSpace(q[|q| - 1]);
    assert q == "SELECT" + q[6..];
    LowerCaseSelect(q[6..]);
  }

  lemma SampleNoMarker()
    ensures !Contains(Sample, Marker)
  {
    assert 'k' !in Sample;
    forall j ensures !At(Sample, Marker, j) {
      if 0 <= j && j + 5 <= |Sample| {
        assert Sample[j..j + 5][0] == Sample[j];
      }
    }
  }

  lemma SampleQuote()
    ensures |Sample| == 28 && Sample[25] == '\'' && forall j :: 4 <= j < 25 ==> Sample[j] != '\''
    ensures Sample[4..25] == SampleKey
  {
    SampleKeySlice();
  }

  lemma SampleKeySlice()
    ensures |Sample| == 28 && Sample[4..25] == SampleKey
  {
    assert |SampleKey| == 21;
    assert forall i :: 0 <= i < 21 ==> Sample[4..25][i] == Sample[i + 4] == SampleKey[i];
  }

  /** The lookup the `start == -1` guard evidently means: a query without
      `key='` is invalid instead of reading a key from position 4. */
  function IntendedQuery(s: StringStore, query: string): (r: Result<string>)
    ensures IsSelect(TrimSpace(query)) && !Contains(TrimSpace(query), Marker) ==> r == Err(InvalidSqlQuery)
    ensures !(IsSelect(TrimSpace(query)) && !Contains(TrimSpace(query), Marker)) ==> r == Query(s, query)
  {
    var q := TrimSpace(query);
    if IsSelect(q) && !Contains(q, Marker) then Err(InvalidSqlQuery) else Query(s, query)
  }

  /** With the guard working, every key the lookup reads follows the first
      `key='` of the query and ends before the next quote. */
  lemma IntendedReadsMarkedKey(s: StringStore, query: string)
    requires IntendedQuery(s, query).Ok?
    ensures var q := TrimSpace(query); var start := KeyStart(q);
      Contains(q, Marker) && At(q, Marker, start - 5) &&
      exists end :: start < end < |q| && q[end] == '\'' &&
        (forall j :: start <= j < end ==> q[j] != '\'') &&
        IntendedQuery(s, query) == Fetch(s, q[start..end])
  {
    var q := TrimSpace(query);
    var start := KeyStart(q);
    var end := KeyEnd(q, start);
    assert start < end < |q|;
  }
}

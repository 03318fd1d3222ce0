/** db/complex/complex.go: a SELECT against the one fixed record `user:1001`
    with strict errors: the record must exist, every WHERE equality must hold
    on it, and every requested field must be present. */
module Complex {
  import opened GoStrings
  import opened Store
  import opened Results
  import opened Clauses
  import opened Where

  /** The record every query reads. */
  const Key: string := "user:1001"

  // ---------------------------------------------------------------------
  // The equality-only WHERE parser

  /** The entry one conjunct contributes: an `=` conjunct with exactly two
      pieces, quotes trimmed before spaces. */
  function EqEntry(conjunct: string): Option<(string, string)> {
    EqualityEntry(TrimSpace(conjunct))
  }

  function EqEntries(cs: seq<string>): (es: seq<Option<(string, string)>>)
    ensures |es| == |cs|
  {
    if cs == [] then [] else EqEntries(cs[..|cs| - 1]) + [EqEntry(cs[|cs| - 1])]
  }

  lemma {:induction false} EqEntriesAt(cs: seq<string>, k: int)
    requires 0 <= k < |cs|
    ensures EqEntries(cs)[k] == EqEntry(cs[k])
  {
    var pre := cs[..|cs| - 1];
    assert EqEntries(cs) == EqEntries(pre) + [EqEntry(cs[|cs| - 1])];
    if k < |cs| - 1 {
      assert pre[k] == cs[k];
      EqEntriesAt(pre, k);
    }
  }

  lemma EqEntriesSnoc(cs: seq<string>, i: int)
    requires 0 <= i < |cs|
    ensures Gather(EqEntries(cs[..i + 1])) == Add(Gather(EqEntries(cs[..i])), EqEntry(cs[i]))
  {
    assert cs[..i + 1][..i] == cs[..i];
    var es := EqEntries(cs[..i]);
    assert EqEntries(cs[..i + 1]) == es + [EqEntry(cs[i])];
    assert (es + [EqEntry(cs[i])])[..i] == es;
  }

  /** The conditions a WHERE clause (starting at `WHERE`) parses to. */
  function ParseEq(clause: string): map<string, string> {
    Gather(EqEntries(Conjuncts(clause)))
  }

  /** The conditions of a whole query. */
  function QueryConditions(q: string): map<string, string> {
    var w := Index(q, "WHERE");
    if w != -1 then ParseEq(q[w..]) else map[]
  }

  /** `parseWhereClause`. */
  method ParseWhereClause(whereClause: string) returns (conditions: map<string, string>)
    ensures conditions == ParseEq(whereClause)
  {
    conditions := map[];
    var conditionsList := Split(TrimSpace(TrimPrefix(whereClause, "WHERE")), "AND");
    var i := 0;
    while i < |conditionsList|
      invariant 0 <= i <= |conditionsList|
      invariant conditions == Gather(EqEntries(conditionsList[..i]))
    {
      var condition := TrimSpace(conditionsList[i]);
      var parts := Split(condition, "=");
      if |parts| == 2 {
        var field := TrimSpace(Trim(parts[0], "'"));
        var value := TrimSpace(Trim(parts[1], "'"));
        conditions := conditions[field := value];
      }
      EqEntriesSnoc(conditionsList, i);
      i := i + 1;
    }
    assert conditionsList[..i] == conditionsList;
  }

  /** A conjunct contributes exactly when its trimmed text holds one `=`, and
      then the two sides with quotes and spaces trimmed. */
  lemma EqEntryShape(conjunct: string, i: int)
    requires var c := TrimSpace(conjunct); 0 <= i < |c| && c[i] == '='
    ensures var c := TrimSpace(conjunct);
      Count(c, '=') == 1 ==>
        EqEntry(conjunct) == Some((TrimSpace(Trim(c[..i], "'")), TrimSpace(Trim(c[i + 1..], "'"))))
    ensures Count(TrimSpace(conjunct), '=') > 1 ==> EqEntry(conjunct) == None
  {
    var c := TrimSpace(conjunct);
    SplitCount(c, '=');
    if Count(c, '=') == 1 {
      SplitOnce(c, '=', i);
    }
  }

  /** A conjunct without `=`, such as `age > 25`, contributes nothing. */
  lemma NoEqualsNoEntry(conjunct: string)
    requires '=' !in TrimSpace(conjunct)
    ensures EqEntry(conjunct) == None
  {
    CountAbsent(TrimSpace(conjunct), '=');
    SplitCount(TrimSpace(conjunct), '=');
  }

  /** On a conjunct without `>` this parser and the one of
      db/joins/joins.go agree: the same field, compared for equality with the
      same text. */
  lemma AgreesWithJoinsParser(conjunct: string)
    requires '>' !in TrimSpace(conjunct)
    ensures Entry(conjunct) == match EqEntry(conjunct)
                               case Some(fv) => Some((fv.0, Equals(fv.1)))
                               case None => None
  {
    ContainsChar(TrimSpace(conjunct), '>');
  }

  /** The last conjunct naming a field decides its expected value. */
  lemma ParseEqLastWins(clause: string, i: int, f: string, v: string)
    requires var cs := Conjuncts(clause); 0 <= i < |cs| && EqEntry(cs[i]) == Some((f, v))
    requires var cs := Conjuncts(clause);
      forall j :: i < j < |cs| ==> EqEntry(cs[j]).None? || EqEntry(cs[j]).value.0 != f
    ensures f in ParseEq(clause) && ParseEq(clause)[f] == v
  {
    var cs := Conjuncts(clause);
    var es := EqEntries(cs);
    EqEntriesAt(cs, i);
    forall j | i < j < |es| ensures es[j].None? || es[j].value.0 != f {
      EqEntriesAt(cs, j);
    }
    GatherLastWins(es, i, f, v);
  }

  // ---------------------------------------------------------------------
  // The field list

  /** `query[7:strings.Index(query[7:], " FROM ") + 7]` is in bounds only when
      the query is at least 7 long and ` FROM ` occurs after its first 7
      characters; a missing ` FROM ` makes the end 6 and the slice panics, so
      the `selectEnd == -1` test after it never fires. */
  predicate FieldListOk(q: string) {
    |q| >= 7 && Contains(q[7..], " FROM ")
  }

  /** The raw field list between `SELECT ` and the first ` FROM ` after it. */
  function FieldList(q: string): string
    requires FieldListOk(q)
  {
    q[7..Index(q[7..], " FROM ") + 7]
  }

  /** The requested fields: the field list cut at commas, each piece
      trimmed. */
  function TrimmedFields(q: string): (fields: seq<string>)
    requires FieldListOk(q)
    ensures |fields| == |Split(TrimSpace(FieldList(q)), ",")|
    ensures forall i :: 0 <= i < |fields| ==> fields[i] == TrimSpace(Split(TrimSpace(FieldList(q)), ",")[i])
  {
    var raw := Split(TrimSpace(FieldList(q)), ",");
    seq(|raw|, i requires 0 <= i < |raw| => TrimSpace(raw[i]))
  }

  /** The field list cut at commas: the pieces join back to the trimmed list
      and hold no comma. Each field is its piece trimmed, so no field holds a
      comma or starts or ends with a space. */
  lemma TrimmedFieldsShape(q: string)
    requires FieldListOk(q)
    ensures var list := TrimSpace(FieldList(q)); var raw := Split(list, ",");
      JoinWith(raw, ",") == list && (forall p :: p in raw ==> ',' !in p) &&
      |TrimmedFields(q)| == |raw| &&
      forall i :: 0 <= i < |raw| ==> TrimmedFields(q)[i] == TrimSpace(raw[i])
    ensures forall f :: f in TrimmedFields(q) ==>
      ',' !in f && (f == [] || (!IsSpace(f[0]) && !IsSpace(f[|f| - 1])))
  {
    var list := TrimSpace(FieldList(q));
    var raw := Split(list, ",");
    var fields := TrimmedFields(q);
    SplitJoin(list, ",");
    SplitPieces(list, ",");
    forall p | p in raw ensures ',' !in p {
      ContainsChar(p, ',');
    }
    forall f | f in fields
      ensures ',' !in f && (f == [] || (!IsSpace(f[0]) && !IsSpace(f[|f| - 1])))
    {
      var i :| 0 <= i < |fields| && fields[i] == f;
      assert raw[i] in raw;
      TrimSpaceEdges(raw[i]);
      TrimSpaceKeepsOut(raw[i], ',');
    }
  }

  /** The end index the Go code computes is never -1. */
  lemma SelectEndNeverMinusOne(q: string)
    requires |q| >= 7
    ensures Index(q[7..], " FROM ") + 7 >= 6
    ensures Index(q[7..], " FROM ") + 7 == 6 <==> !Contains(q[7..], " FROM ")
  {
  }

  /** The loop at db/complex/complex.go:76-78: every element of the slice is
      trimmed in place. */
  method TrimInPlace(fields: array<string>)
    modifies fields
    ensures forall i :: 0 <= i < fields.Length ==> fields[i] == TrimSpace(old(fields[i]))
  {
    for i := 0 to fields.Length
      invariant forall j :: 0 <= j < i ==> fields[j] == TrimSpace(old(fields[j]))
      invariant forall j :: i <= j < fields.Length ==> fields[j] == old(fields[j])
    {
      fields[i] := TrimSpace(fields[i]);
    }
  }

  // ---------------------------------------------------------------------
  // Conditions and fields

  /** The error one condition raises on the record, if any: a missing field,
      a store error, or a different value. */
  function ConditionError(s: HashStore, field: string, expected: string): Option<QueryError> {
    match HGet(s, Key, field)
    case Nil => Some(FieldNotFound(field, Key))
    case Fail(m) => Some(StoreFailure(m))
    case Found(v) => if v != expected then Some(ConditionNotMet(field, expected)) else None
  }

  /** The errors the condition loop can stop with. The loop visits the map in
      an order Go leaves unspecified and returns the first error it meets, so
      any of these can be the one returned. */
  function ConditionErrors(s: HashStore, conditions: map<string, string>): set<QueryError> {
    set f | f in conditions && ConditionError(s, f, conditions[f]).Some? :: ConditionError(s, f, conditions[f]).value
  }

  lemma ConditionErrorListed(s: HashStore, conditions: map<string, string>, f: string)
    requires f in conditions
    ensures ConditionError(s, f, conditions[f]).Some? ==>
      ConditionError(s, f, conditions[f]).value in ConditionErrors(s, conditions)
  {
  }

  /** The condition loop of `handleSQLQuery`. */
  method CheckConditions(s: HashStore, conditions: map<string, string>) returns (failure: Option<QueryError>)
    ensures failure.None? <==> ConditionErrors(s, conditions) == {}
    ensures failure.Some? ==> failure.value in ConditionErrors(s, conditions)
  {
    var remaining := conditions.Keys;
    while remaining != {}
      invariant remaining <= conditions.Keys
      invariant forall f :: f in conditions && f !in remaining ==> ConditionError(s, f, conditions[f]).None?
      decreases |remaining|
    {
      var field :| field in remaining;
      var expectedVal := conditions[field];
      var actualVal := HGet(s, Key, field);
      if actualVal.Nil? || actualVal.Fail? || actualVal.value != expectedVal {
        assert ConditionError(s, field, expectedVal).value in ConditionErrors(s, conditions);
      }
      if actualVal.Nil? {
        return Some(FieldNotFound(field, Key));
      }
      if actualVal.Fail? {
        return Some(StoreFailure(actualVal.message));
      }
      if actualVal.value != expectedVal {
        return Some(ConditionNotMet(field, expectedVal));
      }
      remaining := remaining - {field};
    }
    assert forall f :: f in conditions ==> ConditionError(s, f, conditions[f]).None?;
    return None;
  }

  /** The row for `fields`: every field must be present; the first that is
      not ends the query. */
  function FetchAll(s: HashStore, fields: seq<string>): Result<Row> {
    if fields == [] then Ok(map[])
    else
      match FetchAll(s, fields[..|fields| - 1])
      case Err(e) => Err(e)
      case Ok(row) =>
        var field := fields[|fields| - 1];
        match HGet(s, Key, field)
        case Nil => Err(FieldNotFound(field, Key))
        case Fail(m) => Err(StoreFailure(m))
        case Found(v) => Ok(row[field := v])
  }

  lemma {:induction false} FetchAllStops(s: HashStore, fields: seq<string>, i: int)
    requires 0 <= i <= |fields| && FetchAll(s, fields[..i]).Err?
    ensures FetchAll(s, fields) == FetchAll(s, fields[..i])
  {
    if i < |fields| {
      var pre := fields[..|fields| - 1];
      assert pre[..i] == fields[..i];
      FetchAllStops(s, pre, i);
    } else {
      assert fields[..i] == fields;
    }
  }

  /** The field loop of `handleSQLQuery`. */
  method FetchFields(s: HashStore, fields: seq<string>) returns (r: Result<Row>)
    ensures r == FetchAll(s, fields)
  {
    var result: Row := map[];
    var i := 0;
    while i < |fields|
      invariant 0 <= i <= |fields|
      invariant FetchAll(s, fields[..i]) == Ok(result)
    {
      assert fields[..i + 1][..i] == fields[..i];
      var field := fields[i];
      var val := HGet(s, Key, field);
      if val.Nil? {
        FetchAllStops(s, fields, i + 1);
        return Err(FieldNotFound(field, Key));
      }
      if val.Fail? {
        FetchAllStops(s, fields, i + 1);
        return Err(StoreFailure(val.message));
      }
      result := result[field := val.value];
      i := i + 1;
    }
    assert fields[..i] == fields;
    return Ok(result);
  }

  /** Fetching succeeds exactly when every field is present, and then gives
      exactly those fields with their stored values. */
  lemma {:induction false} FetchAllOk(s: HashStore, fields: seq<string>)
    ensures FetchAll(s, fields).Ok? <==> forall i :: 0 <= i < |fields| ==> HGet(s, Key, fields[i]).Found?
    ensures FetchAll(s, fields).Ok? ==>
      var row := FetchAll(s, fields).value;
      row.Keys == (set f | f in fields) && (forall f :: f in row ==> row[f] == HGet(s, Key, f).value)
  {
    if fields != [] {
      var n := |fields| - 1;
      var pre := fields[..n];
      FetchAllOk(s, pre);
      assert fields == pre + [fields[n]];
      if !FetchAll(s, pre).Ok? {
        var i :| 0 <= i < n && !HGet(s, Key, pre[i]).Found?;
        assert pre[i] == fields[i];
      }
    }
  }

  // ---------------------------------------------------------------------
  // The query

  /** Every result `handleSQLQuery` may give: the checks in the order the Go
      code makes them; only the condition loop can end in more than one way. */
  function Outcomes(s: HashStore, query: string): set<Result<Row>> {
    var q := TrimSpace(query);
    if !IsSelect(q) then {Err(UnsupportedQuery)}
    else
      match Exists(s, Key)
      case ExistsFailed(m) => {Err(ExistsCheckFailed(m))}
      case Absent => {Err(HashKeyNotFound(Key))}
      case Present =>
        if !FieldListOk(q) then {Err(SlicePanic)}
        else Checked(s, TrimmedFields(q), QueryConditions(q))
  }

  /** The results once the record exists and the field list is sliced: any
      error of the condition loop, or else the fetched row. */
  function Checked(s: HashStore, fields: seq<string>, conditions: map<string, string>): set<Result<Row>> {
    var errors := ConditionErrors(s, conditions);
    if errors != {} then set e | e in errors :: Err(e)
    else {FetchAll(s, fields)}
  }

  /** Lines 70-78 of `handleSQLQuery`: slice out the field list, cut it at
      commas and trim each piece in place. */
  method SelectFields(q: string) returns (fields: seq<string>)
    requires FieldListOk(q)
    ensures fields == TrimmedFields(q)
  {
    var selectEnd := Index(q[7..], " FROM ") + 7;
    assert q[7..selectEnd] == FieldList(q);
    var raw := Split(TrimSpace(q[7..selectEnd]), ",");
    fields := TrimPieces(raw);
    ghost var expected := TrimmedFields(q);
    assert |fields| == |expected|;
    assert forall i :: 0 <= i < |fields| ==> fields[i] == expected[i];
  }

  /** The pieces copied into a fresh array and trimmed there. */
  method TrimPieces(raw: seq<string>) returns (fields: seq<string>)
    ensures |fields| == |raw|
    ensures forall i :: 0 <= i < |raw| ==> fields[i] == TrimSpace(raw[i])
  {
    var a := new string[|raw|](i requires 0 <= i < |raw| => raw[i]);
    assert a[..] == raw;
    TrimInPlace(a);
    fields := a[..];
  }

  /** Lines 87-119 of `handleSQLQuery`: the condition loop, then the field
      loop. */
  method RunChecked(s: HashStore, fields: seq<string>, conditions: map<string, string>) returns (r: Result<Row>)
    ensures r in Checked(s, fields, conditions)
  {
    if |conditions| > 0 {
      var failure := CheckConditions(s, conditions);
      if failure.Some? {
        return Err(failure.value);
      }
    } else {
      assert conditions == map[];
    }
    r := FetchFields(s, fields);
  }

  /** `handleSQLQuery`. */
  method HandleSQLQuery(s: HashStore, query: string) returns (r: Result<Row>)
    ensures r in Outcomes(s, query)
  {
    var q := TrimSpace(query);
    if !HasPrefix(ToUpper(q), "SELECT") {
      return Err(UnsupportedQuery);
    }
    var key := Key;
    var found := Exists(s, key);
    if found.ExistsFailed? {
      return Err(ExistsCheckFailed(found.message));
    }
    if found.Absent? {
      return Err(HashKeyNotFound(key));
    }
    if !FieldListOk(q) {
      return Err(SlicePanic);
    }
    var fields := SelectFields(q);
    var whereStart := Index(q, "WHERE");
    var conditions: map<string, string> := map[];
    if whereStart != -1 {
      conditions := ParseWhereClause(q[whereStart..]);
    }
    r := RunChecked(s, fields, conditions);
  }

  // ---------------------------------------------------------------------
  // Properties

  /** A successful check is the only possible result, holds exactly the
      requested fields with their stored values, and every condition holds on
      the record. */
  lemma CheckedSuccess(s: HashStore, fields: seq<string>, conditions: map<string, string>, row: Row)
    requires Ok(row) in Checked(s, fields, conditions)
    ensures Checked(s, fields, conditions) == {Ok(row)}
    ensures row.Keys == (set f | f in fields)
    ensures forall f :: f in row ==> HGet(s, Key, f) == Found(row[f])
    ensures forall f :: f in conditions ==> HGet(s, Key, f) == Found(conditions[f])
  {
    assert ConditionErrors(s, conditions) == {};
    FetchAllOk(s, fields);
    forall f | f in conditions ensures HGet(s, Key, f) == Found(conditions[f]) {
      ConditionErrorListed(s, conditions, f);
    }
  }

  /** A condition the record does not meet makes every possible result an
      error, and its own error is among them, whatever order the loop
      visits the conditions in. */
  lemma CheckedConditionFails(s: HashStore, fields: seq<string>, conditions: map<string, string>, f: string)
    requires f in conditions && ConditionError(s, f, conditions[f]).Some?
    ensures forall r :: r in Checked(s, fields, conditions) ==> r.Err?
    ensures Err(ConditionError(s, f, conditions[f]).value) in Checked(s, fields, conditions)
  {
    assert ConditionError(s, f, conditions[f]).value in ConditionErrors(s, conditions);
  }

  /** A missing requested field makes the result an error. */
  lemma CheckedFieldMissing(s: HashStore, fields: seq<string>, conditions: map<string, string>, k: int)
    requires 0 <= k < |fields| && !HGet(s, Key, fields[k]).Found?
    ensures forall r :: r in Checked(s, fields, conditions) ==> r.Err?
  {
    FetchAllOk(s, fields);
  }

  /** A successful query is the only possible result, holds exactly the
      trimmed requested fields with their stored values, and every condition
      holds on the record. */
  lemma SuccessExact(s: HashStore, query: string, row: Row)
    requires Ok(row) in Outcomes(s, query)
    ensures Outcomes(s, query) == {Ok(row)}
    ensures var q := TrimSpace(query);
      IsSelect(q) && Exists(s, Key) == Present && FieldListOk(q) &&
      row.Keys == (set f | f in TrimmedFields(q)) &&
      (forall f :: f in row ==> HGet(s, Key, f) == Found(row[f])) &&
      (forall f :: f in QueryConditions(q) ==> HGet(s, Key, f) == Found(QueryConditions(q)[f]))
  {
    var q := TrimSpace(query);
    CheckedSuccess(s, TrimmedFields(q), QueryConditions(q), row);
  }

  /** A condition the record does not meet (field missing, unreadable or
      different) makes every possible result an error, in any visiting
      order. */
  lemma FailedConditionAborts(s: HashStore, query: string, f: string)
    requires f in QueryConditions(TrimSpace(query))
    requires ConditionError(s, f, QueryConditions(TrimSpace(query))[f]).Some?
    ensures forall r :: r in Outcomes(s, query) ==> r.Err?
  {
    forall r | r in Outcomes(s, query) ensures r.Err? {
      if r.Ok? {
        SuccessExact(s, query, r.value);
      }
    }
  }

  /** A missing requested field is an error. */
  lemma MissingFieldFails(s: HashStore, query: string, k: int)
    requires FieldListOk(TrimSpace(query)) && 0 <= k < |TrimmedFields(TrimSpace(query))|
    requires !HGet(s, Key, TrimmedFields(TrimSpace(query))[k]).Found?
    ensures forall r :: r in Outcomes(s, query) ==> r.Err?
  {
    var q := TrimSpace(query);
    if IsSelect(q) && Exists(s, Key) == Present {
      CheckedFieldMissing(s, TrimmedFields(q), QueryConditions(q), k);
    }
  }

  /** Without the record, a SELECT fails with the key error before any field
      is read, whatever the fields and conditions. */
  lemma KeyMissingFirst(s: HashStore, query: string)
    requires IsSelect(TrimSpace(query)) && Exists(s, Key) == Absent
    ensures Outcomes(s, query) == {Err(HashKeyNotFound(Key))}
  {
  }

  lemma CheckedNeverUnsupported(s: HashStore, fields: seq<string>, conditions: map<string, string>)
    ensures Err(UnsupportedQuery) !in Checked(s, fields, conditions)
  {
    if ConditionErrors(s, conditions) == {} {
      FetchAllNeverUnsupported(s, fields);
    }
  }

  /** A query whose verb is not SELECT, in any letter case, is unsupported;
      a SELECT never is. */
  lemma UnsupportedIffNotSelect(s: HashStore, query: string)
    ensures Err(UnsupportedQuery) in Outcomes(s, query) <==> !IsSelect(TrimSpace(query))
  {
    var q := TrimSpace(query);
    if IsSelect(q) && Exists(s, Key) == Present && FieldListOk(q) {
      CheckedNeverUnsupported(s, TrimmedFields(q), QueryConditions(q));
    }
  }

  lemma {:induction false} FetchAllNeverUnsupported(s: HashStore, fields: seq<string>)
    ensures FetchAll(s, fields) != Err(UnsupportedQuery)
  {
    if fields != [] {
      FetchAllNeverUnsupported(s, fields[..|fields| - 1]);
    }
  }

  /** The field errors are a missing field or a store error. */
  lemma {:induction false} FetchAllErrKind(s: HashStore, fields: seq<string>)
    ensures FetchAll(s, fields).Err? ==>
      FetchAll(s, fields).error.FieldNotFound? || FetchAll(s, fields).error.StoreFailure?
  {
    if fields != [] {
      FetchAllErrKind(s, fields[..|fields| - 1]);
    }
  }

  /** As written, a SELECT on an existing record without ` FROM ` after its
      first 7 characters panics instead of reaching the `selectEnd == -1`
      test that was to reject it. */
  lemma MissingFromPanics(s: HashStore, query: string)
    requires IsSelect(TrimSpace(query)) && Exists(s, Key) == Present
    requires !Contains(TrimSpace(query), " FROM ")
    ensures Outcomes(s, query) == {Err(SlicePanic)}
  {
    var q := TrimSpace(query);
    if |q| >= 7 && Contains(q[7..], " FROM ") {
      ContainsSuffix(q, 7, " FROM ");
    }
  }

  /** What the `selectEnd == -1` test evidently means: a SELECT whose field
      list cannot be sliced out is an invalid query, not a panic. */
  function IntendedOutcomes(s: HashStore, query: string): (rs: set<Result<Row>>)
    ensures Err(SlicePanic) !in rs
    ensures forall r :: r in rs && r.Ok? ==> r in Outcomes(s, query)
    ensures IsSelect(TrimSpace(query)) && Exists(s, Key) == Present && !FieldListOk(TrimSpace(query)) ==>
      rs == {Err(InvalidSqlQuery)}
    ensures !(IsSelect(TrimSpace(query)) && Exists(s, Key) == Present && !FieldListOk(TrimSpace(query))) ==>
      rs == Outcomes(s, query)
  {
    var q := TrimSpace(query);
    if IsSelect(q) && Exists(s, Key) == Present && !FieldListOk(q) then {Err(InvalidSqlQuery)}
    else
      IntendedNoPanic(s, query);
      Outcomes(s, query)
  }

  lemma IntendedNoPanic(s: HashStore, query: string)
    requires var q := TrimSpace(query); !(IsSelect(q) && Exists(s, Key) == Present && !FieldListOk(q))
    ensures Err(SlicePanic) !in Outcomes(s, query)
  {
    var q := TrimSpace(query);
    if IsSelect(q) && Exists(s, Key) == Present {
      CheckedNoPanic(s, TrimmedFields(q), QueryConditions(q));
    }
  }

  lemma CheckedNoPanic(s: HashStore, fields: seq<string>, conditions: map<string, string>)
    ensures Err(SlicePanic) !in Checked(s, fields, conditions)
  {
    var errors := ConditionErrors(s, conditions);
    if errors != {} {
      assert SlicePanic !in errors;
    } else {
      FetchAllErrKind(s, fields);
    }
  }
}

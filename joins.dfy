/** db/joins/joins.go: a SELECT over the records `keys` (the Go code builds
    `user:1` … `user:<numUsers>`), filtered by the WHERE conditions, or, when
    the query holds ` JOIN `, every record merged with the profile record that
    `profileKey` names for it. */
module Joins {
  import opened GoStrings
  import opened Store
  import opened Results
  import opened Clauses
  import opened Where

  /** The fields `*` stands for. */
  const AllFields: seq<string> := ["name", "email", "age", "country"]

  /** `extractFields`: `*` gives the fixed field list; any other select list
      is cut at its commas, and the pieces keep their spaces. */
  function ExtractFields(q: string): (fields: seq<string>)
    requires SelectListOk(q)
    ensures SelectList(q) == "*" ==> fields == AllFields
    ensures SelectList(q) != "*" ==> |fields| >= 1
    ensures SelectList(q) != "*" ==>
      JoinWith(fields, ",") == SelectList(q) && forall f :: f in fields ==> ',' !in f
  {
    if SelectList(q) == "*" then AllFields else CommaPieces(q)
  }

  /** One condition holds for a record: the field reads back a value, and that
      value satisfies the condition. */
  predicate Holds(s: HashStore, key: string, field: string, p: Predicate) {
    HGet(s, key, field).Found? && Satisfies(HGet(s, key, field).value, p)
  }

  /** Every condition holds for a record. */
  predicate Passes(s: HashStore, key: string, conditions: Conditions) {
    forall f :: f in conditions ==> Holds(s, key, f, conditions[f])
  }

  /** `checkConditions`: visits the conditions in any order and stops at the
      first that fails; a read error counts as a failure. Whatever order the
      map gives, the answer is the same. */
  method CheckConditions(s: HashStore, key: string, conditions: Conditions) returns (ok: bool)
    ensures ok <==> Passes(s, key, conditions)
  {
    var remaining := conditions.Keys;
    while remaining != {}
      invariant remaining <= conditions.Keys
      invariant forall f :: f in conditions && f !in remaining ==> Holds(s, key, f, conditions[f])
      decreases |remaining|
    {
      var field :| field in remaining;
      var actualVal := HGet(s, key, field);
      if !actualVal.Found? {
        return false;
      }
      match conditions[field] {
        case Equals(expectedVal) =>
          if actualVal.value != expectedVal {
            return false;
          }
        case GreaterThan(expectedVal) =>
          var actualInt := Atoi(actualVal.value);
          if actualInt.None? {
            return false;
          }
          if actualInt.value <= expectedVal {
            return false;
          }
      }
      remaining := remaining - {field};
    }
    return true;
  }

  /** The row a record gives for `fields`: fields the store has no value for
      are left out, and the first read error ends it. */
  function RowOf(s: HashStore, key: string, fields: seq<string>): Result<Row> {
    if fields == [] then Ok(map[])
    else
      match RowOf(s, key, fields[..|fields| - 1])
      case Err(e) => Err(e)
      case Ok(row) =>
        var field := fields[|fields| - 1];
        match HGet(s, key, field)
        case Fail(m) => Err(StoreFailure(m))
        case Nil => Ok(row)
        case Found(v) => Ok(row[field := v])
  }

  /** The per-field loop of `handleSQLQuery` and `handleJoinQuery`. */
  method FetchRow(s: HashStore, key: string, fields: seq<string>) returns (r: Result<Row>)
    ensures r == RowOf(s, key, fields)
  {
    var result: Row := map[];
    var i := 0;
    while i < |fields|
      invariant 0 <= i <= |fields|
      invariant RowOf(s, key, fields[..i]) == Ok(result)
    {
      assert fields[..i + 1][..i] == fields[..i];
      var val := HGet(s, key, fields[i]);
      if val.Fail? {
        RowOfStops(s, key, fields, i + 1);
        return Err(StoreFailure(val.message));
      }
      if val.Found? {
        result := result[fields[i] := val.value];
      }
      i := i + 1;
    }
    assert fields[..i] == fields;
    return Ok(result);
  }

  /** Once a prefix of the fields fails, so does the whole list, with the
      same error. */
  lemma {:induction false} RowOfStops(s: HashStore, key: string, fields: seq<string>, i: int)
    requires 0 <= i <= |fields| && RowOf(s, key, fields[..i]).Err?
    ensures RowOf(s, key, fields) == RowOf(s, key, fields[..i])
  {
    if i < |fields| {
      var pre := fields[..|fields| - 1];
      assert pre[..i] == fields[..i];
      RowOfStops(s, key, pre, i);
    } else {
      assert fields[..i] == fields;
    }
  }

  /** A row holds exactly the requested fields the store has a value for,
      with the stored values. */
  lemma {:induction false} RowOfOk(s: HashStore, key: string, fields: seq<string>)
    requires RowOf(s, key, fields).Ok?
    ensures var row := RowOf(s, key, fields).value;
      forall f :: f in row <==> f in fields && HGet(s, key, f).Found?
    ensures var row := RowOf(s, key, fields).value;
      forall f :: f in row ==> row[f] == HGet(s, key, f).value
  {
    if fields != [] {
      var pre := fields[..|fields| - 1];
      var last := fields[|fields| - 1];
      assert RowOf(s, key, pre).Ok?;
      RowOfOk(s, key, pre);
      assert forall f :: f in fields <==> f in pre || f == last by {
        assert fields == pre + [last];
      }
    }
  }

  /** Building a row fails exactly when a read of one of its fields fails,
      and then with the first such error. */
  lemma {:induction false} RowOfErr(s: HashStore, key: string, fields: seq<string>)
    ensures RowOf(s, key, fields).Err? <==>
      exists i :: 0 <= i < |fields| && HGet(s, key, fields[i]).Fail?
    ensures RowOf(s, key, fields).Err? ==>
      exists i :: 0 <= i < |fields| && HGet(s, key, fields[i]).Fail? &&
        RowOf(s, key, fields).error == StoreFailure(HGet(s, key, fields[i]).message) &&
        forall j :: 0 <= j < i ==> !HGet(s, key, fields[j]).Fail?
  {
    if fields != [] {
      var n := |fields| - 1;
      var pre := fields[..n];
      RowOfErr(s, key, pre);
      assert forall i :: 0 <= i < n ==> pre[i] == fields[i];
      if RowOf(s, key, pre).Err? {
        var i :| 0 <= i < |pre| && HGet(s, key, pre[i]).Fail? &&
          RowOf(s, key, pre).error == StoreFailure(HGet(s, key, pre[i]).message) &&
          forall j :: 0 <= j < i ==> !HGet(s, key, pre[j]).Fail?;
        assert HGet(s, key, fields[i]).Fail?;
      } else if HGet(s, key, fields[n]).Fail? {
        assert forall j :: 0 <= j < n ==> !HGet(s, key, fields[j]).Fail?;
      } else {
        forall i | 0 <= i < |fields| ensures !HGet(s, key, fields[i]).Fail? {
          if i < n { assert pre[i] == fields[i]; }
        }
      }
    }
  }

  /** The records, in order, that pass the conditions. */
  function Passing(s: HashStore, keys: seq<string>, conditions: Conditions): seq<string> {
    if keys == [] then []
    else
      var rest := Passing(s, keys[..|keys| - 1], conditions);
      if Passes(s, keys[|keys| - 1], conditions) then rest + [keys[|keys| - 1]] else rest
  }

  /** The field list of a query, or `None` when slicing it out panics
      because ` FROM ` is missing or too early. */
  function FieldsOf(q: string): Option<seq<string>> {
    if SelectListOk(q) then Some(ExtractFields(q)) else None
  }

  /** The non-join path of `handleSQLQuery` over the records `keys`: a record
      that fails the conditions is skipped; for one that passes, the field
      list is sliced out (`None`: the slice panics) and its row is read. The
      field list is sliced anew for every passing record, so a query that no
      record passes does not panic. */
  function Scan(s: HashStore, keys: seq<string>, fields: Option<seq<string>>, conditions: Conditions): Result<seq<Row>> {
    if keys == [] then Ok([])
    else
      match Scan(s, keys[..|keys| - 1], fields, conditions)
      case Err(e) => Err(e)
      case Ok(rows) => Visit(s, keys[|keys| - 1], fields, conditions, rows)
  }

  /** One record of the scan, after the rows `rows` of the records before it. */
  function Visit(s: HashStore, key: string, fields: Option<seq<string>>, conditions: Conditions, rows: seq<Row>): Result<seq<Row>> {
    if !Passes(s, key, conditions) then Ok(rows)
    else if fields.None? then Err(SlicePanic)
    else
      match RowOf(s, key, fields.value)
      case Err(e) => Err(e)
      case Ok(row) => Ok(rows + [row])
  }

  /** One more record of the scan. */
  lemma ScanStep(s: HashStore, keys: seq<string>, fields: Option<seq<string>>, conditions: Conditions, i: int)
    requires 0 <= i < |keys| && Scan(s, keys[..i], fields, conditions).Ok?
    ensures Scan(s, keys[..i + 1], fields, conditions) ==
      Visit(s, keys[i], fields, conditions, Scan(s, keys[..i], fields, conditions).value)
  {
    assert keys[..i + 1][..i] == keys[..i];
  }

  /** Once a prefix of the records fails, so does the whole scan. */
  lemma {:induction false} ScanStops(s: HashStore, keys: seq<string>, fields: Option<seq<string>>, conditions: Conditions, i: int)
    requires 0 <= i <= |keys| && Scan(s, keys[..i], fields, conditions).Err?
    ensures Scan(s, keys, fields, conditions) == Scan(s, keys[..i], fields, conditions)
  {
    if i < |keys| {
      var pre := keys[..|keys| - 1];
      assert pre[..i] == keys[..i];
      ScanStops(s, pre, fields, conditions, i);
    } else {
      assert keys[..i] == keys;
    }
  }

  /** The records passing the conditions keep their order, and are exactly
      the records of `keys` that pass. */
  lemma {:induction false} PassingMembers(s: HashStore, keys: seq<string>, conditions: Conditions)
    ensures forall k :: k in Passing(s, keys, conditions) <==> k in keys && Passes(s, k, conditions)
    ensures |Passing(s, keys, conditions)| <= |keys|
  {
    if keys != [] {
      var pre := keys[..|keys| - 1];
      PassingMembers(s, pre, conditions);
      assert keys == pre + [keys[|keys| - 1]];
    }
  }

  /** With no conditions every record passes. */
  lemma {:induction false} NoConditionsEveryKey(s: HashStore, keys: seq<string>)
    ensures Passing(s, keys, map[]) == keys
  {
    if keys != [] {
      var pre := keys[..|keys| - 1];
      NoConditionsEveryKey(s, pre);
      assert keys == pre + [keys[|keys| - 1]];
    }
  }

  /** A successful scan gives one row per passing record, in key order, each
      the record's row for the select list. */
  lemma {:induction false} ScanRows(s: HashStore, keys: seq<string>, fields: Option<seq<string>>, conditions: Conditions)
    requires Scan(s, keys, fields, conditions).Ok?
    ensures var rows := Scan(s, keys, fields, conditions).value;
      var passing := Passing(s, keys, conditions);
      |rows| == |passing| && (passing != [] ==> fields.Some?) &&
      forall i :: 0 <= i < |passing| ==> RowOf(s, passing[i], fields.value) == Ok(rows[i])
  {
    if keys != [] {
      var pre := keys[..|keys| - 1];
      ScanRows(s, pre, fields, conditions);
    }
  }

  /** A record that passes the conditions but whose row cannot be built (the
      select list does not slice, or a read fails) aborts the whole scan. */
  lemma {:induction false} ScanAborts(s: HashStore, keys: seq<string>, fields: Option<seq<string>>, conditions: Conditions, k: int)
    requires 0 <= k < |keys| && Passes(s, keys[k], conditions)
    requires fields.None? || RowOf(s, keys[k], fields.value).Err?
    ensures Scan(s, keys, fields, conditions).Err?
    ensures fields.None? ==> Scan(s, keys, fields, conditions) == Err(SlicePanic)
  {
    var pre := keys[..|keys| - 1];
    if k < |keys| - 1 {
      assert pre[k] == keys[k];
      ScanAborts(s, pre, fields, conditions, k);
    } else if fields.None? && Scan(s, pre, fields, conditions).Err? {
      ScanPanicOnly(s, pre, fields, conditions);
    }
  }

  /** When the select list does not slice, the only error a scan can end in
      is the panic: no record's fields are ever read. */
  lemma {:induction false} ScanPanicOnly(s: HashStore, keys: seq<string>, fields: Option<seq<string>>, conditions: Conditions)
    requires fields.None?
    ensures Scan(s, keys, fields, conditions).Err? ==> Scan(s, keys, fields, conditions) == Err(SlicePanic)
  {
    if keys != [] {
      ScanPanicOnly(s, keys[..|keys| - 1], fields, conditions);
    }
  }

  /** The join rows: for every record, the main row overridden by the row of
      its profile record. No record is filtered out. */
  function JoinRows(s: HashStore, keys: seq<string>, profileKey: string -> string,
                    mainFields: seq<string>, joinFields: seq<string>): Result<seq<Row>>
  {
    if keys == [] then Ok([])
    else
      match JoinRows(s, keys[..|keys| - 1], profileKey, mainFields, joinFields)
      case Err(e) => Err(e)
      case Ok(rows) =>
        var key := keys[|keys| - 1];
        match RowOf(s, key, mainFields)
        case Err(e) => Err(e)
        case Ok(mainRow) =>
          match RowOf(s, profileKey(key), joinFields)
          case Err(e) => Err(e)
          case Ok(joinRow) => Ok(rows + [mainRow + joinRow])
  }

  /** One more record: the join of `keys[..i + 1]` from that of `keys[..i]`. */
  lemma JoinStep(s: HashStore, keys: seq<string>, profileKey: string -> string,
                 mainFields: seq<string>, joinFields: seq<string>, i: int)
    requires 0 <= i < |keys| && JoinRows(s, keys[..i], profileKey, mainFields, joinFields).Ok?
    ensures var main := RowOf(s, keys[i], mainFields);
      var join := RowOf(s, profileKey(keys[i]), joinFields);
      var next := JoinRows(s, keys[..i + 1], profileKey, mainFields, joinFields);
      (main.Err? ==> next == Err(main.error)) &&
      (main.Ok? && join.Err? ==> next == Err(join.error)) &&
      (main.Ok? && join.Ok? ==>
        next == Ok(JoinRows(s, keys[..i], profileKey, mainFields, joinFields).value + [main.value + join.value]))
  {
    assert keys[..i + 1][..i] == keys[..i];
    assert keys[..i + 1][i] == keys[i];
  }

  /** Once a prefix of the records fails, so does the whole join. */
  lemma {:induction false} JoinRowsStop(s: HashStore, keys: seq<string>, profileKey: string -> string,
                                        mainFields: seq<string>, joinFields: seq<string>, i: int)
    requires 0 <= i <= |keys| && JoinRows(s, keys[..i], profileKey, mainFields, joinFields).Err?
    ensures JoinRows(s, keys, profileKey, mainFields, joinFields) == JoinRows(s, keys[..i], profileKey, mainFields, joinFields)
  {
    if i < |keys| {
      var pre := keys[..|keys| - 1];
      assert pre[..i] == keys[..i];
      JoinRowsStop(s, pre, profileKey, mainFields, joinFields, i);
    } else {
      assert keys[..i] == keys;
    }
  }

  /** `handleJoinQuery`: both halves of the query must slice a select list,
      or the Go code panics before reading anything. */
  function JoinQuery(s: HashStore, keys: seq<string>, profileKey: string -> string, parts: seq<string>): Result<seq<Row>>
    requires |parts| > 1
  {
    if !SelectListOk(parts[0]) || !SelectListOk(parts[1]) then Err(SlicePanic)
    else JoinRows(s, keys, profileKey, ExtractFields(parts[0]), ExtractFields(parts[1]))
  }

  /** `handleSQLQuery`, with the `fmt` rendering of the rows left to the
      caller. */
  function Query(s: HashStore, keys: seq<string>, profileKey: string -> string, query: string): Result<seq<Row>> {
    var q := TrimSpace(query);
    if !IsSelect(q) then Err(UnsupportedQuery)
    else
      var parts := Split(q, " JOIN ");
      if |parts| > 1 then JoinQuery(s, keys, profileKey, parts)
      else Scan(s, keys, FieldsOf(q), WhereConditions(q))
  }

  /** One copy loop of `handleJoinQuery`: every entry of `src` is written
      into `dst`, replacing what `dst` held for that field. */
  method CopyInto(dst: Row, src: Row) returns (r: Row)
    ensures r == dst + src
  {
    r := dst;
    var todo := src.Keys;
    while todo != {}
      invariant todo <= src.Keys
      invariant r == dst + (map k | k in src && k !in todo :: src[k])
      decreases |todo|
    {
      var k :| k in todo;
      ghost var done := map k | k in src && k !in todo :: src[k];
      assert (map j | j in src && j !in todo - {k} :: src[j]) == done[k := src[k]];
      r := r[k := src[k]];
      todo := todo - {k};
    }
    assert (map k | k in src && k !in todo :: src[k]) == src;
  }

  /** The merged row of `handleJoinQuery`: the fields of both rows, and on a
      shared field the join row's value wins. */
  method Merge(mainResult: Row, joinResult: Row) returns (combinedResult: Row)
    ensures combinedResult.Keys == mainResult.Keys + joinResult.Keys
    ensures forall k :: k in joinResult ==> combinedResult[k] == joinResult[k]
    ensures forall k :: k in mainResult && k !in joinResult ==> combinedResult[k] == mainResult[k]
    ensures combinedResult == mainResult + joinResult
  {
    combinedResult := CopyInto(map[], mainResult);
    assert combinedResult == mainResult;
    combinedResult := CopyInto(combinedResult, joinResult);
  }

  /** `handleJoinQuery`. */
  method HandleJoinQuery(s: HashStore, keys: seq<string>, profileKey: string -> string, parts: seq<string>)
    returns (r: Result<seq<Row>>)
    requires |parts| > 1
    ensures r == JoinQuery(s, keys, profileKey, parts)
  {
    var mainQuery := parts[0];
    var joinQuery := parts[1];
    if !SelectListOk(mainQuery) || !SelectListOk(joinQuery) {
      return Err(SlicePanic);
    }
    var mainFields := ExtractFields(mainQuery);
    var joinFields := ExtractFields(joinQuery);
    r := JoinKeys(s, keys, profileKey, mainFields, joinFields);
  }

  /** The record loop of `handleJoinQuery`. */
  method JoinKeys(s: HashStore, keys: seq<string>, profileKey: string -> string,
                  mainFields: seq<string>, joinFields: seq<string>) returns (r: Result<seq<Row>>)
    ensures r == JoinRows(s, keys, profileKey, mainFields, joinFields)
  {
    var results: seq<Row> := [];
    var i := 0;
    while i < |keys|
      invariant 0 <= i <= |keys|
      invariant JoinRows(s, keys[..i], profileKey, mainFields, joinFields) == Ok(results)
    {
      JoinStep(s, keys, profileKey, mainFields, joinFields, i);
      var key := keys[i];
      var mainResult := FetchRow(s, key, mainFields);
      if mainResult.Err? {
        JoinRowsStop(s, keys, profileKey, mainFields, joinFields, i + 1);
        return Err(mainResult.error);
      }
      var joinResult := FetchRow(s, profileKey(key), joinFields);
      if joinResult.Err? {
        JoinRowsStop(s, keys, profileKey, mainFields, joinFields, i + 1);
        return Err(joinResult.error);
      }
      var combinedResult := Merge(mainResult.value, joinResult.value);
      results := results + [combinedResult];
      i := i + 1;
    }
    assert keys[..i] == keys;
    return Ok(results);
  }

  /** The record loop of `handleSQLQuery`'s non-join path. */
  method ScanKeys(s: HashStore, keys: seq<string>, q: string, conditions: Conditions) returns (r: Result<seq<Row>>)
    ensures r == Scan(s, keys, FieldsOf(q), conditions)
  {
    var results: seq<Row> := [];
    var i := 0;
    while i < |keys|
      invariant 0 <= i <= |keys|
      invariant Scan(s, keys[..i], FieldsOf(q), conditions) == Ok(results)
    {
      ScanStep(s, keys, FieldsOf(q), conditions, i);
      var visited := VisitKey(s, keys[i], q, conditions, results);
      if visited.Err? {
        ScanStops(s, keys, FieldsOf(q), conditions, i + 1);
        return visited;
      }
      results := visited.value;
      i := i + 1;
    }
    assert keys[..i] == keys;
    return Ok(results);
  }

  /** One pass of the record loop: test the conditions on the record, then
      read its fields and append the row. */
  method VisitKey(s: HashStore, key: string, q: string, conditions: Conditions, rows: seq<Row>)
    returns (r: Result<seq<Row>>)
    ensures r == Visit(s, key, FieldsOf(q), conditions, rows)
  {
    var pass := true;
    if |conditions| > 0 {
      pass := CheckConditions(s, key, conditions);
    } else {
      assert conditions == map[];
    }
    assert pass <==> Passes(s, key, conditions);
    if !pass {
      return Ok(rows);
    }
    if !SelectListOk(q) {
      return Err(SlicePanic);
    }
    var fields := ExtractFields(q);
    assert FieldsOf(q) == Some(fields);
    var result := FetchRow(s, key, fields);
    if result.Err? {
      return Err(result.error);
    }
    return Ok(rows + [result.value]);
  }

  /** `handleSQLQuery`. */
  method HandleSQLQuery(s: HashStore, keys: seq<string>, profileKey: string -> string, query: string)
    returns (r: Result<seq<Row>>)
    ensures r == Query(s, keys, profileKey, query)
  {
    var q := TrimSpace(query);
    if !HasPrefix(ToUpper(q), "SELECT") {
      return Err(UnsupportedQuery);
    }
    assert IsSelect(q);
    var parts := Split(q, " JOIN ");
    if |parts| > 1 {
      r := HandleJoinQuery(s, keys, profileKey, parts);
      return;
    }
    var whereStart := Index(q, "WHERE");
    var conditions: Conditions := map[];
    if whereStart != -1 {
      conditions := ParseWhereClause(q[whereStart..]);
    }
    assert conditions == WhereConditions(q);
    r := ScanKeys(s, keys, q, conditions);
  }

  /** A successful join gives one row per record, whatever the WHERE clause
      says, and each row is the record's main row overridden by its profile
      row. */
  lemma {:induction false} JoinRowsShape(s: HashStore, keys: seq<string>, profileKey: string -> string,
                                         mainFields: seq<string>, joinFields: seq<string>)
    requires JoinRows(s, keys, profileKey, mainFields, joinFields).Ok?
    ensures var rows := JoinRows(s, keys, profileKey, mainFields, joinFields).value;
      |rows| == |keys| &&
      forall i :: 0 <= i < |keys| ==>
        RowOf(s, keys[i], mainFields).Ok? && RowOf(s, profileKey(keys[i]), joinFields).Ok? &&
        rows[i] == RowOf(s, keys[i], mainFields).value + RowOf(s, profileKey(keys[i]), joinFields).value
  {
    if keys != [] {
      var pre := keys[..|keys| - 1];
      JoinRowsShape(s, pre, profileKey, mainFields, joinFields);
      assert forall i :: 0 <= i < |pre| ==> pre[i] == keys[i];
    }
  }

  /** The only errors past the verb test are the panic and a store error. */
  predicate PastVerb(e: QueryError) {
    e == SlicePanic || e.StoreFailure?
  }

  lemma {:induction false} RowOfErrKind(s: HashStore, key: string, fields: seq<string>)
    ensures RowOf(s, key, fields).Err? ==> RowOf(s, key, fields).error.StoreFailure?
  {
    if fields != [] {
      RowOfErrKind(s, key, fields[..|fields| - 1]);
    }
  }

  lemma {:induction false} ScanErrKind(s: HashStore, keys: seq<string>, fields: Option<seq<string>>, conditions: Conditions)
    ensures Scan(s, keys, fields, conditions).Err? ==> PastVerb(Scan(s, keys, fields, conditions).error)
  {
    if keys != [] {
      ScanErrKind(s, keys[..|keys| - 1], fields, conditions);
      if fields.Some? {
        RowOfErrKind(s, keys[|keys| - 1], fields.value);
      }
    }
  }

  lemma {:induction false} JoinRowsErrKind(s: HashStore, keys: seq<string>, profileKey: string -> string,
                                           mainFields: seq<string>, joinFields: seq<string>)
    ensures JoinRows(s, keys, profileKey, mainFields, joinFields).Err? ==>
      PastVerb(JoinRows(s, keys, profileKey, mainFields, joinFields).error)
  {
    if keys != [] {
      var key := keys[|keys| - 1];
      JoinRowsErrKind(s, keys[..|keys| - 1], profileKey, mainFields, joinFields);
      RowOfErrKind(s, key, mainFields);
      RowOfErrKind(s, profileKey(key), joinFields);
    }
  }

  /** A query is rejected as unsupported exactly when its trimmed text does
      not start with SELECT in some letter case. */
  lemma UnsupportedIffNotSelect(s: HashStore, keys: seq<string>, profileKey: string -> string, query: string)
    ensures Query(s, keys, profileKey, query) == Err(UnsupportedQuery) <==> !IsSelect(TrimSpace(query))
  {
    var q := TrimSpace(query);
    if IsSelect(q) {
      var parts := Split(q, " JOIN ");
      if |parts| > 1 {
        if SelectListOk(parts[0]) && SelectListOk(parts[1]) {
          JoinRowsErrKind(s, keys, profileKey, ExtractFields(parts[0]), ExtractFields(parts[1]));
        }
      } else {
        ScanErrKind(s, keys, FieldsOf(q), WhereConditions(q));
      }
    }
  }

  /** A query holding ` JOIN ` that succeeds yields one row per record: the
      WHERE clause filters nothing on this path. */
  lemma JoinIgnoresWhere(s: HashStore, keys: seq<string>, profileKey: string -> string, query: string)
    requires Contains(TrimSpace(query), " JOIN ") && Query(s, keys, profileKey, query).Ok?
    ensures |Query(s, keys, profileKey, query).value| == |keys|
  {
    var q := TrimSpace(query);
    var parts := Split(q, " JOIN ");
    JoinRowsShape(s, keys, profileKey, ExtractFields(parts[0]), ExtractFields(parts[1]));
  }

  /** A query without ` JOIN ` and without `WHERE` that succeeds yields one
      row per record. */
  lemma NoWhereEveryKey(s: HashStore, keys: seq<string>, profileKey: string -> string, query: string)
    requires !Contains(TrimSpace(query), " JOIN ") && Index(TrimSpace(query), "WHERE") == -1
    requires Query(s, keys, profileKey, query).Ok?
    ensures |Query(s, keys, profileKey, query).value| == |keys|
  {
    var q := TrimSpace(query);
    NoConditionsEveryKey(s, keys);
    ScanRows(s, keys, FieldsOf(q), map[]);
  }

  /** The record key `fmt.Sprintf("user:%d", i)` builds, and the profile
      record key `fmt.Sprintf("user_profile:%d", i)` under which the profile
      data is written. */
  function UserKey(n: nat): string {
    "user:" + Itoa(n)
  }

  function ProfileRecordKey(n: nat): string {
    "user_profile:" + Itoa(n)
  }

  /** db/joins/joins.go:182 as written: the `%d` verb is given a string, so
      Go renders the bad-verb text `%!d(string=…)` into the key. */
  function GoProfileKey(key: string): string {
    "user_profile:%!d(string=" + TrimPrefix(key, "user:") + ")"
  }

  /** The key the join evidently means: the profile record with the same
      number as the record. */
  function ProfileKey(key: string): string {
    "user_profile:" + TrimPrefix(key, "user:")
  }

  /** A key of the form the data loader writes. */
  ghost predicate WrittenKey(k: string) {
    exists n: nat :: k == UserKey(n) || k == ProfileRecordKey(n)
  }

  /** The key as written is never a written key: it has `%` where a digit of
      a profile number stands, and `_` where a record key has `:`. */
  lemma GoProfileKeyNeverWritten(key: string)
    ensures !WrittenKey(GoProfileKey(key))
  {
    var g := GoProfileKey(key);
    assert g[4] == '_' && g[13] == '%';
    forall n: nat ensures g != UserKey(n) && g != ProfileRecordKey(n) {
      assert UserKey(n)[4] == ':';
      var d := Itoa(n);
      assert IsDigit(d[0]);
      assert ProfileRecordKey(n)[13] == d[0];
    }
  }

  /** A record the store does not hold gives an empty row when no read of it
      fails. */
  lemma {:induction false} RowOfMissing(s: HashStore, key: string, fields: seq<string>)
    requires key !in s.hashes
    requires forall f :: f in fields ==> HGetCmd(key, f) !in s.faults
    ensures RowOf(s, key, fields) == Ok(map[])
  {
    if fields != [] {
      RowOfMissing(s, key, fields[..|fields| - 1]);
    }
  }

  /** As written, over a store holding only keys the data loader writes, the
      join side of every merged row is empty: no profile field ever reaches the
      result. */
  lemma GoJoinSideEmpty(s: HashStore, key: string, joinFields: seq<string>)
    requires forall k :: k in s.hashes ==> WrittenKey(k)
    requires forall f :: f in joinFields ==> HGetCmd(GoProfileKey(key), f) !in s.faults
    ensures RowOf(s, GoProfileKey(key), joinFields) == Ok(map[])
  {
    GoProfileKeyNeverWritten(key);
    RowOfMissing(s, GoProfileKey(key), joinFields);
  }

  /** Corrected, record `user:N` is joined with profile record
      `user_profile:N`, and different records with different profiles. */
  lemma ProfileKeyPairs(n: nat, m: nat)
    ensures ProfileKey(UserKey(n)) == ProfileRecordKey(n)
    ensures n != m ==> ProfileKey(UserKey(n)) != ProfileKey(UserKey(m))
  {
    assert UserKey(n)[..5] == "user:" && UserKey(n)[5..] == Itoa(n);
    assert UserKey(m)[..5] == "user:" && UserKey(m)[5..] == Itoa(m);
    if n != m && ProfileRecordKey(n) == ProfileRecordKey(m) {
      assert Itoa(n) == ProfileRecordKey(n)[13..];
      assert Itoa(m) == ProfileRecordKey(m)[13..];
      ItoaInjective(n, m);
    }
  }
}

/** db/nestedJson/nestedJson.go: the SELECT of db/joins/joins.go without the
    join and without `*`, where a dotted field such as `address.city` that the
    record does not hold is looked up in the JSON text of the record's
    `address` field. `decode` stands for `json.Unmarshal` into a
    `map[string]string`: whatever it leaves in the map (nothing, when the text
    is not such an object). */
module NestedJson {
  import opened GoStrings
  import opened Store
  import opened Results
  import opened Clauses
  import opened Where
  import Joins

  /** `extractFields`: the select list cut at its commas, the pieces left
      untrimmed; `*` is not expanded. */
  function ExtractFields(q: string): (fields: seq<string>)
    requires SelectListOk(q)
    ensures |fields| >= 1
    ensures JoinWith(fields, ",") == SelectList(q)
    ensures forall f :: f in fields ==> ',' !in f
  {
    CommaPieces(q)
  }

  /** The field list of a query, or `None` when slicing it out panics. */
  function FieldsOf(q: string): Option<seq<string>> {
    if SelectListOk(q) then Some(ExtractFields(q)) else None
  }

  /** `strings.Split(field, ".")[1]`: the text after the first dot, up to the
      next dot. */
  function Child(field: string): string
    requires Contains(field, ".")
  {
    Split(field, ".")[1]
  }

  /** Reading a missing key of a Go map gives the empty string. */
  function Lookup(m: map<string, string>, k: string): string {
    if k in m then m[k] else ""
  }

  /** The value a dotted field takes from the record's `address` field: the
      child's entry in the decoded JSON, or the empty string when `address`
      cannot be read or the child is absent. */
  function AddressChild(s: HashStore, key: string, field: string, decode: string -> map<string, string>): string
    requires Contains(field, ".")
  {
    match HGet(s, key, "address")
    case Found(addressJSON) => Lookup(decode(addressJSON), Child(field))
    case _ => ""
  }

  /** What reading one field puts into the row: `None` leaves the field out;
      a read error other than "nil" ends the query. */
  function FieldValue(s: HashStore, key: string, field: string, decode: string -> map<string, string>): Result<Option<string>> {
    match HGet(s, key, field)
    case Fail(m) => Err(StoreFailure(m))
    case Found(v) => Ok(Some(v))
    case Nil => if Contains(field, ".") then Ok(Some(AddressChild(s, key, field, decode))) else Ok(None)
  }

  /** The row a record gives for `fields`. */
  function RowOf(s: HashStore, key: string, fields: seq<string>, decode: string -> map<string, string>): Result<Row> {
    if fields == [] then Ok(map[])
    else
      match RowOf(s, key, fields[..|fields| - 1], decode)
      case Err(e) => Err(e)
      case Ok(row) =>
        var field := fields[|fields| - 1];
        match FieldValue(s, key, field, decode)
        case Err(e) => Err(e)
        case Ok(None) => Ok(row)
        case Ok(Some(v)) => Ok(row[field := v])
  }

  /** The inner loop of `handleSQLQuery`. */
  method FetchRow(s: HashStore, key: string, fields: seq<string>, decode: string -> map<string, string>)
    returns (r: Result<Row>)
    ensures r == RowOf(s, key, fields, decode)
  {
    var result: Row := map[];
    var i := 0;
    while i < |fields|
      invariant 0 <= i <= |fields|
      invariant RowOf(s, key, fields[..i], decode) == Ok(result)
    {
      assert fields[..i + 1][..i] == fields[..i];
      var field := fields[i];
      var reply := HGet(s, key, field);
      if reply.Fail? {
        RowOfStops(s, key, fields, decode, i + 1);
        return Err(StoreFailure(reply.message));
      }
      var val := if reply.Found? then reply.value else "";
      if reply.Nil? {
        if Contains(field, ".") {
          var nestedField := Split(field, ".")[1];
          var address := HGet(s, key, "address");
          if address.Found? {
            var addressData := decode(address.value);
            val := if nestedField in addressData then addressData[nestedField] else "";
          }
        } else {
          i := i + 1;
          continue;
        }
      }
      result := result[field := val];
      i := i + 1;
    }
    assert fields[..i] == fields;
    return Ok(result);
  }

  lemma {:induction false} RowOfStops(s: HashStore, key: string, fields: seq<string>, decode: string -> map<string, string>, i: int)
    requires 0 <= i <= |fields| && RowOf(s, key, fields[..i], decode).Err?
    ensures RowOf(s, key, fields, decode) == RowOf(s, key, fields[..i], decode)
  {
    if i < |fields| {
      var pre := fields[..|fields| - 1];
      assert pre[..i] == fields[..i];
      RowOfStops(s, key, pre, decode, i);
    } else {
      assert fields[..i] == fields;
    }
  }

  /** A row holds the requested fields the record holds, with their stored
      values, and every requested dotted field, with its `address` value. */
  lemma {:induction false} RowOfOk(s: HashStore, key: string, fields: seq<string>, decode: string -> map<string, string>)
    requires RowOf(s, key, fields, decode).Ok?
    ensures var row := RowOf(s, key, fields, decode).value;
      forall f :: f in row <==> f in fields && (HGet(s, key, f).Found? || Contains(f, "."))
    ensures var row := RowOf(s, key, fields, decode).value;
      forall f :: f in row && HGet(s, key, f).Found? ==> row[f] == HGet(s, key, f).value
    ensures var row := RowOf(s, key, fields, decode).value;
      forall f :: f in row && !HGet(s, key, f).Found? ==> Contains(f, ".") && row[f] == AddressChild(s, key, f, decode)
  {
    if fields != [] {
      var pre := fields[..|fields| - 1];
      RowOfOk(s, key, pre, decode);
      assert fields == pre + [fields[|fields| - 1]];
    }
  }

  /** Building a row fails exactly when the read of a requested field fails;
      a failing read of `address` for a dotted field is not among them. */
  lemma {:induction false} RowOfErr(s: HashStore, key: string, fields: seq<string>, decode: string -> map<string, string>)
    ensures RowOf(s, key, fields, decode).Err? <==>
      exists i :: 0 <= i < |fields| && HGet(s, key, fields[i]).Fail?
  {
    if fields != [] {
      var n := |fields| - 1;
      var pre := fields[..n];
      RowOfErr(s, key, pre, decode);
      if RowOf(s, key, pre, decode).Err? {
        var i :| 0 <= i < |pre| && HGet(s, key, pre[i]).Fail?;
        assert HGet(s, key, fields[i]).Fail?;
      } else if !HGet(s, key, fields[n]).Fail? {
        forall i | 0 <= i < |fields| ensures !HGet(s, key, fields[i]).Fail? {
          if i < n { assert pre[i] == fields[i]; }
        }
      }
    }
  }

  /** The value of a dotted field the record does not hold depends only on
      the part after its first dot: `address.city`, `office.city` and
      `x.city.y` all read the `city` entry of `address`. */
  lemma ParentIgnored(s: HashStore, key: string, f: string, g: string, decode: string -> map<string, string>)
    requires Contains(f, ".") && Contains(g, ".") && Child(f) == Child(g)
    requires HGet(s, key, f).Nil? && HGet(s, key, g).Nil?
    ensures FieldValue(s, key, f, decode) == FieldValue(s, key, g, decode)
    ensures FieldValue(s, key, f, decode).Ok?
  {
  }

  /** `Child` of a field with a single dot is everything after it. */
  lemma ChildOfSingleDot(field: string, i: int)
    requires 0 <= i < |field| && field[i] == '.' && Count(field, '.') == 1
    ensures Contains(field, ".") && Child(field) == field[i + 1..]
  {
    ContainsChar(field, '.');
    SplitOnce(field, '.', i);
  }

  /** The compared value of a condition on a field the record holds: for a
      dotted field, the `address` child replaces it when `address` can be
      read. */
  function Compared(s: HashStore, key: string, field: string, decode: string -> map<string, string>): string
    requires HGet(s, key, field).Found?
  {
    if Contains(field, ".") && HGet(s, key, "address").Found? then AddressChild(s, key, field, decode)
    else HGet(s, key, field).value
  }

  /** One condition of `checkConditions` holds: the literal field must be
      readable, even when it is dotted. */
  predicate Holds(s: HashStore, key: string, field: string, p: Predicate, decode: string -> map<string, string>) {
    HGet(s, key, field).Found? && Satisfies(Compared(s, key, field, decode), p)
  }

  predicate Passes(s: HashStore, key: string, conditions: Conditions, decode: string -> map<string, string>) {
    forall f :: f in conditions ==> Holds(s, key, f, conditions[f], decode)
  }

  /** `checkConditions`. */
  method CheckConditions(s: HashStore, key: string, conditions: Conditions, decode: string -> map<string, string>)
    returns (ok: bool)
    ensures ok <==> Passes(s, key, conditions, decode)
  {
    var remaining := conditions.Keys;
    while remaining != {}
      invariant remaining <= conditions.Keys
      invariant forall f :: f in conditions && f !in remaining ==> Holds(s, key, f, conditions[f], decode)
      decreases |remaining|
    {
      var field :| field in remaining;
      var reply := HGet(s, key, field);
      if !reply.Found? {
        return false;
      }
      var actualVal := reply.value;
      if Contains(field, ".") {
        var nestedField := Split(field, ".")[1];
        var address := HGet(s, key, "address");
        if address.Found? {
          var addressData := decode(address.value);
          actualVal := if nestedField in addressData then addressData[nestedField] else "";
        }
      }
      assert actualVal == Compared(s, key, field, decode);
      match conditions[field] {
        case Equals(expectedVal) =>
          if actualVal != expectedVal {
            return false;
          }
        case GreaterThan(expectedVal) =>
          var actualInt := Atoi(actualVal);
          if actualInt.None? {
            return false;
          }
          if actualInt.value <= expectedVal {
            return false;
          }
      }
      remaining := remaining - {field};
    }
    return true;
  }

  /** A condition on a dotted field the record does not hold under that
      literal name fails, whatever `address` contains. */
  lemma DottedNeedsLiteral(s: HashStore, key: string, conditions: Conditions, f: string, decode: string -> map<string, string>)
    requires f in conditions && Contains(f, ".") && !HGet(s, key, f).Found?
    ensures !Passes(s, key, conditions, decode)
  {
  }

  /** The non-join path of db/joins/joins.go with the nested lookup. */
  function Scan(s: HashStore, keys: seq<string>, fields: Option<seq<string>>, conditions: Conditions,
                decode: string -> map<string, string>): Result<seq<Row>>
  {
    if keys == [] then Ok([])
    else
      match Scan(s, keys[..|keys| - 1], fields, conditions, decode)
      case Err(e) => Err(e)
      case Ok(rows) => Visit(s, keys[|keys| - 1], fields, conditions, decode, rows)
  }

  function Visit(s: HashStore, key: string, fields: Option<seq<string>>, conditions: Conditions,
                 decode: string -> map<string, string>, rows: seq<Row>): Result<seq<Row>>
  {
    if !Passes(s, key, conditions, decode) then Ok(rows)
    else if fields.None? then Err(SlicePanic)
    else
      match RowOf(s, key, fields.value, decode)
      case Err(e) => Err(e)
      case Ok(row) => Ok(rows + [row])
  }

  lemma ScanStep(s: HashStore, keys: seq<string>, fields: Option<seq<string>>, conditions: Conditions,
                 decode: string -> map<string, string>, i: int)
    requires 0 <= i < |keys| && Scan(s, keys[..i], fields, conditions, decode).Ok?
    ensures Scan(s, keys[..i + 1], fields, conditions, decode) ==
      Visit(s, keys[i], fields, conditions, decode, Scan(s, keys[..i], fields, conditions, decode).value)
  {
    assert keys[..i + 1][..i] == keys[..i];
  }

  lemma {:induction false} ScanStops(s: HashStore, keys: seq<string>, fields: Option<seq<string>>, conditions: Conditions,
                                     decode: string -> map<string, string>, i: int)
    requires 0 <= i <= |keys| && Scan(s, keys[..i], fields, conditions, decode).Err?
    ensures Scan(s, keys, fields, conditions, decode) == Scan(s, keys[..i], fields, conditions, decode)
  {
    if i < |keys| {
      var pre := keys[..|keys| - 1];
      assert pre[..i] == keys[..i];
      ScanStops(s, pre, fields, conditions, decode, i);
    } else {
      assert keys[..i] == keys;
    }
  }

  /** The records, in order, that pass the conditions. */
  function Passing(s: HashStore, keys: seq<string>, conditions: Conditions, decode: string -> map<string, string>): seq<string> {
    if keys == [] then []
    else
      var rest := Passing(s, keys[..|keys| - 1], conditions, decode);
      if Passes(s, keys[|keys| - 1], conditions, decode) then rest + [keys[|keys| - 1]] else rest
  }

  /** A successful scan gives one row per passing record, in key order. */
  lemma {:induction false} ScanRows(s: HashStore, keys: seq<string>, fields: Option<seq<string>>, conditions: Conditions,
                                    decode: string -> map<string, string>)
    requires Scan(s, keys, fields, conditions, decode).Ok?
    ensures var rows := Scan(s, keys, fields, conditions, decode).value;
      var passing := Passing(s, keys, conditions, decode);
      |rows| == |passing| && (passing != [] ==> fields.Some?) &&
      forall i :: 0 <= i < |passing| ==> RowOf(s, passing[i], fields.value, decode) == Ok(rows[i])
  {
    if keys != [] {
      ScanRows(s, keys[..|keys| - 1], fields, conditions, decode);
    }
  }

  /** A passing record whose row cannot be built aborts the scan. */
  lemma {:induction false} ScanAborts(s: HashStore, keys: seq<string>, fields: Option<seq<string>>, conditions: Conditions,
                                      decode: string -> map<string, string>, k: int)
    requires 0 <= k < |keys| && Passes(s, keys[k], conditions, decode)
    requires fields.None? || RowOf(s, keys[k], fields.value, decode).Err?
    ensures Scan(s, keys, fields, conditions, decode).Err?
  {
    var pre := keys[..|keys| - 1];
    if k < |keys| - 1 {
      assert pre[k] == keys[k];
      ScanAborts(s, pre, fields, conditions, decode, k);
    }
  }

  /** `handleSQLQuery`, with the `fmt` rendering of the rows left to the
      caller. */
  function Query(s: HashStore, keys: seq<string>, decode: string -> map<string, string>, query: string): Result<seq<Row>> {
    var q := TrimSpace(query);
    if !IsSelect(q) then Err(UnsupportedQuery)
    else Scan(s, keys, FieldsOf(q), WhereConditions(q), decode)
  }

  /** The record loop of `handleSQLQuery`. */
  method ScanKeys(s: HashStore, keys: seq<string>, q: string, conditions: Conditions, decode: string -> map<string, string>)
    returns (r: Result<seq<Row>>)
    ensures r == Scan(s, keys, FieldsOf(q), conditions, decode)
  {
    var results: seq<Row> := [];
    var i := 0;
    while i < |keys|
      invariant 0 <= i <= |keys|
      invariant Scan(s, keys[..i], FieldsOf(q), conditions, decode) == Ok(results)
    {
      ScanStep(s, keys, FieldsOf(q), conditions, decode, i);
      var visited := VisitKey(s, keys[i], q, conditions, decode, results);
      if visited.Err? {
        ScanStops(s, keys, FieldsOf(q), conditions, decode, i + 1);
        return visited;
      }
      results := visited.value;
      i := i + 1;
    }
    assert keys[..i] == keys;
    return Ok(results);
  }

  /** One pass of the record loop: test the conditions on the record, then
      read its fields and append the row. */
  method VisitKey(s: HashStore, key: string, q: string, conditions: Conditions,
                  decode: string -> map<string, string>, rows: seq<Row>)
    returns (r: Result<seq<Row>>)
    ensures r == Visit(s, key, FieldsOf(q), conditions, decode, rows)
  {
    var pass := true;
    if |conditions| > 0 {
      pass := CheckConditions(s, key, conditions, decode);
    } else {
      assert conditions == map[];
    }
    assert pass <==> Passes(s, key, conditions, decode);
    if !pass {
      return Ok(rows);
    }
    if !SelectListOk(q) {
      return Err(SlicePanic);
    }
    var fields := ExtractFields(q);
    assert FieldsOf(q) == Some(fields);
    var result := FetchRow(s, key, fields, decode);
    if result.Err? {
      return Err(result.error);
    }
    return Ok(rows + [result.value]);
  }

  /** `handleSQLQuery`. */
  method HandleSQLQuery(s: HashStore, keys: seq<string>, decode: string -> map<string, string>, query: string)
    returns (r: Result<seq<Row>>)
    ensures r == Query(s, keys, decode, query)
  {
    var q := TrimSpace(query);
    if !HasPrefix(ToUpper(q), "SELECT") {
      return Err(UnsupportedQuery);
    }
    var whereStart := Index(q, "WHERE");
    var conditions: Conditions := map[];
    if whereStart != -1 {
      conditions := ParseWhereClause(q[whereStart..]);
    }
    r := ScanKeys(s, keys, q, conditions, decode);
  }

  /** On fields without a dot the nested variant reads rows exactly as the
      join variant does. */
  lemma {:induction false} RowOfAgrees(s: HashStore, key: string, fields: seq<string>, decode: string -> map<string, string>)
    requires forall f :: f in fields ==> '.' !in f
    ensures RowOf(s, key, fields, decode) == Joins.RowOf(s, key, fields)
  {
    if fields != [] {
      var pre := fields[..|fields| - 1];
      assert forall f :: f in pre ==> f in fields;
      RowOfAgrees(s, key, pre, decode);
      ContainsChar(fields[|fields| - 1], '.');
    }
  }

  /** On conditions without a dot the nested variant filters exactly as the
      join variant does. */
  lemma PassesAgrees(s: HashStore, key: string, conditions: Conditions, decode: string -> map<string, string>)
    requires forall f :: f in conditions ==> '.' !in f
    ensures Passes(s, key, conditions, decode) <==> Joins.Passes(s, key, conditions)
  {
    forall f | f in conditions {
      ContainsChar(f, '.');
    }
  }

  /** Over fields and conditions without a dot the two scans agree. */
  lemma {:induction false} ScanAgrees(s: HashStore, keys: seq<string>, fields: Option<seq<string>>, conditions: Conditions,
                                      decode: string -> map<string, string>)
    requires fields.Some? ==> forall f :: f in fields.value ==> '.' !in f
    requires forall f :: f in conditions ==> '.' !in f
    ensures Scan(s, keys, fields, conditions, decode) == Joins.Scan(s, keys, fields, conditions)
  {
    if keys != [] {
      var key := keys[|keys| - 1];
      ScanAgrees(s, keys[..|keys| - 1], fields, conditions, decode);
      PassesAgrees(s, key, conditions, decode);
      if fields.Some? {
        RowOfAgrees(s, key, fields.value, decode);
      }
    }
  }

  /** A query without ` JOIN `, without `*` and without dotted names gives the
      same rows here as in db/joins/joins.go. */
  lemma QueryAgrees(s: HashStore, keys: seq<string>, decode: string -> map<string, string>,
                    profileKey: string -> string, query: string)
    requires !Contains(TrimSpace(query), " JOIN ")
    requires SelectListOk(TrimSpace(query)) ==> SelectList(TrimSpace(query)) != "*"
    requires SelectListOk(TrimSpace(query)) ==> forall f :: f in ExtractFields(TrimSpace(query)) ==> '.' !in f
    requires forall f :: f in WhereConditions(TrimSpace(query)) ==> '.' !in f
    ensures Query(s, keys, decode, query) == Joins.Query(s, keys, profileKey, query)
  {
    var q := TrimSpace(query);
    assert FieldsOf(q) == Joins.FieldsOf(q);
    ScanAgrees(s, keys, FieldsOf(q), WhereConditions(q), decode);
  }

  /** `*` is not expanded: it is requested as a field named `*`. */
  lemma StarNotExpanded(q: string)
    requires SelectListOk(q) && SelectList(q) == "*"
    ensures ExtractFields(q) == ["*"]
  {
    assert ExtractFields(q) == Split("*", ",");
  }
}

# DbParser query engine in Dafny

DbParser runs a small SQL-like language over a Redis/KeyDB store. A query
`SELECT <fields> FROM <table> [JOIN …] [WHERE <conditions>]` is cut into clauses
by substring search. The WHERE text becomes a map from field name to an
expected string or an integer threshold. The query is then answered from
per-key hashes. The repository holds four variants of the engine, and this
model covers each of them:

- `db/joins/joins.go`: scans the records `user:1 … user:N` and filters them by
  the WHERE conditions. When the query holds ` JOIN `, it instead merges every
  record with a profile record and ignores the WHERE clause. `*` stands for the
  four fields `name, email, age, country`.
- `db/nestedJson/nestedJson.go`: the same scan without the join and without
  `*`. A dotted field such as `address.city` that the record does not hold is
  read from the JSON text stored in the record's `address` field.
- `db/complex/complex.go`: reads the one record `user:1001` with strict
  errors. The record must exist, every WHERE equality must hold, and every
  requested field must be present.
- `db/main.go`: takes the text between `key='` and the next quote as a key
  and returns its string value.

The store is an immutable value (`Store.HashStore`, `Store.StringStore`). Each
read gives `Found(v)`, `Nil` (the store's "nil" reply) or `Fail(message)`. A
fault table in the store value says which commands fail. Errors are
`Results.QueryError` values inside a `Result`. A Go runtime panic
(`query[a:b]` out of range) is the error `SlicePanic`, raised at the exact
point where the Go code would panic. Loops that walk a Go map pick their next
key with `:|`, so every visiting order is covered.

Modules:

- `GoStrings`: the part of Go's `strings` and `strconv` the engine uses
  (`Index`, `Split`, `TrimSpace`, `Trim`, `ToUpper`, `Atoi`), with lemmas about
  them.
- `Store` and `Results`: the store and the errors.
- `Clauses`: the `SELECT` verb test and the select-list slice.
- `Where`: the WHERE parser that `joins.go` and `nestedJson.go` share
  character for character. Lines 253-284 of `db/nestedJson/nestedJson.go`
  repeat lines 285-316 of `db/joins/joins.go`, so both files are modelled by
  the same `Where.ParseWhereClause`.
- `Joins`, `NestedJson`, `Complex` and `KeyLookup` (for `db/main.go`): one
  module per variant.
- `JoinsDemo`: the query that the benchmark in `db/joins/joins.go` runs.

Each state-changing loop of the Go code is a method with loop invariants,
proved against a specification stated without the loop:

- The key, field, join and WHERE loops are proved equal to a recursive
  specification function. The properties are proved about that function as
  lemmas.
- The condition loops that walk a Go map are proved against the condition
  set. In `db/joins/joins.go` and `db/nestedJson/nestedJson.go` the answer is
  true exactly when every condition holds. In `db/complex/complex.go`
  (`Complex.CheckConditions`) the answer is `None` exactly when no condition
  fails, and otherwise some member of the set of possible errors
  (`ConditionErrors`), since the map order decides which one is reported.
- Two loops are proved against a closed form. The copy loop
  (`Joins.CopyInto`) gives the destination map updated by the source map,
  `dst + src`. The in-place trim loop (`Complex.TrimInPlace`) leaves every
  array cell equal to its old value trimmed.

Some behaviour of the code that the model keeps as written:

- A missing ` FROM ` is a slice panic (`SlicePanic`).
- The join does not pair `user:N` with `user_profile:N` (see Findings).
- A dotted field whose child is absent is inserted with the value `""`.
- A condition on a dotted field needs the literal dotted field to exist.
- The benchmark query in `db/joins/joins.go` has no ` FROM ` in its join
  half, so it always ends in the slice panic (`JoinsDemo.DemoQueryPanics`).

## Model

| member | source | states |
|---|---|---|
| `Clauses.AnyCaseSelect` | db/joins/joins.go:113 | The verb test ignores letter case: a query passes exactly when its first six characters, upper-cased one by one, spell `SELECT`, in whatever mix of cases they are written. |
| `Clauses.LowerCaseSelect` | db/joins/joins.go:113 | The two usual spellings: `select …` and `SELECT …` are both accepted. |
| `Joins.ExtractFields` | db/joins/joins.go:97-107 | If the trimmed select list is `*`, the result is exactly `name, email, age, country`. Otherwise the result is the comma pieces, untrimmed: there is at least one piece (`[""]` for an empty list, as with Go's `strings.Split`), joined with commas they give the list back, and no piece holds a comma. Requires ` FROM ` at index 7 or later. |
| `Where.ParseWhereClause` | db/joins/joins.go:285-316 | The loop computes `Parse`: the entries of the conjuncts, split on `AND`, gathered in order into a map. |
| `Where.EntryGreaterThan` | db/joins/joins.go:295-303 | A conjunct with one `>` gives `GreaterThan(n)` exactly when the trimmed right side parses as a Go int. With more than one `>`, it gives nothing. |
| `Where.EntryEquals` | db/joins/joins.go:304-311 | A conjunct without `>` and with exactly one `=` gives `Equals`, with quotes trimmed before spaces on both sides. With more than one `=`, it gives nothing. |
| `Where.GatherDomain` | db/joins/joins.go:291-313 | A field is in the condition map exactly when some conjunct produced an entry for it. |
| `Where.ItoaComparesAsNumber` | db/joins/joins.go:272-278 | An `age` the loader writes with `strconv.Itoa` (line 48) passes `age > t` exactly when the number is greater than `t`. |
| `Where.ParseLastWins` | db/joins/joins.go:291-313 | A field's value is the entry of the last conjunct that names it. |
| `Joins.CheckConditions` | db/joins/joins.go:259-283 | True exactly when every condition's field reads `Found` and the value is equal to the string, or parses as an int greater than the threshold. A `Nil` or failed read gives false. The answer is the same for every map visiting order. |
| `Joins.FetchRow` | db/joins/joins.go:137-147 | The per-field loop computes `RowOf`: `Nil` fields are skipped, and the first failed read is returned as the error. |
| `Joins.RowOfOk` | db/joins/joins.go:138-147 | A row's domain is exactly the requested fields that read `Found`, and each maps to its stored value. |
| `Joins.RowOfErr` | db/joins/joins.go:139-142 | A row fails exactly when some requested field's read fails. The error is that of the first failing field. |
| `Joins.ScanKeys` | db/joins/joins.go:131-149 | The record loop computes `Scan`. Records failing the conditions are skipped, and the first panic or store error stops the loop. |
| `Joins.VisitKey` | db/joins/joins.go:132-148 | One pass of the record loop computes `Visit`: skip, panic, store error, or the row appended. |
| `Joins.ScanRows` | db/joins/joins.go:131-149 | A successful scan gives one row per passing record, in key order. Each row is that record's `RowOf` for the field list. |
| `Joins.PassingMembers` | db/joins/joins.go:131-134 | The passing records are exactly those keys for which `CheckConditions` holds. |
| `Joins.NoConditionsEveryKey` | db/joins/joins.go:132 | With no conditions, every key passes. |
| `Joins.ScanAborts` | db/joins/joins.go:136-142 | A passing record whose row fails, or whose select list does not slice, makes the whole query an error, with no rows. |
| `Joins.ScanPanicOnly` | db/joins/joins.go:100-136 | If the select list does not slice, the only error a scan can end with is the panic. |
| `Joins.HandleSQLQuery` | db/joins/joins.go:109-154 | The handler computes `Query`: an unsupported verb, then the join path when ` JOIN ` occurs, and otherwise the filtered scan. |
| `Joins.UnsupportedIffNotSelect` | db/joins/joins.go:110-153 | The result is "unsupported query" exactly when the trimmed, upper-cased query does not start with `SELECT`. |
| `Joins.NoWhereEveryKey` | db/joins/joins.go:119-149 | A successful query without ` JOIN ` and without `WHERE` gives one row per key. |
| `Joins.HandleJoinQuery` | db/joins/joins.go:156-206 | Computes `JoinQuery`. If either half's select list does not slice, it panics before any read. |
| `Joins.JoinKeys` | db/joins/joins.go:169-203 | The join loop computes `JoinRows`. The first failed read ends the query with that error. |
| `Joins.JoinStep` | db/joins/joins.go:169-203 | One more record extends the join by the merged main and profile rows, or ends it with the first read error. |
| `Joins.CopyInto` | db/joins/joins.go:196-201 | A copy loop writes every entry of the source map over the target: the result is `dst + src`. |
| `Joins.Merge` | db/joins/joins.go:195-201 | The merged row's domain is the union of both rows. On a shared field, the join row's value wins. Every other field keeps the main row's value. |
| `Joins.JoinRowsShape` | db/joins/joins.go:169-203 | A successful join gives exactly one row per key, with no filtering. Row i is the main row of key i overridden by the profile row. |
| `Joins.JoinIgnoresWhere` | db/joins/joins.go:114-116 | A successful query holding ` JOIN ` has as many rows as there are keys, whatever its WHERE clause says. |
| `Joins.GoProfileKeyNeverWritten` | db/joins/joins.go:182 | The profile key the code builds, `user_profile:%!d(string=N)`, is never a `user:N` or `user_profile:N` key. |
| `Joins.GoJoinSideEmpty` | db/joins/joins.go:182-193 | As written, over a store holding only loader-written keys, the join side of every merged row is empty. |
| `Joins.ProfileKeyPairs` | db/joins/joins.go:182 | The corrected profile key pairs `user:N` with `user_profile:N`, and different records with different profiles. |
| `JoinsDemo.JoinHalfWithoutFrom` | db/joins/joins.go:97-100 | A SELECT of the form `a JOIN b` with no `J` in `a`, and neither `J` nor `F` in `b`, splits into exactly `[a, b]`. `extractFields(b)` then panics before any record is read. |
| `JoinsDemo.DemoQueryPanics` | db/joins/joins.go:76-80 | The benchmark query `SELECT email, bio FROM keydb WHERE age > 25 AND country='India' JOIN user_profile ON user.id = user_profile.id` ends in `SlicePanic` for every store and key list. |
| `NestedJson.ExtractFields` | db/nestedJson/nestedJson.go:94-101 | The select list is cut at commas with no trimming. Joining the pieces gives the list back, and no piece holds a comma. |
| `NestedJson.StarNotExpanded` | db/nestedJson/nestedJson.go:94-101 | `*` is not expanded: it is requested as the single field `*`. |
| `NestedJson.FetchRow` | db/nestedJson/nestedJson.go:133-153 | The per-field loop, including the `address` fallback, computes `RowOf`. |
| `NestedJson.RowOfOk` | db/nestedJson/nestedJson.go:133-152 | A row holds the requested fields that read `Found`, with their values, and every requested dotted field. A dotted field that reads `Nil` gets the `address` child, or `""`. A non-dotted `Nil` field is omitted. |
| `NestedJson.RowOfErr` | db/nestedJson/nestedJson.go:134-147 | A row fails exactly when the read of a requested field fails. A failing read of `address` is swallowed. |
| `NestedJson.ParentIgnored` | db/nestedJson/nestedJson.go:140-147 | Two dotted `Nil` fields with the same second component get the same value, whatever their parent names. |
| `NestedJson.ChildOfSingleDot` | db/nestedJson/nestedJson.go:141 | For a field with one dot, the child looked up is everything after the dot. |
| `NestedJson.CheckConditions` | db/nestedJson/nestedJson.go:216-251 | True exactly when every condition's literal field reads `Found`, and the compared value satisfies the condition. For a dotted field, the compared value is the `address` child when `address` reads `Found`. Any visiting order gives the same answer. |
| `NestedJson.DottedNeedsLiteral` | db/nestedJson/nestedJson.go:218-232 | A condition on a dotted field fails whenever the literal dotted field does not read `Found`. |
| `NestedJson.ScanKeys` | db/nestedJson/nestedJson.go:122-157 | The record loop computes `Scan`. |
| `NestedJson.VisitKey` | db/nestedJson/nestedJson.go:123-156 | One pass of the record loop computes `Visit`. |
| `NestedJson.ScanRows` | db/nestedJson/nestedJson.go:122-157 | A successful scan gives one row per passing record, in key order. |
| `NestedJson.ScanAborts` | db/nestedJson/nestedJson.go:130-137 | A passing record whose row fails, or whose select list does not slice, makes the query an error. |
| `NestedJson.HandleSQLQuery` | db/nestedJson/nestedJson.go:103-163 | The handler computes `Query`: an unsupported verb, or the filtered scan. |
| `NestedJson.PassesAgrees` | db/nestedJson/nestedJson.go:216-251 | On conditions without a dot, the filter agrees with the `joins.go` filter. |
| `NestedJson.QueryAgrees` | db/nestedJson/nestedJson.go:103-163 | A query without ` JOIN `, `*` or dotted names gives the same result here as in `joins.go`. |
| `Complex.ParseWhereClause` | db/complex/complex.go:127-146 | The loop computes `ParseEq`: string entries only, gathered in order. |
| `Complex.EqEntryShape` | db/complex/complex.go:136-142 | A conjunct with exactly one `=` gives its two sides, with quotes trimmed before spaces. More than one `=` gives nothing. |
| `Complex.NoEqualsNoEntry` | db/complex/complex.go:137-138 | A conjunct without `=`, such as `age > 25`, gives nothing. |
| `Complex.AgreesWithJoinsParser` | db/complex/complex.go:136-142 | On conjuncts without `>`, this parser and the `joins.go` parser give the same equality. |
| `Complex.ParseEqLastWins` | db/complex/complex.go:135-143 | The last conjunct naming a field decides its expected value. |
| `Complex.TrimmedFieldsShape` | db/complex/complex.go:75-78 | The pieces join back with commas to the trimmed field list, and no piece holds a comma. There is one field per piece, and it is that piece trimmed. So no field holds a comma or starts or ends with a space. |
| `Complex.TrimInPlace` | db/complex/complex.go:76-78 | Every element of the array is replaced by its trimmed text. |
| `Complex.TrimPieces` | db/complex/complex.go:75-78 | The split pieces come back one for one, each trimmed. |
| `Complex.SelectFields` | db/complex/complex.go:70-78 | Slicing, splitting and trimming in place give `TrimmedFields`. |
| `Complex.SelectEndNeverMinusOne` | db/complex/complex.go:70-73 | The computed end is at least 6. It is 6 exactly when ` FROM ` is missing, so the `-1` test never fires. |
| `Complex.MissingFromPanics` | db/complex/complex.go:70-75 | As written, a SELECT on an existing record without ` FROM ` ends in a slice panic. |
| `Complex.IntendedOutcomes` | db/complex/complex.go:70-75 | Corrected: a SELECT on an existing `user:1001` whose field list cannot be sliced out gives exactly "invalid SQL query". Every other query gives exactly the outcomes of the code as written, so no outcome is a panic. |
| `Complex.CheckConditions` | db/complex/complex.go:88-101 | Returns no error exactly when every condition's field reads `Found` with the expected value. Otherwise it returns one of the missing-field, store or condition errors, whichever the visiting order meets first. |
| `Complex.CheckedConditionFails` | db/complex/complex.go:88-101 | An unmet condition makes every possible result an error, and its own error is among them. |
| `Complex.FetchFields` | db/complex/complex.go:104-114 | The field loop computes `FetchAll`. A `Nil` field is "field not found", and the first error ends the loop. |
| `Complex.FetchAllOk` | db/complex/complex.go:104-114 | Fetching succeeds exactly when every field reads `Found`. The row's domain is then exactly the field set, with the stored values. |
| `Complex.RunChecked` | db/complex/complex.go:87-119 | The condition loop, then the field loop, give one of the results `Checked` allows. |
| `Complex.HandleSQLQuery` | db/complex/complex.go:49-123 | The handler's result is one of `Outcomes`: unsupported verb, exists error, missing key, slice panic, a condition error, or the fetched row. |
| `Complex.SuccessExact` | db/complex/complex.go:104-119 | A success is the only possible result. Its domain is exactly the trimmed field set, each mapped to its stored value, and every condition holds on the record. |
| `Complex.FailedConditionAborts` | db/complex/complex.go:88-101 | A condition whose field is missing, unreadable or different makes every possible result an error. |
| `Complex.MissingFieldFails` | db/complex/complex.go:105-112 | A requested field the record does not hold makes the result an error. |
| `Complex.KeyMissingFirst` | db/complex/complex.go:57-66 | Without the record `user:1001`, a SELECT gives only the key error, before any field is read. |
| `Complex.UnsupportedIffNotSelect` | db/complex/complex.go:50-54 | "unsupported query" is a possible result exactly when the trimmed query does not start with SELECT in some letter case. |
| `KeyLookup.Query` | db/main.go:44-72 | `handleSQLQuery`: "unsupported query" exactly when the trimmed, upper-cased query does not start with `SELECT`. Every other error is "invalid SQL query", "key not found" or the store's own error, so the handler never panics. The lemmas below state which key it reads. |
| `KeyLookup.KeyStart` | db/main.go:49 | The key starts just after the first `key='`, or at 4 exactly when there is no `key='`. |
| `KeyLookup.KeyEnd` | db/main.go:50 | The end is the first quote at or after the start, or `start - 1` exactly when there is none. |
| `KeyLookup.Fetch` | db/main.go:60-68 | The lookup succeeds exactly when GET finds the key. Its only errors are "key not found" and a store error. |
| `KeyLookup.StartInBounds` | db/main.go:49-50 | For a SELECT, the start lies between 4 and the query length, so `query[start:]` never panics. |
| `KeyLookup.DeadGuards` | db/main.go:52-54 | Neither `start` nor `end` is ever -1. |
| `KeyLookup.KeyBetweenQuotes` | db/main.go:49-68 | For `pre key='k' post` with its first `key='` after `pre`, a non-empty quote-free `k` is looked up. The result is GET's value, "key not found" for `Nil`, or the store's own error unchanged. An empty `k` is "invalid SQL query". |
| `KeyLookup.InvalidIff` | db/main.go:50-54 | A SELECT is "invalid SQL query" exactly when no quote follows the start, or the key is empty. |
| `KeyLookup.UnsupportedIffNotSelect` | db/main.go:46-71 | "unsupported query" exactly when the trimmed, upper-cased query does not start with `SELECT`. |
| `KeyLookup.NoMarkerStartsAtFour` | db/main.go:49-57 | Without `key='`, the key runs from index 4 to the next quote. |
| `KeyLookup.NoMarkerReadsFromFour` | db/main.go:49-57 | `SELECT x FROM t WHERE id='a'` looks up the key `CT x FROM t WHERE id=`. |
| `KeyLookup.IntendedQuery` | db/main.go:52-54 | Corrected: a SELECT without `key='` is "invalid SQL query". Every other query, including every non-SELECT, gets the same result as the code as written. |
| `KeyLookup.IntendedReadsMarkedKey` | db/main.go:49-68 | Corrected: every successful lookup reads the text between the first `key='` and the next quote. |

## Left out

- The `main` functions (random data, `HMSet`/`Set` writes, timing, printing) and `plotGraph` (chart rendering) are not modelled. They are benchmarking and I/O.
- The handlers' own logging is not modelled: `fmt.Printf` at db/joins/joins.go:111, db/nestedJson/nestedJson.go:105 and db/complex/complex.go:52, 67 and 117. It is output only and changes no result.
- The Redis client and `context` are replaced by the immutable store value. Connection errors are the store's fault table.
- `json.Unmarshal` is the parameter `decode`, which gives the map it fills (empty when the text is not an object of strings). A partial fill on a type error is whatever `decode` returns.
- `fmt.Sprintf("%v", results)` is not modelled: the handlers return the rows or the map itself.
- The key lists built by `make([]string, numUsers)` at db/joins/joins.go:126-129 and 164-167 and db/nestedJson/nestedJson.go:117-120 are not modelled: the list is the parameter `keys`. A negative `numUsers` makes `make` panic there, and the model does not capture that panic.
- The key list `user:1 … user:N` is the parameter `keys`. In `joins.go` the profile key is the parameter `profileKey`. `Joins.GoProfileKey` is the key as written, and `Joins.ProfileKey` is the corrected one.
- Go map iteration order is any order. `Complex.HandleSQLQuery` can therefore only promise one of a set of results, because which condition error is returned depends on that order.
- Characters stand for bytes, and `ToUpper` maps ASCII letters only. `IsSpace` follows `unicode.IsSpace` on runes, so it also accepts U+0085, U+00A0, U+1680, U+2000 to U+200A, U+2028, U+2029, U+202F, U+205F and U+3000. Go's `TrimSpace` decodes UTF-8 and does not cut a lone 0x85 or 0xA0 byte. The model matches Go on ASCII text only. Go's `strings.ToUpper` also maps U+017F (long s) to `S`, so Go accepts a verb such as `ſELECT` that this model rejects.
- A Go panic is the error value `SlicePanic`, not a crash of the program.
- `Joins.ExtractFields`: requires ` FROM ` at index 7 or later, because the Go slice panics otherwise. The callers model that panic as `SlicePanic`.
- `NestedJson.ExtractFields`: requires ` FROM ` at index 7 or later, for the same reason.
- `Complex.HandleSQLQuery`: states membership in the set of results the map order allows, not which one is returned.
- `KeyLookup.Query` has a `SlicePanic` branch for `start > len(query)`. Its contract and `KeyLookup.StartInBounds` show that this branch is never taken.

## Findings

| source | as written | input that shows it | evidently intended | confidence | as-written member | corrected member |
|---|---|---|---|---|---|---|
| db/joins/joins.go:182 | the `%d` verb is given the key's suffix as a string, so the key renders as `user_profile:%!d(string=N)` | any key `user:N` | the profile key `user_profile:N` | high; not executed | `Joins.GoJoinSideEmpty` | `Joins.ProfileKeyPairs` |
| db/complex/complex.go:70-73 | a missing ` FROM ` makes `selectEnd` 6, and `query[7:6]` panics before the `selectEnd == -1` test | `SELECT name` with record `user:1001` present | "invalid SQL query" | high; not executed | `Complex.MissingFromPanics` | `Complex.IntendedOutcomes` |
| db/main.go:49-52 | `len("key='")` is added before the `start == -1` test, so a missing `key='` starts the key at index 4 | `SELECT x FROM t WHERE id='a'` reads key `CT x FROM t WHERE id=` | "invalid SQL query" | high; not executed | `KeyLookup.NoMarkerReadsFromFour` | `KeyLookup.IntendedQuery` |

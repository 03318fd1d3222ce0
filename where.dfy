/** The WHERE-clause parser of db/joins/joins.go, which db/nestedJson/nestedJson.go
    repeats character for character: strip `WHERE`, split on `AND`, and turn
    each conjunct into a greater-than or an equality condition. The generic
    `Gather` (last entry for a field wins) is shared with the equality-only
    parser of db/complex/complex.go. */
module Where {
  import opened GoStrings

  /** A parsed condition value: a string to compare with, or an integer
      threshold. The Go code stores these as `interface{}` holding a
      `string` or an `int`. */
  datatype Predicate = Equals(expected: string) | GreaterThan(threshold: int)

  type Conditions = map<string, Predicate>

  /** The comparison `checkConditions` makes once a field value is read. */
  predicate Satisfies(actual: string, p: Predicate) {
    match p
    case Equals(e) => actual == e
    case GreaterThan(t) => Atoi(actual).Some? && Atoi(actual).value > t
  }

  /** An age the loaders write with `strconv.Itoa` satisfies `age > t`
      exactly when the number is greater than `t`. */
  lemma ItoaComparesAsNumber(n: int, t: int)
    requires MinInt <= n <= MaxInt
    ensures Satisfies(Itoa(n), GreaterThan(t)) <==> n > t
  {
    AtoiItoa(n);
  }

  /** The conjuncts of a WHERE clause, untrimmed. */
  function Conjuncts(clause: string): seq<string> {
    Split(TrimSpace(TrimPrefix(clause, "WHERE")), "AND")
  }

  /** An `=` conjunct: exactly two pieces, each with quotes trimmed first
      and spaces second. */
  function EqualityEntry(c: string): Option<(string, string)> {
    var parts := Split(c, "=");
    if |parts| == 2 then Some((TrimSpace(Trim(parts[0], "'")), TrimSpace(Trim(parts[1], "'"))))
    else None
  }

  /** The entry one conjunct contributes, if any. */
  function Entry(conjunct: string): Option<(string, Predicate)> {
    var c := TrimSpace(conjunct);
    if Contains(c, ">") then
      var parts := Split(c, ">");
      if |parts| == 2 then
        match Atoi(TrimSpace(parts[1]))
        case Some(n) => Some((TrimSpace(parts[0]), GreaterThan(n)))
        case None => None
      else None
    else
      match EqualityEntry(c)
      case Some(fv) => Some((fv.0, Equals(fv.1)))
      case None => None
  }

  /** The entry of each conjunct, in order. */
  function Entries(cs: seq<string>): (es: seq<Option<(string, Predicate)>>)
    ensures |es| == |cs|
  {
    if cs == [] then [] else Entries(cs[..|cs| - 1]) + [Entry(cs[|cs| - 1])]
  }

  lemma {:induction false} EntriesAt(cs: seq<string>, k: int)
    requires 0 <= k < |cs|
    ensures Entries(cs)[k] == Entry(cs[k])
  {
    if k < |cs| - 1 {
      assert cs[..|cs| - 1][k] == cs[k];
      EntriesAt(cs[..|cs| - 1], k);
    }
  }

  /** Fill a map in order from the entries, so a later entry for a field
      replaces an earlier one. */
  function Gather<V>(es: seq<Option<(string, V)>>): map<string, V> {
    if es == [] then map[]
    else
      Add(Gather(es[..|es| - 1]), es[|es| - 1])
  }

  /** One step of `Gather`. */
  function Add<V>(m: map<string, V>, e: Option<(string, V)>): map<string, V> {
    match e
    case None => m
    case Some(fv) => m[fv.0 := fv.1]
  }

  lemma EntriesSnoc(cs: seq<string>, i: int)
    requires 0 <= i < |cs|
    ensures Gather(Entries(cs[..i + 1])) == Add(Gather(Entries(cs[..i])), Entry(cs[i]))
  {
    assert cs[..i + 1][..i] == cs[..i];
    var es := Entries(cs[..i]);
    assert Entries(cs[..i + 1]) == es + [Entry(cs[i])];
    assert (es + [Entry(cs[i])])[..i] == es;
  }

  /** The conditions a WHERE clause (starting at `WHERE`) parses to. */
  function Parse(clause: string): Conditions {
    Gather(Entries(Conjuncts(clause)))
  }

  /** The conditions of a whole query: parsed from the first `WHERE` on, or
      none when the query has no `WHERE`. */
  function WhereConditions(q: string): Conditions {
    var w := Index(q, "WHERE");
    if w != -1 then Parse(q[w..]) else map[]
  }

  /** The body of `parseWhereClause`'s loop for one conjunct: the entry it
      stores, if any. */
  method ParseCondition(conjunct: string) returns (entry: Option<(string, Predicate)>)
    ensures entry == Entry(conjunct)
  {
    entry := None;
    var condition := TrimSpace(conjunct);
    if Contains(condition, ">") {
      var parts := Split(condition, ">");
      if |parts| == 2 {
        var field := TrimSpace(parts[0]);
        var value := Atoi(TrimSpace(parts[1]));
        if value.Some? {
          entry := Some((field, GreaterThan(value.value)));
        }
      }
    } else {
      var parts := Split(condition, "=");
      if |parts| == 2 {
        var field := TrimSpace(Trim(parts[0], "'"));
        var value := TrimSpace(Trim(parts[1], "'"));
        entry := Some((field, Equals(value)));
      }
    }
  }

  /** `parseWhereClause`: the conditions of a WHERE clause, in the map order
      the conjuncts give. */
  method ParseWhereClause(whereClause: string) returns (conditions: Conditions)
    ensures conditions == Parse(whereClause)
  {
    conditions := map[];
    var conditionsList := Split(TrimSpace(TrimPrefix(whereClause, "WHERE")), "AND");
    var i := 0;
    while i < |conditionsList|
      invariant 0 <= i <= |conditionsList|
      invariant conditions == Gather(Entries(conditionsList[..i]))
    {
      var entry := ParseCondition(conditionsList[i]);
      if entry.Some? {
        conditions := conditions[entry.value.0 := entry.value.1];
      }
      EntriesSnoc(conditionsList, i);
      i := i + 1;
    }
    assert conditionsList[..i] == conditionsList;
  }

  /** A field has an entry exactly when some conjunct produced one for it. */
  lemma {:induction false} GatherDomain<V>(es: seq<Option<(string, V)>>, f: string)
    ensures f in Gather(es) <==> exists i :: 0 <= i < |es| && es[i].Some? && es[i].value.0 == f
  {
    if es != [] {
      var pre := es[..|es| - 1];
      GatherDomain(pre, f);
      if exists i :: 0 <= i < |pre| && pre[i].Some? && pre[i].value.0 == f {
        var i :| 0 <= i < |pre| && pre[i].Some? && pre[i].value.0 == f;
        assert es[i] == pre[i];
      }
      if exists i :: 0 <= i < |es| && es[i].Some? && es[i].value.0 == f {
        var i :| 0 <= i < |es| && es[i].Some? && es[i].value.0 == f;
        if i < |pre| { assert pre[i] == es[i]; }
      }
    }
  }

  /** The entry of the last conjunct that names a field is the one kept. */
  lemma {:induction false} GatherLastWins<V>(es: seq<Option<(string, V)>>, i: int, f: string, v: V)
    requires 0 <= i < |es| && es[i] == Some((f, v))
    requires forall j :: i < j < |es| ==> es[j].None? || es[j].value.0 != f
    ensures f in Gather(es) && Gather(es)[f] == v
  {
    var pre := es[..|es| - 1];
    if i < |es| - 1 {
      assert pre[i] == es[i];
      GatherLastWins(pre, i, f, v);
    }
  }

  /** A conjunct with exactly one `>`, at `i` of the trimmed text, yields a
      threshold exactly when the trimmed right side is a Go integer; a
      conjunct with several `>` yields nothing. */
  lemma EntryGreaterThan(conjunct: string, i: int)
    requires var c := TrimSpace(conjunct); 0 <= i < |c| && c[i] == '>'
    ensures var c := TrimSpace(conjunct);
      Count(c, '>') == 1 ==>
        Entry(conjunct) == match Atoi(TrimSpace(c[i + 1..]))
                           case Some(n) => Some((TrimSpace(c[..i]), GreaterThan(n)))
                           case None => None
    ensures Count(TrimSpace(conjunct), '>') > 1 ==> Entry(conjunct) == None
  {
    var c := TrimSpace(conjunct);
    ContainsChar(c, '>');
    SplitCount(c, '>');
    if Count(c, '>') == 1 {
      SplitOnce(c, '>', i);
    }
  }

  /** A conjunct without `>` yields an equality entry exactly when it holds
      one `=`; both sides have quotes trimmed before spaces. */
  lemma EntryEquals(conjunct: string, i: int)
    requires var c := TrimSpace(conjunct); 0 <= i < |c| && c[i] == '=' && '>' !in c
    ensures var c := TrimSpace(conjunct);
      Count(c, '=') == 1 ==>
        Entry(conjunct) == Some((TrimSpace(Trim(c[..i], "'")), Equals(TrimSpace(Trim(c[i + 1..], "'")))))
    ensures Count(TrimSpace(conjunct), '=') > 1 ==> Entry(conjunct) == None
  {
    var c := TrimSpace(conjunct);
    ContainsChar(c, '>');
    SplitCount(c, '=');
    if Count(c, '=') == 1 {
      SplitOnce(c, '=', i);
    }
  }

  /** Parsing keeps, for each field, exactly the entry of the last conjunct
      that names it. */
  lemma ParseLastWins(clause: string, i: int, f: string, p: Predicate)
    requires var cs := Conjuncts(clause); 0 <= i < |cs| && Entry(cs[i]) == Some((f, p))
    requires var cs := Conjuncts(clause);
      forall j :: i < j < |cs| ==> Entry(cs[j]).None? || Entry(cs[j]).value.0 != f
    ensures f in Parse(clause) && Parse(clause)[f] == p
  {
    var cs := Conjuncts(clause);
    var es := Entries(cs);
    EntriesAt(cs, i);
    forall j | i < j < |es| ensures es[j].None? || es[j].value.0 != f {
      EntriesAt(cs, j);
    }
    GatherLastWins(es, i, f, p);
  }
}

/** Clause extraction shared by the query handlers: the verb test and the
    field list between `SELECT ` and ` FROM `. */
module Clauses {
  import opened GoStrings

  /** The verb test every handler applies to the trimmed query: it starts
      with `SELECT` in any letter case. */
  predicate IsSelect(q: string) {
    HasPrefix(ToUpper(q), "SELECT")
  }

  /** `query[len("SELECT "):strings.Index(query, " FROM ")]` is in bounds only
      when ` FROM ` first occurs at position 7 or later; otherwise the slice
      panics. */
  predicate SelectListOk(q: string) {
    Index(q, " FROM ") >= 7
  }

  /** The trimmed text between `SELECT ` and the first ` FROM `. */
  function SelectList(q: string): string
    requires SelectListOk(q)
  {
    TrimSpace(q[7..Index(q, " FROM ")])
  }

  /** The select list cut at its commas, each piece left untrimmed: joining
      the pieces with commas gives the select list back, and no piece holds a
      comma. */
  function CommaPieces(q: string): (fields: seq<string>)
    requires SelectListOk(q)
    ensures |fields| >= 1
    ensures JoinWith(fields, ",") == SelectList(q)
    ensures forall f :: f in fields ==> ',' !in f
  {
    var list := SelectList(q);
    SplitJoin(list, ",");
    SplitPieces(list, ",");
    assert forall f :: f in Split(list, ",") ==> ',' !in f by {
      forall f | f in Split(list, ",") { ContainsChar(f, ','); }
    }
    Split(list, ",")
  }

  /** The verb test ignores letter case: a query passes exactly when its
      first six characters, each upper-cased, spell `SELECT`, whatever their
      case. */
  lemma AnyCaseSelect(q: string)
    ensures IsSelect(q) <==> |q| >= 6 && forall i :: 0 <= i < 6 ==> Upper(q[i]) == "SELECT"[i]
  {
    if |q| >= 6 {
      var u := ToUpper(q)[..6];
      assert forall i :: 0 <= i < 6 ==> u[i] == Upper(q[i]);
      if forall i :: 0 <= i < 6 ==> Upper(q[i]) == "SELECT"[i] {
        assert u == "SELECT";
      }
    }
  }

  /** In particular a query written with a lower-case `select` is accepted
      like one written in capitals. */
  lemma LowerCaseSelect(rest: string)
    ensures IsSelect("select" + rest) && IsSelect("SELECT" + rest)
  {
    assert ToUpper("select" + rest)[..6] == "SELECT";
    assert ToUpper("SELECT" + rest)[..6] == "SELECT";
  }
}

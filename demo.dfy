/** The query the benchmark in db/joins/joins.go runs: a SELECT whose join
    half has no ` FROM `. */
module JoinsDemo {
  import opened GoStrings
  import opened Store
  import opened Results
  import opened Clauses
  import opened Joins

  /** The demo query's text before ` JOIN `. */
  const DemoMain: string := "SELECT" + DemoSelect + DemoWhere
  const DemoSelect: string := " email, bio FROM keydb "
  const DemoWhere: string := "WHERE age > 25 AND country='India'"

  /** The demo query's text after ` JOIN `: it holds no ` FROM `. */
  const DemoJoin: string := "user_profile ON user.id = user_profile.id"

  /** The query the program's own benchmark runs for every user count. */
  const DemoQuery: string := DemoMain + " JOIN " + DemoJoin

  /** A join whose second half has no ` FROM ` panics in `extractFields`
      before any record is read. */
  lemma JoinHalfWithoutFrom(s: HashStore, keys: seq<string>, profileKey: string -> string,
                            query: string, a: string, b: string)
    requires TrimSpace(query) == a + " JOIN " + b && IsSelect(TrimSpace(query))
    requires Lacks(a, 'J') && Lacks(b, 'J') && Lacks(b, 'F')
    ensures Query(s, keys, profileKey, query) == Err(SlicePanic)
  {
    var parts := Split(TrimSpace(query), " JOIN ");
    JoinSplit(TrimSpace(query), a, b);
    MissingCharNoContains(b, " FROM ", 1);
    assert !SelectListOk(parts[1]);
    assert JoinQuery(s, keys, profileKey, parts) == Err(SlicePanic);
  }

  /** Such a query splits at ` JOIN ` into exactly its two halves. */
  lemma JoinSplit(q: string, a: string, b: string)
    requires q == a + " JOIN " + b
    requires Lacks(a, 'J') && Lacks(b, 'J')
    ensures Split(q, " JOIN ") == [a, b]
  {
    JoinAfter(q, a, b);
    MissingCharNoContains(b, " JOIN ", 1);
    assert Split(b, " JOIN ") == [b];
  }

  /** The first ` JOIN ` of `a + " JOIN " + b` is the one after `a` when `a`
      has no `J`. */
  lemma JoinAfter(q: string, a: string, b: string)
    requires q == a + " JOIN " + b
    requires Lacks(a, 'J')
    ensures Index(q, " JOIN ") == |a| && q[|a| + 6..] == b && q[..|a|] == a
  {
    assert q[|a|..|a| + 6] == " JOIN ";
    assert At(q, " JOIN ", |a|);
    forall j | 0 <= j < |a| ensures !At(q, " JOIN ", j) {
      assert q[j + 1] != 'J' by {
        if j + 1 < |a| {
          assert q[j + 1] == a[j + 1];
        } else {
          assert q[j + 1] == q[|a|..|a| + 6][0];
        }
      }
      if j + 6 <= |q| {
        assert q[j..j + 6][1] == q[j + 1];
      }
    }
  }

  /** The benchmark's query always ends in the slice panic: its join half
      `user_profile ON user.id = user_profile.id` has no ` FROM `. */
  lemma DemoQueryPanics(s: HashStore, keys: seq<string>, profileKey: string -> string)
    ensures Query(s, keys, profileKey, DemoQuery) == Err(SlicePanic)
  {
    DemoTrimmed();
    DemoLetters();
    JoinHalfWithoutFrom(s, keys, profileKey, DemoQuery, DemoMain, DemoJoin);
  }

  lemma DemoTrimmed()
    ensures TrimSpace(DemoQuery) == DemoQuery && IsSelect(DemoQuery)
  {
    var q := DemoQuery;
    var rest := DemoSelect + DemoWhere + " JOIN " + DemoJoin;
    assert q == "SELECT" + rest;
    assert q[0] == 'S';
    assert DemoJoin[|DemoJoin| - 1] == 'd';
    assert q[|q| - 1] == DemoJoin[|DemoJoin| - 1];
    LowerCaseSelect(rest);
  }

  lemma DemoLetters()
    ensures Lacks(DemoMain, 'J') && Lacks(DemoJoin, 'J') && Lacks(DemoJoin, 'F')
  {
    assert Lacks(DemoSelect, 'J') && Lacks(DemoWhere, 'J');
    assert 'J' !in "SELECT" && 'J' !in DemoSelect && 'J' !in DemoWhere;
    assert 'J' !in DemoMain;
  }

  /** No position of `s` holds `c`. */
  predicate Lacks(s: string, c: char) {
    forall i :: 0 <= i < |s| ==> s[i] != c
  }
}

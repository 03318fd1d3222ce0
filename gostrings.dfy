/** The part of Go's `strings` and `strconv` packages that the query engine
    uses, as pure functions over `string`. Each character stands for one byte
    of the Go string, so positions and lengths agree for ASCII text. */
module GoStrings {

  datatype Option<T> = None | Some(value: T)

  /** Range of Go's `int` on a 64-bit platform, where `strconv.Atoi` reports
      a range error outside it. */
  const MaxInt: int := 0x7FFF_FFFF_FFFF_FFFF
  const MinInt: int := -0x8000_0000_0000_0000

  /** `t` occurs in `s` starting at position `i`. */
  predicate At(s: string, t: string, i: int) {
    0 <= i && i + |t| <= |s| && s[i..i + |t|] == t
  }

  lemma AtShift(s: string, t: string, j: int)
    requires |s| > 0 && j >= 0
    ensures At(s[1..], t, j) <==> At(s, t, j + 1)
  {
    if 0 <= j && j + |t| <= |s| - 1 {
      assert s[1..][j..j + |t|] == s[j + 1..j + 1 + |t|];
    }
  }

  /** An occurrence inside a prefix is an occurrence in the whole string. */
  lemma AtPrefix(s: string, n: nat, t: string, j: int)
    requires n <= |s|
    ensures At(s[..n], t, j) ==> At(s, t, j)
  {
    if At(s[..n], t, j) {
      assert s[..n][j..j + |t|] == s[j..j + |t|];
    }
  }

  /** An occurrence inside a suffix is an occurrence in the whole string. */
  lemma AtSuffix(s: string, n: nat, t: string, j: int)
    requires n <= |s| && At(s[n..], t, j)
    ensures At(s, t, j + n)
  {
    assert s[n..][j..j + |t|] == s[j + n..j + n + |t|];
  }

  /** `strings.Index`: the first position of `t` in `s`, or -1. */
  function Index(s: string, t: string): (r: int)
    ensures r == -1 || At(s, t, r)
    ensures forall j :: 0 <= j < r ==> !At(s, t, j)
    ensures r == -1 ==> forall j :: !At(s, t, j)
    decreases |s|
  {
    if |s| < |t| then -1
    else if s[..|t|] == t then 0
    else
      var k := Index(s[1..], t);
      assert forall j | j >= 0 :: At(s[1..], t, j) <==> At(s, t, j + 1) by {
        forall j | j >= 0 { AtShift(s, t, j); }
      }
      assert !At(s, t, 0);
      if k == -1 then
        assert forall j :: !At(s, t, j) by {
          forall j ensures !At(s, t, j) {
            if j > 0 { AtShift(s, t, j - 1); }
          }
        }
        -1
      else
        assert forall j :: 0 <= j < k + 1 ==> !At(s, t, j) by {
          forall j | 0 < j < k + 1 ensures !At(s, t, j) { AtShift(s, t, j - 1); }
        }
        k + 1
  }

  /** The text before the first occurrence of `t` does not contain it. */
  lemma BeforeFirst(s: string, t: string)
    requires |t| > 0 && Index(s, t) >= 0
    ensures !Contains(s[..Index(s, t)], t)
  {
    var i := Index(s, t);
    forall j ensures !At(s[..i], t, j) {
      AtPrefix(s, i, t, j);
    }
  }

  /** An occurrence in a suffix is an occurrence in the whole string. */
  lemma ContainsSuffix(s: string, n: nat, t: string)
    requires n <= |s| && Contains(s[n..], t)
    ensures Contains(s, t)
  {
    AtSuffix(s, n, t, Index(s[n..], t));
  }

  /** `strings.Index` for a one-character pattern, in terms of characters. */
  lemma IndexChar(s: string, c: char)
    ensures var i := Index(s, [c]);
      (i == -1 <==> c !in s) &&
      (i >= 0 ==> i < |s| && s[i] == c && forall j :: 0 <= j < i ==> s[j] != c)
  {
    ContainsChar(s, c);
    if Index(s, [c]) >= 0 {
      IndexCharFirst(s, c);
    }
  }

  lemma IndexCharFirst(s: string, c: char)
    requires Index(s, [c]) >= 0
    ensures var i := Index(s, [c]);
      i < |s| && s[i] == c && forall j :: 0 <= j < i ==> s[j] != c
  {
    var i := Index(s, [c]);
    AtChar(s, c, i);
    forall j | 0 <= j < i ensures s[j] != c {
      AtChar(s, c, j);
    }
  }

  /** A one-character pattern occurs exactly where that character is. */
  lemma AtChar(s: string, c: char, j: int)
    ensures At(s, [c], j) <==> 0 <= j < |s| && s[j] == c
  {
    if 0 <= j < |s| {
      assert s[j..j + 1] == [s[j]];
    }
  }

  /** `strings.Contains`. */
  predicate Contains(s: string, t: string) {
    Index(s, t) >= 0
  }

  lemma ContainsChar(s: string, c: char)
    ensures Contains(s, [c]) <==> c in s
  {
    if c in s {
      var j :| 0 <= j < |s| && s[j] == c;
      assert s[j..j + 1] == [c];
      assert At(s, [c], j);
    }
    if Contains(s, [c]) {
      var j := Index(s, [c]);
      assert s[j..j + 1] == [c];
      assert s[j] == c;
    }
  }

  /** `strings.HasPrefix`. */
  predicate HasPrefix(s: string, p: string) {
    |p| <= |s| && s[..|p|] == p
  }

  /** `strings.TrimPrefix`. */
  function TrimPrefix(s: string, p: string): string {
    if HasPrefix(s, p) then s[|p|..] else s
  }

  /** `strings.Split` for a non-empty separator: the pieces between the
      non-overlapping occurrences of `sep`, scanning left to right. */
  function Split(s: string, sep: string): (parts: seq<string>)
    requires |sep| > 0
    ensures |parts| >= 1
    ensures |parts| == 1 <==> !Contains(s, sep)
    decreases |s|
  {
    var i := Index(s, sep);
    if i == -1 then [s] else [s[..i]] + Split(s[i + |sep|..], sep)
  }

  /** `strings.Join`, the inverse of `Split`. */
  function JoinWith(parts: seq<string>, sep: string): string {
    if |parts| == 0 then ""
    else if |parts| == 1 then parts[0]
    else parts[0] + sep + JoinWith(parts[1..], sep)
  }

  /** Joining a piece in front of a non-empty list of pieces. */
  lemma JoinWithCons(a: string, parts: seq<string>, sep: string)
    requires |parts| >= 1
    ensures JoinWith([a] + parts, sep) == a + sep + JoinWith(parts, sep)
  {
    assert ([a] + parts)[0] == a;
    assert ([a] + parts)[1..] == parts;
  }

  /** A string is its text before an occurrence of `sep`, `sep`, and its
      text after. */
  lemma SplitAround(s: string, sep: string, i: int)
    requires At(s, sep, i)
    ensures s == s[..i] + sep + s[i + |sep|..]
  {
    assert s == s[..i] + s[i..i + |sep|] + s[i + |sep|..];
  }

  /** Joining the pieces of a split with the separator gives the string
      back. */
  lemma {:induction false} SplitJoin(s: string, sep: string)
    requires |sep| > 0
    ensures JoinWith(Split(s, sep), sep) == s
    decreases |s|
  {
    var i := Index(s, sep);
    if i != -1 {
      var rest := s[i + |sep|..];
      var parts := Split(rest, sep);
      assert Split(s, sep) == [s[..i]] + parts;
      SplitJoin(rest, sep);
      JoinWithCons(s[..i], parts, sep);
      assert JoinWith(Split(s, sep), sep) == s[..i] + sep + rest;
      SplitAround(s, sep, i);
    }
  }

  /** No piece of a split contains the separator. */
  lemma {:induction false} SplitPieces(s: string, sep: string)
    requires |sep| > 0
    ensures forall p :: p in Split(s, sep) ==> !Contains(p, sep)
    decreases |s|
  {
    var i := Index(s, sep);
    if i != -1 {
      var rest := s[i + |sep|..];
      var tail := Split(rest, sep);
      assert Split(s, sep) == [s[..i]] + tail;
      SplitPieces(rest, sep);
      BeforeFirst(s, sep);
      forall p | p in Split(s, sep) ensures !Contains(p, sep) {
        if p != s[..i] {
          assert p in tail;
        }
      }
    }
  }

  /** Number of occurrences of a character. */
  function Count(s: string, c: char): nat {
    if s == [] then 0 else (if s[0] == c then 1 else 0) + Count(s[1..], c)
  }

  lemma {:induction false} CountConcat(a: string, b: string, c: char)
    ensures Count(a + b, c) == Count(a, c) + Count(b, c)
  {
    if a == [] {
      assert a + b == b;
    } else {
      assert (a + b)[0] == a[0];
      assert (a + b)[1..] == a[1..] + b;
      CountConcat(a[1..], b, c);
    }
  }

  lemma {:induction false} CountAbsent(s: string, c: char)
    ensures Count(s, c) == 0 <==> c !in s
  {
    if s != [] {
      CountAbsent(s[1..], c);
      assert s == [s[0]] + s[1..];
    }
  }

  /** Splitting on a one-character separator gives one more piece than there
      are occurrences of that character. */
  lemma {:induction false} SplitCount(s: string, c: char)
    ensures |Split(s, [c])| == Count(s, c) + 1
    decreases |s|
  {
    var i := Index(s, [c]);
    if i == -1 {
      ContainsChar(s, c);
      CountAbsent(s, c);
    } else {
      assert s[i..i + 1] == [c];
      assert s == s[..i] + [c] + s[i + 1..];
      forall j | 0 <= j < i ensures s[..i][j] != c {
        assert s[j..j + 1] == [s[j]];
        assert !At(s, [c], j);
      }
      CountAbsent(s[..i], c);
      CountConcat(s[..i] + [c], s[i + 1..], c);
      CountConcat(s[..i], [c], c);
      SplitCount(s[i + 1..], c);
    }
  }

  /** A character that occurs exactly once: the only occurrence is the one
      `Index` finds. */
  lemma OnlyOccurrence(s: string, c: char, i: int)
    requires 0 <= i < |s| && s[i] == c && Count(s, c) == 1
    ensures Index(s, [c]) == i
  {
    assert s[i..i + 1] == [c];
    assert At(s, [c], i);
    var k := Index(s, [c]);
    assert s[k..k + 1] == [c];
    if k < i {
      assert s == s[..k] + [c] + s[k + 1..];
      CountConcat(s[..k] + [c], s[k + 1..], c);
      CountConcat(s[..k], [c], c);
      assert s[k + 1..][i - k - 1] == c;
      CountAbsent(s[k + 1..], c);
      assert false;
    }
  }

  /** Splitting on a character that occurs exactly once, at `i`. */
  lemma SplitOnce(s: string, c: char, i: int)
    requires 0 <= i < |s| && s[i] == c && Count(s, c) == 1
    ensures Split(s, [c]) == [s[..i], s[i + 1..]]
  {
    OnlyOccurrence(s, c, i);
    SplitCount(s, c);
    var rest := Split(s[i + 1..], [c]);
    assert Split(s, [c]) == [s[..i]] + rest;
    assert |rest| == 1;
    assert !Contains(s[i + 1..], [c]);
    assert rest == [s[i + 1..]];
  }

  /** `unicode.IsSpace`, the predicate `strings.TrimSpace` cuts by. */
  predicate IsSpace(c: char) {
    ('\t' <= c <= '\r') || c == ' ' || c == '\U{0085}' || c == '\U{00A0}'
    || c == '\U{1680}' || ('\U{2000}' <= c <= '\U{200A}') || c == '\U{2028}'
    || c == '\U{2029}' || c == '\U{202F}' || c == '\U{205F}' || c == '\U{3000}'
  }

  /** `strings.TrimLeftFunc`: drop the longest prefix of cut characters. */
  function TrimLeftFunc(s: string, cut: char -> bool): (r: string)
    ensures |r| <= |s| && r == s[|s| - |r|..]
    ensures r == [] || !cut(r[0])
    ensures forall i :: 0 <= i < |s| - |r| ==> cut(s[i])
  {
    if s != [] && cut(s[0]) then
      var r := TrimLeftFunc(s[1..], cut);
      assert forall i :: 1 <= i < |s| - |r| ==> s[i] == s[1..][i - 1];
      r
    else s
  }

  /** `strings.TrimRightFunc`: drop the longest suffix of cut characters. */
  function TrimRightFunc(s: string, cut: char -> bool): (r: string)
    ensures |r| <= |s| && r == s[..|r|]
    ensures r == [] || !cut(r[|r| - 1])
    ensures forall i :: |r| <= i < |s| ==> cut(s[i])
  {
    if s != [] && cut(s[|s| - 1]) then TrimRightFunc(s[..|s| - 1], cut) else s
  }

  function TrimFunc(s: string, cut: char -> bool): string {
    TrimRightFunc(TrimLeftFunc(s, cut), cut)
  }

  /** `strings.TrimSpace`. */
  function TrimSpace(s: string): string {
    TrimFunc(s, IsSpace)
  }

  /** What `TrimSpace` leaves neither starts nor ends with a space. */
  lemma TrimSpaceEdges(s: string)
    ensures var r := TrimSpace(s); r == [] || (!IsSpace(r[0]) && !IsSpace(r[|r| - 1]))
  {
    var l := TrimLeftFunc(s, IsSpace);
    var r := TrimRightFunc(l, IsSpace);
    if r != [] {
      assert r[0] == l[0];
    }
  }

  /** Trimming adds no character: one missing from `s` is missing from what
      `TrimSpace` leaves. */
  lemma TrimSpaceKeepsOut(s: string, c: char)
    requires c !in s
    ensures c !in TrimSpace(s)
  {
    TrimLeftKeepsOut(s, IsSpace, c);
    TrimRightKeepsOut(TrimLeftFunc(s, IsSpace), IsSpace, c);
  }

  lemma {:induction false} TrimLeftKeepsOut(s: string, cut: char -> bool, c: char)
    requires c !in s
    ensures c !in TrimLeftFunc(s, cut)
    decreases |s|
  {
    if s != [] && cut(s[0]) {
      assert forall x :: x in s[1..] ==> x in s;
      TrimLeftKeepsOut(s[1..], cut, c);
    }
  }

  lemma {:induction false} TrimRightKeepsOut(s: string, cut: char -> bool, c: char)
    requires c !in s
    ensures c !in TrimRightFunc(s, cut)
    decreases |s|
  {
    if s != [] && cut(s[|s| - 1]) {
      assert forall x :: x in s[..|s| - 1] ==> x in s;
      TrimRightKeepsOut(s[..|s| - 1], cut, c);
    }
  }

  /** A string lacking one character of `t` does not contain `t`. */
  lemma MissingCharNoContains(s: string, t: string, k: int)
    requires 0 <= k < |t| && t[k] !in s
    ensures !Contains(s, t)
  {
    forall j ensures !At(s, t, j) {
      if 0 <= j && j + |t| <= |s| {
        assert s[j..j + |t|][k] == s[j + k];
      }
    }
  }

  /** `strings.Trim`: drop leading and trailing characters of `cutset`. */
  function Trim(s: string, cutset: string): string {
    TrimFunc(s, c => c in cutset)
  }

  /** The ASCII case mapping of `strings.ToUpper`. */
  function Upper(c: char): char {
    if 'a' <= c <= 'z' then (c as int - 'a' as int + 'A' as int) as char else c
  }

  function ToUpper(s: string): (r: string)
    ensures |r| == |s|
  {
    seq(|s|, i requires 0 <= i < |s| => Upper(s[i]))
  }

  predicate IsDigit(c: char) {
    '0' <= c <= '9'
  }

  predicate AllDigits(s: string) {
    forall i :: 0 <= i < |s| ==> IsDigit(s[i])
  }

  /** Value of a string of decimal digits, most significant first. */
  function Decimal(ds: string): nat
    requires AllDigits(ds)
  {
    if ds == [] then 0
    else Decimal(ds[..|ds| - 1]) * 10 + (ds[|ds| - 1] as int - '0' as int)
  }

  /** `strconv.Atoi`: an optional sign, then one or more decimal digits, with
      a range error outside Go's 64-bit `int`. */
  function Atoi(s: string): (r: Option<int>)
    ensures r.Some? ==> MinInt <= r.value <= MaxInt
    ensures r.Some? ==> s != [] && (IsDigit(s[0]) || s[0] == '+' || s[0] == '-')
  {
    var digits := if |s| > 0 && (s[0] == '+' || s[0] == '-') then s[1..] else s;
    if |digits| == 0 || !AllDigits(digits) then None
    else
      var n: int := if s[0] == '-' then 0 - Decimal(digits) else Decimal(digits);
      if MinInt <= n <= MaxInt then Some(n) else None
  }

  function DigitChar(d: nat): char
    requires d < 10
  {
    ('0' as int + d) as char
  }

  function Digits(n: nat): (r: string)
    ensures r != [] && AllDigits(r)
  {
    if n < 10 then [DigitChar(n)] else Digits(n / 10) + [DigitChar(n % 10)]
  }

  /** `strconv.Itoa`. */
  function Itoa(n: int): string {
    if n < 0 then "-" + Digits(-n) else Digits(n)
  }

  lemma {:induction false} DecimalDigits(n: nat)
    ensures Decimal(Digits(n)) == n
  {
    if n >= 10 {
      var d := Digits(n);
      assert d[..|d| - 1] == Digits(n / 10);
      DecimalDigits(n / 10);
    }
  }

  /** Different numbers print differently. */
  lemma ItoaInjective(n: nat, m: nat)
    ensures Itoa(n) == Itoa(m) ==> n == m
  {
    DecimalDigits(n);
    DecimalDigits(m);
  }

  /** `strconv.Atoi` inverts `strconv.Itoa` on the whole of Go's `int`. */
  lemma AtoiItoa(n: int)
    requires MinInt <= n <= MaxInt
    ensures Atoi(Itoa(n)) == Some(n)
  {
    var s := Itoa(n);
    if n < 0 {
      assert s[0] == '-';
      assert s[1..] == Digits(-n);
      DecimalDigits(-n);
    } else {
      assert s == Digits(n);
      assert IsDigit(s[0]);
      DecimalDigits(n);
    }
  }
}

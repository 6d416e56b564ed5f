/**
 * `SqlParamExtractor.extractParams`, `validateParams` and `isParamsMatch`:
 * named parameters `:name` are collected from the cleaned SQL text in order of
 * first appearance, and a caller's parameter list is compared against them.
 */
module SqlParams {
  import opened Base
  import opened Text
  import opened SqlClean

  // ---------------------------------------------------------------------------
  // Scanning `:(\w+)` with `Matcher.find`.
  // ---------------------------------------------------------------------------

  /** One match of the parameter pattern: where its ':' is and the captured name. */
  datatype Occurrence = Occurrence(pos: nat, name: string)

  /** A parameter starts at `p`: a ':' followed by at least one word char. */
  predicate IsParamStart(t: string, p: int) {
    0 <= p && p + 1 < |t| && t[p] == ':' && IsWordChar(t[p + 1])
  }

  /** The longest run of word chars in `t` starting at index `j` (what greedy `\w+` captures). */
  function WordRun(t: string, j: nat): (w: string)
    requires j <= |t|
    ensures j + |w| <= |t|
    ensures w == t[j..j + |w|]
    ensures forall k :: 0 <= k < |w| ==> IsWordChar(w[k])
    ensures j + |w| == |t| || !IsWordChar(t[j + |w|])
    decreases |t| - j
  {
    if j < |t| && IsWordChar(t[j]) then [t[j]] + WordRun(t, j + 1) else ""
  }

  /** `n` is captured by a match whose ':' is at `p`: a non-empty, maximal run of word chars right after a ':'. */
  predicate ParamAt(t: string, p: int, n: string) {
    IsParamStart(t, p) && n == WordRun(t, p + 1)
  }

  /** The positions of a list of matches. */
  function Positions(occs: seq<Occurrence>): set<nat> {
    set k | 0 <= k < |occs| :: occs[k].pos
  }

  /**
   * The successive `find` calls from index `i` on: a match at `i` is captured
   * and the search resumes after it; otherwise it resumes at `i + 1`.  The
   * result is every parameter start from `i` on, in increasing order.
   */
  function ScanFrom(t: string, i: nat): seq<Occurrence>
    requires i <= |t|
    decreases |t| - i
  {
    if i == |t| then []
    else if IsParamStart(t, i) then
      var n := WordRun(t, i + 1);
      [Occurrence(i, n)] + ScanFrom(t, i + 1 + |n|)
    else
      ScanFrom(t, i + 1)
  }

  /** Every match the scan from `i` reports is a parameter start from `i` on, with the name it captures. */
  lemma {:induction false} ScanSound(t: string, i: nat)
    requires i <= |t|
    ensures forall k :: 0 <= k < |ScanFrom(t, i)| ==> i <= ScanFrom(t, i)[k].pos && ParamAt(t, ScanFrom(t, i)[k].pos, ScanFrom(t, i)[k].name)
    decreases |t| - i
  {
    if i < |t| {
      if IsParamStart(t, i) {
        var n := WordRun(t, i + 1);
        ScanSound(t, i + 1 + |n|);
        MatchesCons(t, i, Occurrence(i, n), ScanFrom(t, i + 1 + |n|));
      } else {
        ScanSound(t, i + 1);
      }
    }
  }

  /** A match at `i` in front of matches from `i` on gives matches from `i` on. */
  lemma MatchesCons(t: string, i: nat, o: Occurrence, rest: seq<Occurrence>)
    requires o.pos == i && ParamAt(t, i, o.name)
    requires forall k :: 0 <= k < |rest| ==> i <= rest[k].pos && ParamAt(t, rest[k].pos, rest[k].name)
    ensures forall k :: 0 <= k < |[o] + rest| ==> i <= ([o] + rest)[k].pos && ParamAt(t, ([o] + rest)[k].pos, ([o] + rest)[k].name)
  {
    var all := [o] + rest;
    forall k | 0 <= k < |all| ensures i <= all[k].pos && ParamAt(t, all[k].pos, all[k].name) {
      if k > 0 {
        assert all[k] == rest[k - 1];
      }
    }
  }

  /** The scan reports its matches in increasing order of position. */
  lemma {:induction false} ScanOrdered(t: string, i: nat)
    requires i <= |t|
    ensures forall k, l :: 0 <= k < l < |ScanFrom(t, i)| ==> ScanFrom(t, i)[k].pos < ScanFrom(t, i)[l].pos
    decreases |t| - i
  {
    if i < |t| {
      if IsParamStart(t, i) {
        var n := WordRun(t, i + 1);
        var j := i + 1 + |n|;
        ScanOrdered(t, j);
        ScanAfter(t, j);
        OrderedCons(Occurrence(i, n), ScanFrom(t, j), j);
      } else {
        ScanOrdered(t, i + 1);
      }
    }
  }

  /** Every match the scan from `j` reports lies at `j` or later. */
  lemma ScanAfter(t: string, j: nat)
    requires j <= |t|
    ensures forall k :: 0 <= k < |ScanFrom(t, j)| ==> j <= ScanFrom(t, j)[k].pos
  {
    ScanSound(t, j);
  }

  lemma OrderedCons(o: Occurrence, rest: seq<Occurrence>, j: nat)
    requires o.pos < j
    requires forall k :: 0 <= k < |rest| ==> j <= rest[k].pos
    requires forall k, l :: 0 <= k < l < |rest| ==> rest[k].pos < rest[l].pos
    ensures forall k, l :: 0 <= k < l < |[o] + rest| ==> ([o] + rest)[k].pos < ([o] + rest)[l].pos
  {
    var all := [o] + rest;
    assert forall k :: 0 < k < |all| ==> all[k] == rest[k - 1];
  }

  /** The scan misses no parameter start from `i` on. */
  lemma {:induction false} ScanComplete(t: string, i: nat)
    requires i <= |t|
    ensures forall p :: i <= p && IsParamStart(t, p) ==> p in Positions(ScanFrom(t, i))
    decreases |t| - i
  {
    if i < |t| {
      if IsParamStart(t, i) {
        var n := WordRun(t, i + 1);
        ScanComplete(t, i + 1 + |n|);
        RunHoldsNoParamStart(t, i);
        CompleteCons(t, i, Occurrence(i, n), ScanFrom(t, i + 1 + |n|), i + 1 + |n|);
      } else {
        ScanComplete(t, i + 1);
      }
    }
  }

  /** Starts from `j` on are covered by `rest`, and none lies strictly between `i` and `j`. */
  lemma CompleteCons(t: string, i: nat, o: Occurrence, rest: seq<Occurrence>, j: nat)
    requires o.pos == i < j
    requires forall p :: i < p < j ==> !IsParamStart(t, p)
    requires forall p :: j <= p && IsParamStart(t, p) ==> p in Positions(rest)
    ensures forall p :: i <= p && IsParamStart(t, p) ==> p in Positions([o] + rest)
  {
    PositionsCons(o, rest);
    forall p | i <= p && IsParamStart(t, p) ensures p in Positions([o] + rest) {
      if p > i {
        assert p in Positions(rest);
      }
    }
  }

  lemma PositionsCons(o: Occurrence, rest: seq<Occurrence>)
    ensures Positions([o] + rest) == {o.pos} + Positions(rest)
  {
    var all := [o] + rest;
    forall p | p in Positions(all) ensures p in {o.pos} + Positions(rest) {
      var k :| 0 <= k < |all| && all[k].pos == p;
      if k > 0 {
        assert all[k] == rest[k - 1];
      }
    }
    forall p | p in Positions(rest) ensures p in Positions(all) {
      var k :| 0 <= k < |rest| && rest[k].pos == p;
      assert all[k + 1] == rest[k];
    }
    assert all[0] == o;
  }

  /** No parameter starts inside the name a match captured: those chars are word chars, never ':'. */
  lemma RunHoldsNoParamStart(t: string, i: nat)
    requires IsParamStart(t, i)
    ensures forall p :: i < p < i + 1 + |WordRun(t, i + 1)| ==> !IsParamStart(t, p)
  {
    var n := WordRun(t, i + 1);
    forall p | i < p < i + 1 + |n|
      ensures t[p] != ':'
    {
      assert t[p] == n[p - i - 1];
    }
  }

  /** The names of a list of matches, in order (`matcher.group(1)` of each `find`). */
  function Names(occs: seq<Occurrence>): (r: seq<string>)
    ensures |r| == |occs|
    ensures forall k :: 0 <= k < |occs| ==> r[k] == occs[k].name
  {
    seq(|occs|, k requires 0 <= k < |occs| => occs[k].name)
  }

  // ---------------------------------------------------------------------------
  // De-duplication with a `LinkedHashSet`.
  // ---------------------------------------------------------------------------

  predicate NoDuplicates(xs: seq<string>) {
    forall i, j :: 0 <= i < j < |xs| ==> xs[i] != xs[j]
  }

  /** Index of the first occurrence of `x` in `xs`. */
  function FirstIndex(xs: seq<string>, x: string): (k: nat)
    requires x in xs
    ensures k < |xs| && xs[k] == x
    ensures forall j :: 0 <= j < k ==> xs[j] != x
  {
    if xs[0] == x then 0 else 1 + FirstIndex(xs[1..], x)
  }

  /** Dropping the last element does not move the first occurrence of anything still present. */
  lemma FirstIndexInPrefix(xs: seq<string>, x: string)
    requires |xs| > 0 && x in xs[..|xs| - 1]
    ensures FirstIndex(xs, x) == FirstIndex(xs[..|xs| - 1], x)
  {
    var p := xs[..|xs| - 1];
    var k := FirstIndex(p, x);
    assert xs[k] == x;
    forall j | 0 <= j < k ensures xs[j] != x {
      assert xs[j] == p[j];
    }
  }

  /**
   * The iteration order of a `LinkedHashSet` after adding `xs` one by one: an
   * element already present is not added again, a new one goes at the end.
   */
  function FirstOccurrences(xs: seq<string>): (r: seq<string>)
    ensures NoDuplicates(r)
    ensures forall x :: x in r <==> x in xs
    ensures forall i, j :: 0 <= i < j < |r| ==> FirstIndex(xs, r[i]) < FirstIndex(xs, r[j])
    decreases |xs|
  {
    if |xs| == 0 then []
    else
      var p := xs[..|xs| - 1];
      var last := xs[|xs| - 1];
      var init := FirstOccurrences(p);
      assert xs == p + [last];
      forall x | x in init ensures FirstIndex(xs, x) == FirstIndex(p, x) {
        FirstIndexInPrefix(xs, x);
      }
      if last in init then init
      else
        assert FirstIndex(xs, last) == |xs| - 1;
        init + [last]
  }

  // ---------------------------------------------------------------------------
  // extractParams
  // ---------------------------------------------------------------------------

  /** `extractParams`: null or blank SQL has no parameters; otherwise clean, scan and de-duplicate. */
  function ExtractParams(sql: Option<string>): (r: seq<string>)
    ensures sql.None? || IsBlank(sql.value) ==> r == []
    ensures NoDuplicates(r)
  {
    match sql
    case None => []
    case Some(s) => if IsBlank(s) then [] else FirstOccurrences(Names(ScanFrom(Clean(s), 0)))
  }

  /** The cleaned text of blank SQL holds no ':' and so no parameter. */
  lemma BlankHasNoParam(s: string, p: int, n: string)
    requires IsBlank(s)
    ensures !ParamAt(Clean(s), p, n)
  {
    BlankIffAllTrimmed(s);
    if 0 <= p < |Clean(s)| {
      var c := Clean(s)[p];
      assert c in Clean(s);
      assert c in s || c == '\'';
      assert c <= ' ' || c == '\'' by {
        if c in s {
          var k :| 0 <= k < |s| && s[k] == c;
        }
      }
    }
  }

  /** The scan captures a name exactly when some ':' in the text is followed by it. */
  lemma ScannedIffParam(t: string, n: string)
    ensures n in Names(ScanFrom(t, 0)) <==> exists p :: ParamAt(t, p, n)
  {
    var occs := ScanFrom(t, 0);
    var names := Names(occs);
    ScanSound(t, 0);
    ScanComplete(t, 0);
    if n in names {
      var k :| 0 <= k < |names| && names[k] == n;
      assert ParamAt(t, occs[k].pos, n);
    }
    forall p | ParamAt(t, p, n) ensures n in names {
      assert p in Positions(occs);
      var k :| 0 <= k < |occs| && occs[k].pos == p;
      assert names[k] == n;
    }
  }

  /**
   * A name is returned exactly when the cleaned text holds a ':' followed by
   * that name as a maximal run of word chars.
   */
  lemma ExtractedIffParamInCleanText(s: string, n: string)
    ensures n in ExtractParams(Some(s)) <==> exists p :: ParamAt(Clean(s), p, n)
  {
    if IsBlank(s) {
      forall p ensures !ParamAt(Clean(s), p, n) {
        BlankHasNoParam(s, p, n);
      }
    } else {
      ScannedIffParam(Clean(s), n);
    }
  }

  /**
   * The result lists names in order of first appearance: for names `i < j` of
   * the result, the first match of name `i` lies before every match of name `j`.
   */
  lemma ExtractedInFirstAppearanceOrder(s: string, i: nat, j: nat)
    ensures i < j < |ExtractParams(Some(s))| ==>
      exists p :: (ParamAt(Clean(s), p, ExtractParams(Some(s))[i]) &&
                   forall q :: ParamAt(Clean(s), q, ExtractParams(Some(s))[j]) ==> p < q)
  {
    var t := Clean(s);
    var r := ExtractParams(Some(s));
    if i < j < |r| {
      var occs := ScanFrom(t, 0);
      var names := Names(occs);
      ScanSound(t, 0);
      assert r == FirstOccurrences(names);
      var ki := FirstIndex(names, r[i]);
      var kj := FirstIndex(names, r[j]);
      assert ki < kj;
      var p := occs[ki].pos;
      assert ParamAt(t, p, r[i]);
      forall q | ParamAt(t, q, r[j]) ensures p < q {
        MatchBeforeFirstOfName(t, ki, r[j], q);
      }
    }
  }

  /** A match listed before the first match of `n` lies before every match of `n`. */
  lemma MatchBeforeFirstOfName(t: string, a: nat, n: string, q: int)
    requires n in Names(ScanFrom(t, 0)) && a < FirstIndex(Names(ScanFrom(t, 0)), n)
    requires ParamAt(t, q, n)
    ensures ScanFrom(t, 0)[a].pos < q
  {
    var m := MatchOfStart(t, q);
    MatchAt(t, m);
    assert Names(ScanFrom(t, 0))[m] == n;
    MatchesInOrder(t, a, m);
  }

  /** The index of the match the scan reports for the parameter start `p`. */
  lemma MatchOfStart(t: string, p: int) returns (m: nat)
    requires IsParamStart(t, p)
    ensures m < |ScanFrom(t, 0)| && ScanFrom(t, 0)[m].pos == p
  {
    ScanComplete(t, 0);
    assert p in Positions(ScanFrom(t, 0));
    m :| 0 <= m < |ScanFrom(t, 0)| && ScanFrom(t, 0)[m].pos == p;
  }

  lemma MatchAt(t: string, m: nat)
    requires m < |ScanFrom(t, 0)|
    ensures ParamAt(t, ScanFrom(t, 0)[m].pos, ScanFrom(t, 0)[m].name)
  {
    ScanSound(t, 0);
  }

  lemma MatchesInOrder(t: string, a: nat, m: nat)
    requires a < m < |ScanFrom(t, 0)|
    ensures ScanFrom(t, 0)[a].pos < ScanFrom(t, 0)[m].pos
  {
    ScanOrdered(t, 0);
  }

  // ---------------------------------------------------------------------------
  // validateParams and isParamsMatch
  // ---------------------------------------------------------------------------

  /** `a` is `b` with some entries left out, the rest kept in order. */
  predicate IsSubsequence(a: seq<string>, b: seq<string>)
    decreases |b|
  {
    if |a| == 0 then true
    else if |b| == 0 then false
    else if a[0] == b[0] then IsSubsequence(a[1..], b[1..])
    else IsSubsequence(a, b[1..])
  }

  /** The entries of `xs` that do not occur in `ys`, in the order of `xs` and with their repeats. */
  function Without(xs: seq<string>, ys: seq<string>): (r: seq<string>)
    ensures forall x :: x in r <==> x in xs && x !in ys
    ensures forall x :: x !in ys ==> multiset(r)[x] == multiset(xs)[x]
    ensures IsSubsequence(r, xs)
    decreases |xs|
  {
    if |xs| == 0 then []
    else
      var rest := Without(xs[1..], ys);
      assert xs == [xs[0]] + xs[1..];
      if xs[0] in ys then
        assert IsSubsequence(rest, xs) by {
          if |rest| > 0 {
            assert rest[0] in rest;
          }
        }
        rest
      else
        assert ([xs[0]] + rest)[1..] == rest;
        [xs[0]] + rest
  }

  /** The two lists `validateParams` returns. */
  datatype Validation = Validation(missing: seq<string>, extra: seq<string>)

  /**
   * The two loops of `validateParams` on the extracted names: `missing` are the
   * SQL's names the caller did not provide, in extraction order; `extra` are
   * the provided entries the SQL does not use, in the caller's order and with
   * the caller's repeats.
   */
  function Validate(sqlParams: seq<string>, provided: seq<string>): (v: Validation)
    ensures forall x :: x in v.missing <==> x in sqlParams && x !in provided
    ensures forall x :: x in v.extra <==> x in provided && x !in sqlParams
    ensures IsSubsequence(v.missing, sqlParams)
    ensures IsSubsequence(v.extra, provided)
    ensures forall x :: x !in sqlParams ==> multiset(v.extra)[x] == multiset(provided)[x]
  {
    Validation(Without(sqlParams, provided), Without(provided, sqlParams))
  }

  /** `validateParams`: compare the extracted names with the provided ones. */
  function ValidateParams(sql: Option<string>, provided: seq<string>): Validation {
    Validate(ExtractParams(sql), provided)
  }

  /** `isParamsMatch`: nothing missing and nothing extra. */
  predicate IsParamsMatch(sql: Option<string>, provided: seq<string>) {
    var v := ValidateParams(sql, provided);
    |v.missing| == 0 && |v.extra| == 0
  }

  /** The lists match exactly when the provided names and the extracted names are the same set. */
  lemma ParamsMatchIffSameNames(sql: Option<string>, provided: seq<string>)
    ensures IsParamsMatch(sql, provided) <==> forall x :: x in provided <==> x in ExtractParams(sql)
  {
    var v := ValidateParams(sql, provided);
    if !IsParamsMatch(sql, provided) {
      if |v.missing| > 0 {
        assert v.missing[0] in v.missing;
      } else {
        assert v.extra[0] in v.extra;
      }
    }
  }

  /** Nothing is left of a list whose every entry the other list holds. */
  lemma {:induction false} WithoutCovered(xs: seq<string>, ys: seq<string>)
    requires forall x :: x in xs ==> x in ys
    ensures Without(xs, ys) == []
    decreases |xs|
  {
    if |xs| > 0 {
      assert xs[0] in xs;
      assert forall x :: x in xs[1..] ==> x in xs;
      WithoutCovered(xs[1..], ys);
    }
  }

  /** Comparing a list of names with itself reports nothing missing and nothing extra. */
  lemma SelfValidated(names: seq<string>)
    ensures Validate(names, names) == Validation([], [])
  {
    WithoutCovered(names, names);
  }

  /** Validating SQL against its own extracted names reports nothing missing and nothing extra. */
  lemma ExtractedParamsMatchThemselves(sql: Option<string>)
    ensures ValidateParams(sql, ExtractParams(sql)) == Validation([], [])
    ensures IsParamsMatch(sql, ExtractParams(sql))
  {
    SelfValidated(ExtractParams(sql));
  }
}

/**
 * The three cleaning passes `SqlParamExtractor` runs before it scans for
 * parameters.  Each pass is one `Matcher.replaceAll`: the text is read left to
 * right, the leftmost match is replaced, and reading resumes after it, so
 * matches never overlap.  The passes run one after the other on the output of
 * the previous one: line comments, then block comments, then string literals.
 */
module SqlClean {
  import opened Base
  import opened Text

  // ---------------------------------------------------------------------------
  // Pass 1: `--[^\n]*` replaced by the empty string.
  // ---------------------------------------------------------------------------

  /** Index of the first '\n' at or after `i`, or |s| when the line runs to the end. */
  function LineEnd(s: string, i: nat): (k: nat)
    requires i <= |s|
    ensures i <= k <= |s|
    ensures forall j :: i <= j < k ==> s[j] != '\n'
    ensures k < |s| ==> s[k] == '\n'
    decreases |s| - i
  {
    if i == |s| || s[i] == '\n' then i else LineEnd(s, i + 1)
  }

  /** `s` starts with the line-comment marker "--". */
  predicate DashesAt(s: string) {
    |s| >= 2 && s[0] == '-' && s[1] == '-'
  }

  /** The line-comment pass: a match starts at "--" and runs up to, not including, the next '\n'. */
  function StripLineComments(s: string): (r: string)
    ensures |r| <= |s|
    ensures forall c :: c in r ==> c in s
    decreases |s|
  {
    if |s| == 0 then ""
    else if DashesAt(s) then StripLineComments(s[LineEnd(s, 0)..])
    else [s[0]] + StripLineComments(s[1..])
  }

  /** One line with everything from its first "--" on removed. */
  function CutLine(line: string): string {
    match Find(line, "--")
    case None => line
    case Some(k) => line[..k]
  }

  /** Reference reading of the line-comment pass: split at '\n', cut every line at its first "--", rejoin. */
  function LineCommentsByLine(s: string): string
    decreases |s|
  {
    match Find(s, "\n")
    case None => CutLine(s)
    case Some(k) => CutLine(s[..k]) + "\n" + LineCommentsByLine(s[k + 1..])
  }

  /** The pass treats the first line as the reference does and leaves the rest to the next lines. */
  lemma {:induction false} StripFirstLine(s: string)
    ensures StripLineComments(s) == CutLine(s[..LineEnd(s, 0)]) + StripLineComments(s[LineEnd(s, 0)..])
    decreases |s|
  {
    var k := LineEnd(s, 0);
    if |s| == 0 {
    } else if DashesAt(s) {
      DashLineIsCut(s);
    } else if s[0] == '\n' {
      assert k == 0;
    } else {
      StripFirstLine(s[1..]);
      StripFirstLineStep(s);
    }
  }

  /** A line that starts with "--" is cut to nothing. */
  lemma DashLineIsCut(s: string)
    requires DashesAt(s)
    ensures CutLine(s[..LineEnd(s, 0)]) == ""
  {
    var k := LineEnd(s, 0);
    assert s[0] == '-' && s[1] == '-';
    assert k >= 2;
    assert s[..k][..2] == "--";
  }

  lemma StripFirstLineStep(s: string)
    requires |s| > 0 && !DashesAt(s) && s[0] != '\n'
    requires StripLineComments(s[1..]) == CutLine(s[1..][..LineEnd(s[1..], 0)]) + StripLineComments(s[1..][LineEnd(s[1..], 0)..])
    ensures StripLineComments(s) == CutLine(s[..LineEnd(s, 0)]) + StripLineComments(s[LineEnd(s, 0)..])
  {
    var k := LineEnd(s, 0);
    LineEndShift(s);
    assert s[1..][k - 1..] == s[k..];
    StripKeepsFirst(s);
    FirstLineCutStep(s);
    ConsAssoc(s[0], CutLine(s[1..][..k - 1]), StripLineComments(s[k..]));
  }

  lemma AppendAssoc(a: string, b: string, c: string)
    ensures (a + b) + c == a + (b + c)
  {
  }

  lemma ConsAssoc(c: char, a: string, b: string)
    ensures [c] + (a + b) == ([c] + a) + b
  {
  }

  lemma StripKeepsFirst(s: string)
    requires |s| > 0 && !DashesAt(s)
    ensures StripLineComments(s) == [s[0]] + StripLineComments(s[1..])
  {
  }

  /** Cutting the first line commutes with dropping its first char. */
  lemma FirstLineCutStep(s: string)
    requires |s| > 0 && !DashesAt(s) && s[0] != '\n'
    ensures CutLine(s[..LineEnd(s, 0)]) == [s[0]] + CutLine(s[1..][..LineEnd(s[1..], 0)])
  {
    LineEndShift(s);
    CutPrefixCons(s, LineEnd(s, 0));
  }

  /** Cutting a prefix of `s` that does not start with "--" keeps its first char. */
  lemma CutPrefixCons(s: string, k: nat)
    requires 1 <= k <= |s| && !DashesAt(s)
    ensures CutLine(s[..k]) == [s[0]] + CutLine(s[1..][..k - 1])
  {
    var line := s[..k];
    assert line[0] == s[0];
    assert !DashesAt(line) by {
      if |line| >= 2 {
        assert line[1] == s[1];
      }
    }
    CutLineCons(line);
    assert line[1..] == s[1..][..k - 1];
  }

  lemma LineEndShift(s: string)
    requires |s| > 0 && s[0] != '\n'
    ensures LineEnd(s[1..], 0) == LineEnd(s, 0) - 1
  {
    LineEndFrom(s, 1);
    LineEndSuffix(s, 1, 0);
  }

  lemma {:induction false} LineEndFrom(s: string, i: nat)
    requires 0 < i <= |s| && s[i - 1] != '\n'
    ensures LineEnd(s, i - 1) == LineEnd(s, i)
  {
  }

  /** Searching a suffix is searching the whole string from the suffix's start. */
  lemma {:induction false} LineEndSuffix(s: string, d: nat, i: nat)
    requires d + i <= |s|
    ensures LineEnd(s[d..], i) + d == LineEnd(s, d + i)
    decreases |s| - d - i
  {
    if d + i < |s| {
      assert s[d..][i] == s[d + i];
      if s[d + i] != '\n' {
        LineEndSuffix(s, d, i + 1);
      }
    }
  }

  /** Cutting a line that does not start with "--" keeps its first char. */
  lemma CutLineCons(line: string)
    requires |line| > 0 && !DashesAt(line)
    ensures CutLine(line) == [line[0]] + CutLine(line[1..])
  {
    var t := line[1..];
    if |line| >= 2 {
      match Find(t, "--")
      case None =>
      case Some(k) =>
        assert line[..k + 1] == [line[0]] + t[..k];
    }
  }

  /** The line-comment pass equals the line-by-line reference on every input. */
  lemma {:induction false} LineCommentsAreCutPerLine(s: string)
    ensures StripLineComments(s) == LineCommentsByLine(s)
    decreases |s|
  {
    var k := LineEnd(s, 0);
    StripFirstLine(s);
    FindNewline(s);
    if k < |s| {
      var rest := s[k..];
      assert rest[1..] == s[k + 1..];
      assert !DashesAt(rest) by { assert rest[0] == '\n'; }
      LineCommentsAreCutPerLine(s[k + 1..]);
      calc {
        StripLineComments(s);
        CutLine(s[..k]) + StripLineComments(rest);
        CutLine(s[..k]) + ([rest[0]] + StripLineComments(rest[1..]));
        CutLine(s[..k]) + "\n" + LineCommentsByLine(s[k + 1..]);
      }
    } else {
      assert s[..k] == s;
    }
  }

  /** Searching for "\n" finds the end of the first line. */
  lemma FindNewline(s: string)
    ensures Find(s, "\n") == (if LineEnd(s, 0) == |s| then None else Some(LineEnd(s, 0)))
  {
    var k := LineEnd(s, 0);
    forall j | 0 <= j < |s|
      ensures OccursAt(s, "\n", j) <==> s[j] == '\n'
    {
      assert s[j..j + 1] == [s[j]];
    }
    if k < |s| {
      assert OccursAt(s, "\n", k);
    }
  }

  // ---------------------------------------------------------------------------
  // Passes 2 and 3: `open .*? close` spans, each replaced by a fixed text.
  // ---------------------------------------------------------------------------

  /** One alternative of a span pattern: its opening and closing delimiters. */
  datatype Delims = Delims(open: string, close: string)

  predicate WellFormed(alts: seq<Delims>) {
    forall a :: 0 <= a < |alts| ==> |alts[a].open| > 0 && |alts[a].close| > 0
  }

  /**
   * Length of the span alternative `d` matches at the start of `s`: the opening
   * delimiter, the shortest text after it that is followed by the closing
   * delimiter, and that closing delimiter.  None when there is no closing one.
   */
  function SpanAt(s: string, d: Delims): (r: Option<nat>)
    requires |d.open| > 0 && |d.close| > 0
    ensures r.Some? ==> |d.open| + |d.close| <= r.value <= |s|
  {
    if StartsWith(s, d.open) then
      match Find(s[|d.open|..], d.close)
      case Some(k) => Some(|d.open| + k + |d.close|)
      case None => None
    else None
  }

  /** Regular-expression alternation: the first alternative, from index `a` on, that matches at the start of `s`. */
  function FirstSpan(s: string, alts: seq<Delims>, a: nat): (r: Option<nat>)
    requires WellFormed(alts) && a <= |alts|
    ensures r.Some? ==> 2 <= r.value <= |s|
    decreases |alts| - a
  {
    if a == |alts| then None
    else match SpanAt(s, alts[a])
      case Some(n) => Some(n)
      case None => FirstSpan(s, alts, a + 1)
  }

  /**
   * `replaceAll` of the alternation of `alts` by `repl`: where a span starts it
   * is replaced and reading resumes after it; elsewhere one char is kept.
   */
  function ReplaceSpans(s: string, alts: seq<Delims>, repl: string): (r: string)
    requires WellFormed(alts)
    ensures forall c :: c in r ==> c in s || c in repl
    decreases |s|
  {
    if |s| == 0 then ""
    else match FirstSpan(s, alts, 0)
      case Some(n) => repl + ReplaceSpans(s[n..], alts, repl)
      case None => [s[0]] + ReplaceSpans(s[1..], alts, repl)
  }

  // The block-comment pattern: "/*", the shortest run of any chars (newlines
  // included, as in DOTALL mode), then "*/".
  const BlockComment: seq<Delims> := [Delims("/*", "*/")]

  /** The string-literal pattern `'([^']*)'|"([^"]*)"`. */
  const StringLiteral: seq<Delims> := [Delims("'", "'"), Delims("\"", "\"")]

  /** Pass 2: every block comment is deleted. */
  function StripBlockComments(s: string): (r: string)
    ensures forall c :: c in r ==> c in s
  {
    ReplaceSpans(s, BlockComment, "")
  }

  /** Pass 3: every string literal is replaced by an empty literal `''`. */
  function StripStringLiterals(s: string): (r: string)
    ensures forall c :: c in r ==> c in s || c == '\''
  {
    ReplaceSpans(s, StringLiteral, "''")
  }

  /** The three passes in the order `extractParams` runs them: comments first, literals last. */
  function Clean(sql: string): (r: string)
    ensures forall c :: c in r ==> c in sql || c == '\''
  {
    StripStringLiterals(StripBlockComments(StripLineComments(sql)))
  }

  // ---------------------------------------------------------------------------
  // Reference reader for the span passes.
  // ---------------------------------------------------------------------------

  /**
   * The state of a reader that never looks ahead: outside every span, or inside
   * a span opened by alternative `alt`, holding back the text read since (and
   * including) its opening delimiter.
   */
  datatype ReadState = Outside | Inside(alt: nat, held: string)

  predicate ValidState(alts: seq<Delims>, st: ReadState) {
    st.Inside? ==> st.alt < |alts| && |st.held| > 0
  }

  function HeldLength(st: ReadState): nat {
    if st.Inside? then |st.held| else 0
  }

  /** No two alternatives open with the same char, so at most one can open at any position. */
  predicate DistinctOpens(alts: seq<Delims>)
    requires WellFormed(alts)
  {
    forall a, b :: 0 <= a < b < |alts| ==> alts[a].open[0] != alts[b].open[0]
  }

  /** The first alternative, from index `a` on, whose opening delimiter starts `s`. */
  function OpenAt(s: string, alts: seq<Delims>, a: nat): (r: Option<nat>)
    requires a <= |alts|
    ensures r.Some? ==> a <= r.value < |alts| && StartsWith(s, alts[r.value].open)
    ensures r.None? ==> forall b :: a <= b < |alts| ==> !StartsWith(s, alts[b].open)
    decreases |alts| - a
  {
    if a == |alts| then None
    else if StartsWith(s, alts[a].open) then Some(a)
    else OpenAt(s, alts, a + 1)
  }

  /**
   * Reference reading of a span pass, one char at a time.  Outside, an opening
   * delimiter starts holding text back.  Inside, the closing delimiter emits
   * `repl` and drops what was held.  If the input ends inside a span, that span
   * was never closed: its first char is emitted and the rest of the held text
   * is read again from the outside state.
   */
  function Reader(s: string, alts: seq<Delims>, repl: string, st: ReadState): string
    requires WellFormed(alts) && ValidState(alts, st)
    decreases |s| + HeldLength(st), |s|
  {
    match st
    case Outside =>
      if |s| == 0 then ""
      else (
        match OpenAt(s, alts, 0)
        case Some(a) => Reader(s[|alts[a].open|..], alts, repl, Inside(a, alts[a].open))
        case None => [s[0]] + Reader(s[1..], alts, repl, Outside))
    case Inside(a, held) =>
      if StartsWith(s, alts[a].close) then repl + Reader(s[|alts[a].close|..], alts, repl, Outside)
      else if |s| == 0 then [held[0]] + Reader(held[1..], alts, repl, Outside)
      else Reader(s[1..], alts, repl, Inside(a, held + [s[0]]))
  }

  lemma StartsWithHead(s: string, p: string)
    requires |p| > 0
    ensures StartsWith(s, p) ==> s[0] == p[0]
  {
    if StartsWith(s, p) {
      assert s[..|p|][0] == s[0];
    }
  }

  /** When no alternative opens at the start of `s`, the alternation does not match there. */
  lemma {:induction false} NoOpenNoSpan(s: string, alts: seq<Delims>, a: nat)
    requires WellFormed(alts) && a <= |alts|
    requires forall b :: a <= b < |alts| ==> !StartsWith(s, alts[b].open)
    ensures FirstSpan(s, alts, a).None?
    decreases |alts| - a
  {
    if a < |alts| {
      NoOpenNoSpan(s, alts, a + 1);
    }
  }

  /** With distinct opening chars, the alternation matches exactly when the one alternative that opens does. */
  lemma {:induction false} FirstSpanIsOpenSpan(s: string, alts: seq<Delims>, a: nat)
    requires WellFormed(alts) && DistinctOpens(alts) && a <= |alts|
    ensures OpenAt(s, alts, a).None? ==> FirstSpan(s, alts, a).None?
    ensures OpenAt(s, alts, a).Some? ==> FirstSpan(s, alts, a) == SpanAt(s, alts[OpenAt(s, alts, a).value])
    decreases |alts| - a
  {
    if a == |alts| {
    } else if StartsWith(s, alts[a].open) {
      forall b | a + 1 <= b < |alts|
        ensures !StartsWith(s, alts[b].open)
      {
        StartsWithHead(s, alts[a].open);
        StartsWithHead(s, alts[b].open);
      }
      NoOpenNoSpan(s, alts, a + 1);
    } else {
      FirstSpanIsOpenSpan(s, alts, a + 1);
    }
  }

  /**
   * What the reader produces once it has entered a span of alternative `a`
   * whose opening delimiter is followed by `u`: the replacement when a closing
   * delimiter follows, otherwise the opening char and a fresh read of the rest.
   */
  function InsideOutcome(alts: seq<Delims>, repl: string, a: nat, u: string): string
    requires WellFormed(alts) && a < |alts|
  {
    match Find(u, alts[a].close)
    case Some(k) => repl + Reader(u[k + |alts[a].close|..], alts, repl, Outside)
    case None => [alts[a].open[0]] + Reader((alts[a].open + u)[1..], alts, repl, Outside)
  }

  /**
   * Inside a span of alternative `a` whose text after the opening delimiter is
   * `v + w`, with `v` already held and no closing delimiter starting within
   * `v`, the reader ends where the pass does: right after the first closing
   * delimiter, or, when there is none, one char past the opening position.
   */
  lemma {:induction false} ReaderInside(alts: seq<Delims>, repl: string, a: nat, v: string, w: string)
    requires WellFormed(alts) && a < |alts|
    requires forall j :: 0 <= j < |v| ==> !OccursAt(v + w, alts[a].close, j)
    ensures Reader(w, alts, repl, Inside(a, alts[a].open + v)) == InsideOutcome(alts, repl, a, v + w)
    decreases |w|
  {
    var d := alts[a];
    if StartsWith(w, d.close) {
      InsideClosesHere(d, v, w);
    } else if |w| == 0 {
      assert v + w == v;
      assert (d.open + v)[1..] == (d.open + (v + w))[1..];
    } else {
      InsideMovesOn(d, v, w);
      ReaderHolds(alts, repl, a, v, w);
      ReaderInside(alts, repl, a, v + [w[0]], w[1..]);
    }
  }

  /** Inside a span with no closing delimiter here, the reader moves one char into what it holds. */
  lemma ReaderHolds(alts: seq<Delims>, repl: string, a: nat, v: string, w: string)
    requires WellFormed(alts) && a < |alts|
    requires |w| > 0 && !StartsWith(w, alts[a].close)
    ensures Reader(w, alts, repl, Inside(a, alts[a].open + v)) == Reader(w[1..], alts, repl, Inside(a, alts[a].open + (v + [w[0]])))
  {
    assert (alts[a].open + v) + [w[0]] == alts[a].open + (v + [w[0]]);
  }

  /** Inside a span, a closing delimiter right here is the first one after the opening. */
  lemma InsideClosesHere(d: Delims, v: string, w: string)
    requires |d.close| > 0 && StartsWith(w, d.close)
    requires forall j :: 0 <= j < |v| ==> !OccursAt(v + w, d.close, j)
    ensures Find(v + w, d.close) == Some(|v|)
    ensures (v + w)[|v| + |d.close|..] == w[|d.close|..]
  {
    var u := v + w;
    assert u[|v|..|v| + |d.close|] == w[..|d.close|];
    assert OccursAt(u, d.close, |v|);
    assert u[|v| + |d.close|..] == w[|d.close|..];
  }

  /** Inside a span with no closing delimiter here, the reader holds one more char. */
  lemma InsideMovesOn(d: Delims, v: string, w: string)
    requires |d.close| > 0 && |w| > 0 && !StartsWith(w, d.close)
    requires forall j :: 0 <= j < |v| ==> !OccursAt(v + w, d.close, j)
    ensures (v + [w[0]]) + w[1..] == v + w
    ensures forall j :: 0 <= j < |v + [w[0]]| ==> !OccursAt((v + [w[0]]) + w[1..], d.close, j)
  {
    var u := v + w;
    assert (v + [w[0]]) + w[1..] == u;
    assert !OccursAt(u, d.close, |v|) by {
      if |v| + |d.close| <= |u| {
        assert u[|v|..|v| + |d.close|] == w[..|d.close|];
      }
    }
  }

  /** From the outside state the reader takes the same step as the pass: replace the span that starts here, or keep one char. */
  lemma ReaderStep(s: string, alts: seq<Delims>, repl: string)
    requires WellFormed(alts) && DistinctOpens(alts) && |s| > 0
    ensures Reader(s, alts, repl, Outside) ==
      match FirstSpan(s, alts, 0)
      case Some(n) => repl + Reader(s[n..], alts, repl, Outside)
      case None => [s[0]] + Reader(s[1..], alts, repl, Outside)
  {
    FirstSpanIsOpenSpan(s, alts, 0);
    match OpenAt(s, alts, 0)
    case None =>
    case Some(a) =>
      ReaderOpens(s, alts, repl, a);
  }

  /** Reading from an opening delimiter of alternative `a`. */
  lemma ReaderOpens(s: string, alts: seq<Delims>, repl: string, a: nat)
    requires WellFormed(alts) && |s| > 0 && OpenAt(s, alts, 0) == Some(a)
    ensures Reader(s, alts, repl, Outside) ==
      match SpanAt(s, alts[a])
      case Some(n) => repl + Reader(s[n..], alts, repl, Outside)
      case None => [s[0]] + Reader(s[1..], alts, repl, Outside)
  {
    ReaderEnters(s, alts, repl, a);
    OutcomeAsSpan(s, alts, repl, a);
  }

  /** The outcome after an opening delimiter at the front of `s`, in terms of the span there. */
  lemma OutcomeAsSpan(s: string, alts: seq<Delims>, repl: string, a: nat)
    requires WellFormed(alts) && a < |alts| && |s| > 0 && StartsWith(s, alts[a].open)
    ensures InsideOutcome(alts, repl, a, s[|alts[a].open|..]) ==
      match SpanAt(s, alts[a])
      case Some(n) => repl + Reader(s[n..], alts, repl, Outside)
      case None => [s[0]] + Reader(s[1..], alts, repl, Outside)
  {
    var d := alts[a];
    var u := s[|d.open|..];
    match Find(u, d.close)
    case Some(k) =>
      ClosedTail(s, d, k);
    case None =>
      UnclosedTail(s, d);
  }

  lemma ClosedTail(s: string, d: Delims, k: nat)
    requires |d.open| + k + |d.close| <= |s|
    ensures s[|d.open|..][k + |d.close|..] == s[|d.open| + k + |d.close|..]
  {
  }

  lemma UnclosedTail(s: string, d: Delims)
    requires 0 < |d.open| && StartsWith(s, d.open)
    ensures d.open[0] == s[0]
    ensures (d.open + s[|d.open|..])[1..] == s[1..]
  {
    assert s[..|d.open|] == d.open;
    assert s[..|d.open|][0] == s[0];
    assert d.open + s[|d.open|..] == s;
  }

  /** At an opening delimiter the reader steps inside, holding the delimiter. */
  lemma ReaderEnters(s: string, alts: seq<Delims>, repl: string, a: nat)
    requires WellFormed(alts) && |s| > 0 && OpenAt(s, alts, 0) == Some(a)
    ensures Reader(s, alts, repl, Outside) == InsideOutcome(alts, repl, a, s[|alts[a].open|..])
  {
    var u := s[|alts[a].open|..];
    assert alts[a].open + "" == alts[a].open;
    ReaderInside(alts, repl, a, "", u);
    assert "" + u == u;
  }

  /** Every span pass equals its reference reader, provided no two alternatives open with the same char. */
  lemma {:induction false} SpansAsRead(s: string, alts: seq<Delims>, repl: string)
    requires WellFormed(alts) && DistinctOpens(alts)
    ensures ReplaceSpans(s, alts, repl) == Reader(s, alts, repl, Outside)
    decreases |s|
  {
    if |s| > 0 {
      ReaderStep(s, alts, repl);
      match FirstSpan(s, alts, 0)
      case Some(n) =>
        SpansAsRead(s[n..], alts, repl);
      case None =>
        SpansAsRead(s[1..], alts, repl);
    }
  }

  /** The block-comment pass equals its reference reader. */
  lemma BlockCommentsAsRead(s: string)
    ensures StripBlockComments(s) == Reader(s, BlockComment, "", Outside)
  {
    SpansAsRead(s, BlockComment, "");
  }

  /** The string-literal pass equals its reference reader. */
  lemma StringLiteralsAsRead(s: string)
    ensures StripStringLiterals(s) == Reader(s, StringLiteral, "''", Outside)
  {
    SpansAsRead(s, StringLiteral, "''");
  }

  // ---------------------------------------------------------------------------
  // What each pass does to the text around one comment or literal.
  // ---------------------------------------------------------------------------

  /** LineEnd finds the '\n' at `k` (or the end) when none comes earlier. */
  lemma {:induction false} LineEndIs(s: string, i: nat, k: nat)
    requires i <= k <= |s|
    requires forall j :: i <= j < k ==> s[j] != '\n'
    requires k == |s| || s[k] == '\n'
    ensures LineEnd(s, i) == k
    decreases k - i
  {
    if i < k {
      LineEndIs(s, i + 1, k);
    }
  }

  /** Text without '-' goes through the line-comment pass unchanged. */
  lemma {:induction false} LinePassKeeps(x: string, y: string)
    requires '-' !in x
    ensures StripLineComments(x + y) == x + StripLineComments(y)
    decreases |x|
  {
    if |x| > 0 {
      var s := x + y;
      assert s[0] == x[0] && x[0] in x;
      StripKeepsFirst(s);
      assert s[1..] == x[1..] + y;
      assert '-' !in x[1..] by {
        forall k | 0 <= k < |x[1..]| ensures x[1..][k] in x {
          assert x[1..][k] == x[k + 1];
        }
      }
      LinePassKeeps(x[1..], y);
      calc {
        StripLineComments(s);
        [s[0]] + StripLineComments(s[1..]);
        [x[0]] + (x[1..] + StripLineComments(y));
        { ConsAssoc(x[0], x[1..], StripLineComments(y)); }
        ([x[0]] + x[1..]) + StripLineComments(y);
        { assert x == [x[0]] + x[1..]; }
        x + StripLineComments(y);
      }
    } else {
      assert x + y == y;
    }
  }

  /**
   * A "--" reached by the pass deletes itself and the rest of its line, up to
   * but not including the next '\n'.
   */
  lemma LineCommentDeleted(x: string, c: string, y: string)
    requires '-' !in x && '\n' !in c
    requires |y| == 0 || y[0] == '\n'
    ensures StripLineComments(x + "--" + c + y) == x + StripLineComments(y)
  {
    var s := "--" + (c + y);
    AppendAssoc(x + "--", c, y);
    AppendAssoc(x, "--", c + y);
    LinePassKeeps(x, s);
    CommentLineEnd(c, y);
  }

  /** A "--" at the front is dropped with the rest of its line. */
  lemma CommentLineEnd(c: string, y: string)
    requires '\n' !in c
    requires |y| == 0 || y[0] == '\n'
    ensures StripLineComments("--" + (c + y)) == StripLineComments(y)
  {
    var s := "--" + (c + y);
    forall j | 0 <= j < 2 + |c| ensures s[j] != '\n' {
      if j >= 2 {
        assert s[j] == c[j - 2];
        assert c[j - 2] in c;
      }
    }
    if |y| > 0 {
      assert s[2 + |c|] == y[0];
    }
    LineEndIs(s, 0, 2 + |c|);
    assert DashesAt(s);
    assert s[2 + |c|..] == y;
  }

  /** The first char of some opening delimiter of `alts`. */
  predicate OpensWith(alts: seq<Delims>, ch: char)
    requires WellFormed(alts)
  {
    exists a :: 0 <= a < |alts| && alts[a].open[0] == ch
  }

  /** Text holding no opening char goes through a span pass unchanged. */
  lemma {:induction false} SpanPassKeeps(x: string, y: string, alts: seq<Delims>, repl: string)
    requires WellFormed(alts)
    requires forall k :: 0 <= k < |x| ==> !OpensWith(alts, x[k])
    ensures ReplaceSpans(x + y, alts, repl) == x + ReplaceSpans(y, alts, repl)
    decreases |x|
  {
    if |x| > 0 {
      var s := x + y;
      SpanPassStep(s, alts, repl);
      assert s[1..] == x[1..] + y;
      forall k | 0 <= k < |x[1..]| ensures !OpensWith(alts, x[1..][k]) {
        assert x[1..][k] == x[k + 1];
      }
      SpanPassKeeps(x[1..], y, alts, repl);
      ConsAssoc(x[0], x[1..], ReplaceSpans(y, alts, repl));
      assert x == [x[0]] + x[1..];
    } else {
      assert x + y == y;
    }
  }

  /** A span pass copies a first char that opens nothing. */
  lemma SpanPassStep(s: string, alts: seq<Delims>, repl: string)
    requires WellFormed(alts) && |s| > 0 && !OpensWith(alts, s[0])
    ensures ReplaceSpans(s, alts, repl) == [s[0]] + ReplaceSpans(s[1..], alts, repl)
  {
    forall b | 0 <= b < |alts| ensures !StartsWith(s, alts[b].open) {
      StartsWithHead(s, alts[b].open);
    }
    NoOpenNoSpan(s, alts, 0);
  }

  /** Find reports `k` when the pattern occurs there and nowhere before. */
  lemma FindIs(s: string, pat: string, k: nat)
    requires |pat| > 0 && OccursAt(s, pat, k)
    requires forall j :: 0 <= j < k ==> !OccursAt(s, pat, j)
    ensures Find(s, pat) == Some(k)
  {
  }

  /** The span that opens `s` with alternative `a` and closes after `c`. */
  lemma SpanOfOpen(c: string, y: string, alts: seq<Delims>, a: nat)
    requires WellFormed(alts) && DistinctOpens(alts) && a < |alts|
    requires forall j :: 0 <= j < |c| ==> !OccursAt(c + alts[a].close + y, alts[a].close, j)
    ensures FirstSpan(alts[a].open + c + alts[a].close + y, alts, 0) == Some(|alts[a].open| + |c| + |alts[a].close|)
  {
    var d := alts[a];
    var u := c + d.close + y;
    var s := d.open + u;
    assert d.open + c + d.close + y == s;
    assert StartsWith(s, d.open) by { assert s[..|d.open|] == d.open; }
    forall b | 0 <= b < a ensures !StartsWith(s, alts[b].open) {
      StartsWithHead(s, alts[b].open);
      StartsWithHead(s, d.open);
    }
    OpenAtIs(s, alts, 0, a);
    FirstSpanIsOpenSpan(s, alts, 0);
    assert s[|d.open|..] == u;
    assert OccursAt(u, d.close, |c|) by { assert u[|c|..|c| + |d.close|] == d.close; }
    FindIs(u, d.close, |c|);
  }

  /**
   * A span of alternative `a` reached by the pass, closed by the first closing
   * delimiter after its opening one, is replaced as a whole by `repl`.
   */
  lemma SpanReplaced(x: string, c: string, y: string, alts: seq<Delims>, repl: string, a: nat)
    requires WellFormed(alts) && DistinctOpens(alts) && a < |alts|
    requires forall k :: 0 <= k < |x| ==> !OpensWith(alts, x[k])
    requires forall j :: 0 <= j < |c| ==> !OccursAt(c + alts[a].close + y, alts[a].close, j)
    ensures ReplaceSpans(x + alts[a].open + c + alts[a].close + y, alts, repl) == x + repl + ReplaceSpans(y, alts, repl)
  {
    var d := alts[a];
    var s := d.open + c + d.close + y;
    assert x + d.open + c + d.close + y == x + s;
    SpanPassKeeps(x, s, alts, repl);
    SpanOfOpen(c, y, alts, a);
    assert s[|d.open| + |c| + |d.close|..] == y;
  }

  lemma {:induction false} OpenAtIs(s: string, alts: seq<Delims>, from: nat, a: nat)
    requires from <= a < |alts|
    requires StartsWith(s, alts[a].open)
    requires forall b :: from <= b < a ==> !StartsWith(s, alts[b].open)
    ensures OpenAt(s, alts, from) == Some(a)
    decreases a - from
  {
    if from < a {
      OpenAtIs(s, alts, from + 1, a);
    }
  }

  /** A block comment reached by the pass is deleted through the first "*" "/" after its opening. */
  lemma BlockCommentDeleted(x: string, c: string, y: string)
    requires '/' !in x
    requires forall j :: !OccursAt(c, "*/", j)
    ensures StripBlockComments(x + "/*" + c + "*/" + y) == x + StripBlockComments(y)
  {
    var alts := BlockComment;
    forall k | 0 <= k < |x| ensures !OpensWith(alts, x[k]) {
      assert x[k] in x;
    }
    forall j | 0 <= j < |c| ensures !OccursAt(c + "*/" + y, "*/", j) {
      var u := c + "*/" + y;
      if j + 2 <= |c| {
        assert !OccursAt(c, "*/", j);
        assert u[j..j + 2] == c[j..j + 2];
      } else {
        assert j + 1 == |c|;
        assert u == c + ("*/" + y);
        assert u[|c|] == '*';
        assert u[j..j + 2][1] == u[j + 1];
      }
    }
    SpanReplaced(x, c, y, alts, "", 0);
    assert x + "" == x;
  }

  /** A string literal reached by the pass, in quotes `q`, is replaced by `''`. */
  lemma StringLiteralReplaced(x: string, q: char, c: string, y: string)
    requires '\'' !in x && '"' !in x
    requires q == '\'' || q == '"'
    requires q !in c
    ensures StripStringLiterals(x + [q] + c + [q] + y) == x + "''" + StripStringLiterals(y)
  {
    var alts := StringLiteral;
    var a := if q == '\'' then 0 else 1;
    forall k | 0 <= k < |x| ensures !OpensWith(alts, x[k]) {
      assert x[k] in x;
    }
    forall j | 0 <= j < |c| ensures !OccursAt(c + [q] + y, [q], j) {
      assert (c + [q] + y)[j..j + 1] == [c[j]];
    }
    SpanReplaced(x, c, y, alts, "''", a);
  }

  /** Text that none of the three passes touches: no '-', '/' or quote. */
  predicate Plain(x: string) {
    '-' !in x && '/' !in x && '\'' !in x && '"' !in x
  }

  /** Plain text in front goes through all three passes unchanged. */
  lemma CleanKeeps(x: string, y: string)
    requires Plain(x)
    ensures Clean(x + y) == x + Clean(y)
  {
    forall k | 0 <= k < |x| ensures !OpensWith(BlockComment, x[k]) && !OpensWith(StringLiteral, x[k]) {
      assert x[k] in x;
    }
    LinePassKeeps(x, y);
    SpanPassKeeps(x, StripLineComments(y), BlockComment, "");
    SpanPassKeeps(x, StripBlockComments(StripLineComments(y)), StringLiteral, "''");
  }

  /** Plain text is its own cleaned text. */
  lemma CleanPlain(x: string)
    requires Plain(x)
    ensures StripLineComments(x) == x
    ensures StripBlockComments(x) == x
    ensures StripStringLiterals(x) == x
    ensures Clean(x) == x
  {
    forall k | 0 <= k < |x| ensures !OpensWith(BlockComment, x[k]) && !OpensWith(StringLiteral, x[k]) {
      assert x[k] in x;
    }
    assert x + "" == x;
    LinePassKeeps(x, "");
    SpanPassKeeps(x, "", BlockComment, "");
    SpanPassKeeps(x, "", StringLiteral, "''");
  }

  /** A line comment between plain text disappears, up to but not including its '\n'. */
  lemma LineCommentCleaned(x: string, c: string, y: string)
    requires Plain(x) && Plain(y) && '\n' !in c
    requires |y| == 0 || y[0] == '\n'
    ensures Clean(x + "--" + c + y) == x + y
  {
    LineCommentDeleted(x, c, y);
    CleanPlain(y);
    CleanPlain(x + y);
  }

  /** A block comment between plain text disappears; what it holds never reaches the later passes. */
  lemma BlockCommentCleaned(x: string, c: string, y: string)
    requires Plain(x) && Plain(y) && '-' !in c
    requires forall j :: !OccursAt(c, "*/", j)
    ensures Clean(x + "/*" + c + "*/" + y) == x + y
  {
    var s := x + "/*" + c + "*/" + y;
    assert '-' !in s;
    CleanPlain(s[..0]);
    assert s + "" == s;
    LinePassKeeps(s, "");
    BlockCommentDeleted(x, c, y);
    CleanPlain(y);
    CleanPlain(x + y);
  }

  /** A string literal between plain text becomes `''`; names inside it are gone. */
  lemma LiteralCleaned(x: string, q: char, c: string, y: string)
    requires Plain(x) && Plain(y)
    requires q == '\'' || q == '"'
    requires q !in c && '-' !in c && '/' !in c
    ensures Clean(x + [q] + c + [q] + y) == x + "''" + y
  {
    var s := x + [q] + c + [q] + y;
    assert '-' !in s && '/' !in s;
    assert s + "" == s;
    LinePassKeeps(s, "");
    forall k | 0 <= k < |s| ensures !OpensWith(BlockComment, s[k]) {
      assert s[k] in s;
    }
    SpanPassKeeps(s, "", BlockComment, "");
    StringLiteralReplaced(x, q, c, y);
    CleanPlain(y);
  }

  /** An opening quote with no closing one is kept as an ordinary char. */
  lemma UnclosedQuoteKept(z: string)
    requires '\'' !in z && '"' !in z
    ensures StripStringLiterals("'" + z) == "'" + z
  {
    var s := "'" + z;
    assert s[1..] == z;
    forall j | 0 <= j < |z| ensures !OccursAt(z, "'", j) {
      assert z[j] in z;
      assert z[j..j + 1] == [z[j]];
    }
    assert Find(z, "'") == None;
    assert !StartsWith(s, "\"");
    forall k | 0 <= k < |z| ensures !OpensWith(StringLiteral, z[k]) {
      assert z[k] in z;
    }
    assert z + "" == z;
    SpanPassKeeps(z, "", StringLiteral, "''");
  }

  /**
   * The line-comment pass runs before literals are recognised, so a "--"
   * inside a quoted literal starts a comment: the rest of that line is
   * deleted, closing quote included, and the opening quote is left unmatched.
   */
  lemma DashesInLiteralCutLine(x: string, c: string, d: string, y: string)
    requires Plain(x) && Plain(c) && Plain(y) && '\n' !in d
    requires |y| == 0 || y[0] == '\n'
    ensures Clean(x + "'" + c + "--" + d + y) == x + "'" + c + y
  {
    var s := x + "'" + c + "--" + d + y;
    var z := c + y;
    LineCutInLiteral(x, c, d, y);
    UnclosedQuoteCleaned(x, z);
    AppendAssoc(x + "'", c, y);
    AppendAssoc(x, "'", z);
  }

  lemma LineCutInLiteral(x: string, c: string, d: string, y: string)
    requires Plain(x) && Plain(c) && Plain(y) && '\n' !in d
    requires |y| == 0 || y[0] == '\n'
    ensures StripLineComments(x + "'" + c + "--" + d + y) == x + ("'" + (c + y))
  {
    var u := x + "'" + c;
    LineCommentDeleted(u, d, y);
    CleanPlain(y);
    AppendAssoc(x + "'", c, y);
    AppendAssoc(x, "'", c + y);
  }

  /** Plain text followed by a quote that is never closed is its own cleaned text after the line pass. */
  lemma UnclosedQuoteCleaned(x: string, z: string)
    requires Plain(x) && Plain(z)
    ensures StripStringLiterals(StripBlockComments(x + ("'" + z))) == x + ("'" + z)
  {
    var v := "'" + z;
    assert '/' !in v;
    forall k | 0 <= k < |v| ensures !OpensWith(BlockComment, v[k]) {
      assert v[k] in v;
    }
    assert v + "" == v;
    SpanPassKeeps(v, "", BlockComment, "");
    CleanKeepsAfterLine(x, v);
    UnclosedQuoteKept(z);
  }

  /** Plain text in front goes through the two span passes unchanged. */
  lemma CleanKeepsAfterLine(x: string, v: string)
    requires Plain(x)
    ensures StripStringLiterals(StripBlockComments(x + v)) == x + StripStringLiterals(StripBlockComments(v))
  {
    forall k | 0 <= k < |x| ensures !OpensWith(BlockComment, x[k]) && !OpensWith(StringLiteral, x[k]) {
      assert x[k] in x;
    }
    SpanPassKeeps(x, v, BlockComment, "");
    SpanPassKeeps(x, StripBlockComments(v), StringLiteral, "''");
  }
}

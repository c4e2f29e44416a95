/**
 * The three rules built by `_compile_patterns` in ticker_extractor.py, written as
 * hand-made matchers over ASCII text with IGNORECASE semantics, and the
 * leftmost, non-overlapping scan that `finditer` performs with each of them.
 *
 * Each matcher tries its alternatives in the order Python's backtracking engine
 * does: bounded letter repetitions from the longest count down, the `{0,3}` gap
 * from three words down, alternations left to right (with `s?` tried with the
 * `s` first). Backtracking into `\s+` and `\w+` is never productive in these
 * three patterns (what follows a `\s+` always starts with a non-space, what
 * follows a `\w+` always starts with `\s`), so they take their maximal runs.
 */
module Patterns {
  import opened Wrappers
  import opened AsciiText

  /** The dollar rule (HIGH), the action-word-before-ticker rule and the ticker-before-action-word rule (MEDIUM). */
  datatype Pattern = Dollar | ActionBefore | TickerBeforeAction

  /** One regex match: the whole match is t[start..end], the ticker group is t[capStart..capEnd]. */
  datatype Match = Match(start: nat, end: nat, capStart: nat, capEnd: nat)

  /** Action vocabulary of the action-before rule, in alternation order, `calls?` and `puts?` expanded. */
  const ActionWords: seq<string> := [
    "buy", "buying", "bought",
    "sell", "selling", "sold",
    "long", "short", "shorting",
    "calls", "call", "puts", "put",
    "holding", "hold",
    "yolo", "yoloing", "yoloed",
    "position", "positioned",
    "added", "adding",
    "loaded", "loading",
    "grabbed", "grabbing",
    "picked", "picking",
    "dumped", "dumping"
  ]

  /** Words of the ticker-before-action rule, in alternation order, `s?` expanded. */
  const SuffixWords: seq<string> := ["calls", "call", "puts", "put", "position", "shares", "share", "stock"]

  predicate WellFormed(t: string, m: Match) {
    m.start < m.end <= |t| && m.start <= m.capStart <= m.capEnd <= m.end
  }

  /** Regex `\b` at position i: exactly one side of i is a word character. */
  predicate IsBoundary(t: string, i: nat)
    requires i <= |t|
  {
    (0 < i && IsWordChar(t[i - 1])) != (i < |t| && IsWordChar(t[i]))
  }

  /** The lower-case literal w matches case-insensitively at p. */
  predicate LiteralAt(t: string, p: nat, w: string) {
    p + |w| <= |t| && forall j :: 0 <= j < |w| ==> LowerChar(t[p + j]) == w[j]
  }

  predicate AllLetters(t: string, lo: nat, hi: nat)
    requires lo <= hi <= |t|
  {
    forall j :: lo <= j < hi ==> IsLetter(t[j])
  }

  /** A non-empty all-letter stretch of the text is alphabetic. */
  lemma AllLettersAlpha(t: string, lo: nat, hi: nat)
    requires lo < hi <= |t| && AllLetters(t, lo, hi)
    ensures IsAlpha(t[lo..hi])
  {
    assert forall k :: 0 <= k < hi - lo ==> t[lo..hi][k] == t[lo + k];
  }

  /** Length of the longest run of letters starting at p. */
  function LetterRun(t: string, p: nat): (n: nat)
    requires p <= |t|
    ensures p + n <= |t| && AllLetters(t, p, p + n)
    ensures p + n == |t| || !IsLetter(t[p + n])
    decreases |t| - p
  {
    if p < |t| && IsLetter(t[p]) then 1 + LetterRun(t, p + 1) else 0
  }

  /** Length of the longest run of `\s` characters starting at p. */
  function SpaceRun(t: string, p: nat): (n: nat)
    requires p <= |t|
    ensures p + n <= |t| && forall j :: p <= j < p + n ==> IsSpace(t[j])
    ensures p + n == |t| || !IsSpace(t[p + n])
    decreases |t| - p
  {
    if p < |t| && IsSpace(t[p]) then 1 + SpaceRun(t, p + 1) else 0
  }

  /** Length of the longest run of `\w` characters starting at p. */
  function WordRun(t: string, p: nat): (n: nat)
    requires p <= |t|
    ensures p + n <= |t| && forall j :: p <= j < p + n ==> IsWordChar(t[j])
    ensures p + n == |t| || !IsWordChar(t[p + n])
    decreases |t| - p
  {
    if p < |t| && IsWordChar(t[p]) then 1 + WordRun(t, p + 1) else 0
  }

  /** `[A-Za-z]{2,k}\b` at p, the repetition tried greedily from k letters down to 2; the end of the match. */
  function LettersThenBoundary(t: string, p: nat, k: nat): (r: Option<nat>)
    requires p <= |t|
    ensures r.Some? ==> p + 2 <= r.value <= p + k && r.value <= |t| && AllLetters(t, p, r.value)
    ensures r.Some? ==> IsBoundary(t, r.value)
    decreases k
  {
    if k < 2 then None
    else if p + k <= |t| && AllLetters(t, p, p + k) && IsBoundary(t, p + k) then Some(p + k)
    else LettersThenBoundary(t, p, k - 1)
  }

  /** Dollar rule `\$([A-Za-z]{2,5})\b` at i. */
  function DollarAt(t: string, i: nat): (r: Option<Match>)
    requires i <= |t|
    ensures r.Some? ==> r.value.start == i && WellFormed(t, r.value)
  {
    if i < |t| && t[i] == '$' then
      match LettersThenBoundary(t, i + 1, 5)
      case Some(e) => Some(Match(i, e, i + 1, e))
      case None => None
    else None
  }

  /** An alternation of literals, each followed by `\b`: the end of the first alternative that matches at p. */
  function AlternativeThenBoundary(t: string, p: nat, ws: seq<string>): (r: Option<nat>)
    requires p <= |t|
    ensures r.Some? ==> p <= r.value <= |t| && IsBoundary(t, r.value)
    decreases |ws|
  {
    if ws == [] then None
    else if LiteralAt(t, p, ws[0]) && IsBoundary(t, p + |ws[0]|) then Some(p + |ws[0]|)
    else AlternativeThenBoundary(t, p, ws[1..])
  }

  /**
   * `([A-Z]{2,k})` at i followed by the rest of a pattern, whose match from
   * each position is given by `after`: the letter repetition is tried
   * greedily from k down to 2, and the first count after which the rest
   * matches wins.
   */
  function LettersThen(t: string, i: nat, k: nat, after: nat -> Option<nat>): (r: Option<Match>)
    requires i <= |t|
    ensures r.Some? ==> r.value.start == r.value.capStart == i && i + 2 <= r.value.capEnd <= i + k
    ensures r.Some? ==> r.value.capEnd <= |t| && AllLetters(t, i, r.value.capEnd) && after(r.value.capEnd) == Some(r.value.end)
    decreases k
  {
    if k < 2 then None
    else if i + k <= |t| && AllLetters(t, i, i + k) && after(i + k).Some? then Some(Match(i, after(i + k).value, i, i + k))
    else LettersThen(t, i, k - 1, after)
  }

  /** `\s+(ws)\b` from each position of t: the rest of the pattern after the ticker group. */
  function SuffixAfter(t: string, ws: seq<string>): nat -> Option<nat> {
    (q: nat) => if q <= |t| then SpaceThenSuffix(t, q, ws) else None
  }

  /** `\s+(ws)\b` at p: the end of the match. */
  function SpaceThenSuffix(t: string, p: nat, ws: seq<string>): (r: Option<nat>)
    requires p <= |t|
    ensures r.Some? ==> p < r.value <= |t| && IsSpace(t[p]) && IsBoundary(t, r.value)
  {
    var n := SpaceRun(t, p);
    if n == 0 then None else AlternativeThenBoundary(t, p + n, ws)
  }

  /** Ticker-before-action rule `\b([A-Z]{2,5})\s+(calls?|puts?|position|shares?|stock)\b` at i. */
  function TickerBeforeActionAt(t: string, i: nat): (r: Option<Match>)
    requires i <= |t|
    ensures r.Some? ==> r.value.start == r.value.capStart == i && WellFormed(t, r.value) && IsBoundary(t, i)
    ensures r.Some? ==> 2 <= r.value.capEnd - i <= 5 && r.value.capEnd < r.value.end && AllLetters(t, i, r.value.capEnd)
    ensures r.Some? ==> IsSpace(t[r.value.capEnd]) && IsBoundary(t, r.value.end)
  {
    if IsBoundary(t, i) then LettersThen(t, i, 5, SuffixAfter(t, SuffixWords)) else None
  }

  /** The ticker group of the action-before rule: t[start..end]. */
  datatype Span = Span(start: nat, end: nat)

  /** The end of one `\w+\s+` unit at q, if one starts there. */
  function UnitEnd(t: string, q: nat): (r: Option<nat>)
    requires q <= |t|
    ensures r.Some? ==> q < r.value <= |t|
  {
    var w := WordRun(t, q);
    var s := SpaceRun(t, q + w);
    if 0 < w && 0 < s then Some(q + w + s) else None
  }

  /**
   * `(?:\w+\s+){0,k}([A-Z]{2,5})\b` at q. The repetition is greedy: one more
   * word-and-space unit is taken whenever the rest still matches after it, so
   * the furthest ticker token that fits is the one captured.
   */
  function GapThenTicker(t: string, q: nat, k: nat): (r: Option<Span>)
    requires q <= |t|
    ensures r.Some? ==> q <= r.value.start && r.value.start + 2 <= r.value.end <= r.value.start + 5 && r.value.end <= |t|
    ensures r.Some? ==> AllLetters(t, r.value.start, r.value.end) && IsBoundary(t, r.value.end)
    decreases k
  {
    var further :=
      if 0 < k then
        match UnitEnd(t, q)
        case Some(q') => GapThenTicker(t, q', k - 1)
        case None => None
      else None;
    if further.Some? then further else TokenAt(t, q)
  }

  /** `[A-Z]{2,5}\b` at q, as a span. */
  function TokenAt(t: string, q: nat): (r: Option<Span>)
    requires q <= |t|
    ensures r.Some? <==> LettersThenBoundary(t, q, 5).Some?
    ensures r.Some? ==> r.value.start == q && LettersThenBoundary(t, q, 5) == Some(r.value.end)
  {
    match LettersThenBoundary(t, q, 5)
    case Some(e) => Some(Span(q, e))
    case None => None
  }

  /** `\s+(?:\w+\s+){0,3}([A-Z]{2,5})\b` at p, right after an action word. */
  function AfterActionWord(t: string, p: nat): (r: Option<Span>)
    requires p <= |t|
    ensures r.Some? ==> p < r.value.start <= |t| && IsSpace(t[p])
    ensures r.Some? ==> r.value.start + 2 <= r.value.end <= r.value.start + 5 && r.value.end <= |t|
    ensures r.Some? ==> AllLetters(t, r.value.start, r.value.end) && IsBoundary(t, r.value.end)
  {
    var n := SpaceRun(t, p);
    if n == 0 then None else GapThenTicker(t, p + n, 3)
  }

  /** The rest of the action-before rule after an action word that ends at p. */
  function ActionRest(t: string): nat -> Option<Span> {
    (p: nat) => if p <= |t| then AfterActionWord(t, p) else None
  }

  /**
   * The ordered alternation ws at i from alternative k on, each alternative
   * followed by the rest of the rule, after: the first alternative that matches
   * and whose rest succeeds gives the match, and the rest's span is the group.
   */
  function ActionWordThenTicker(t: string, i: nat, ws: seq<string>, k: nat, after: nat -> Option<Span>): (r: Option<Match>)
    ensures r.Some? ==> r.value.start == i && r.value.capEnd == r.value.end
    ensures r.Some? ==> exists j :: k <= j < |ws| && LiteralAt(t, i, ws[j]) && after(i + |ws[j]|) == Some(Span(r.value.capStart, r.value.end))
    decreases |ws| - k
  {
    if k >= |ws| then None
    else if LiteralAt(t, i, ws[k]) && after(i + |ws[k]|).Some? then
      Some(Match(i, after(i + |ws[k]|).value.end, after(i + |ws[k]|).value.start, after(i + |ws[k]|).value.end))
    else ActionWordThenTicker(t, i, ws, k + 1, after)
  }

  /** Action-before rule `\b(action words)\s+(?:\w+\s+){0,3}([A-Z]{2,5})\b` at i. */
  function ActionBeforeAt(t: string, i: nat): (r: Option<Match>)
    requires i <= |t|
    ensures r.Some? ==> r.value.start == i && WellFormed(t, r.value) && IsBoundary(t, i)
    ensures r.Some? ==> exists j :: 0 <= j < |ActionWords| && LiteralAt(t, i, ActionWords[j]) && i + |ActionWords[j]| < r.value.capStart && IsSpace(t[i + |ActionWords[j]|])
    ensures r.Some? ==> 2 <= r.value.capEnd - r.value.capStart <= 5 && r.value.capEnd == r.value.end
    ensures r.Some? ==> AllLetters(t, r.value.capStart, r.value.capEnd) && IsBoundary(t, r.value.end)
  {
    if IsBoundary(t, i) then ActionWordThenTicker(t, i, ActionWords, 0, ActionRest(t)) else None
  }

  /** The match of pattern pat that starts exactly at i, if any. */
  function MatchAt(pat: Pattern, t: string, i: nat): (r: Option<Match>)
    requires i <= |t|
    ensures r.Some? ==> r.value.start == i && WellFormed(t, r.value)
  {
    match pat
    case Dollar => DollarAt(t, i)
    case ActionBefore => ActionBeforeAt(t, i)
    case TickerBeforeAction => TickerBeforeActionAt(t, i)
  }

  /** Attempting pat at every position 0..|t|, as the regex search does. */
  function Attempts(pat: Pattern, t: string): (a: seq<Option<Match>>)
    ensures |a| == |t| + 1 && AttemptsWellFormed(a)
    ensures forall i :: 0 <= i <= |t| ==> a[i] == MatchAt(pat, t, i)
  {
    seq(|t| + 1, i requires 0 <= i <= |t| => MatchAt(pat, t, i))
  }

  /** The attempt made at i, if it succeeds, starts at i and ends after i, within the text. */
  predicate AttemptsWellFormed(a: seq<Option<Match>>) {
    forall i :: 0 <= i < |a| && a[i].Some? ==>
      a[i].value.start == i < a[i].value.end < |a| && a[i].value.start <= a[i].value.capStart <= a[i].value.capEnd <= a[i].value.end
  }

  /**
   * The search loop of `finditer` over the attempts a: from pos, move right one
   * position at a time until an attempt succeeds, record its match and resume
   * at the match's end.
   */
  function Scan(a: seq<Option<Match>>, pos: nat): (ms: seq<Match>)
    requires AttemptsWellFormed(a)
    ensures forall j :: 0 <= j < |ms| ==> pos <= ms[j].start < ms[j].end < |a|
    ensures forall j :: 0 <= j < |ms| ==> ms[j].start <= ms[j].capStart <= ms[j].capEnd <= ms[j].end
    decreases |a| - pos
  {
    if pos >= |a| then []
    else
      match a[pos]
      case Some(m) => [m] + Scan(a, m.end)
      case None => Scan(a, pos + 1)
  }

  /** `pattern.finditer(t)` started at pos. */
  function FindAll(pat: Pattern, t: string, pos: nat): (ms: seq<Match>)
    ensures forall j :: 0 <= j < |ms| ==> pos <= ms[j].start && WellFormed(t, ms[j])
  {
    Scan(Attempts(pat, t), pos)
  }

  /** Every match the scan reports is the successful attempt at its own start. */
  lemma {:induction false} ScanSound(a: seq<Option<Match>>, pos: nat, j: nat)
    requires AttemptsWellFormed(a) && j < |Scan(a, pos)|
    ensures a[Scan(a, pos)[j].start] == Some(Scan(a, pos)[j])
    decreases |a| - pos
  {
    var ms := Scan(a, pos);
    if a[pos].Some? {
      var m := a[pos].value;
      var rest := Scan(a, m.end);
      assert ms == [m] + rest;
      if j > 0 {
        ScanSound(a, m.end, j - 1);
        assert ms[j] == rest[j - 1];
      }
    } else {
      ScanSound(a, pos + 1, j);
    }
  }

  /** The matches are reported left to right and do not overlap. */
  predicate Ordered(ms: seq<Match>) {
    forall j, k :: 0 <= j < k < |ms| ==> ms[j].end <= ms[k].start
  }

  lemma {:induction false} ScanOrdered(a: seq<Option<Match>>, pos: nat)
    requires AttemptsWellFormed(a)
    ensures Ordered(Scan(a, pos))
    decreases |a| - pos
  {
    var ms := Scan(a, pos);
    if pos < |a| {
      if a[pos].Some? {
        var m := a[pos].value;
        var rest := Scan(a, m.end);
        ScanOrdered(a, m.end);
        assert ms == [m] + rest;
        forall j, k | 0 <= j < k < |ms|
          ensures ms[j].end <= ms[k].start
        {
          assert ms[k] == rest[k - 1];
          if j > 0 {
            assert ms[j] == rest[j - 1];
          }
        }
      } else {
        ScanOrdered(a, pos + 1);
      }
    }
  }

  /**
   * The scan skips nothing: every position from pos on whose attempt succeeds
   * lies inside a reported match (at its start, or within a match that was
   * taken instead because it began further left).
   */
  lemma {:induction false} ScanCovers(a: seq<Option<Match>>, pos: nat, q: nat) returns (j: nat)
    requires AttemptsWellFormed(a) && pos <= q < |a| && a[q].Some?
    ensures j < |Scan(a, pos)| && Scan(a, pos)[j].start <= q < Scan(a, pos)[j].end
    decreases |a| - pos
  {
    var ms := Scan(a, pos);
    if a[pos].Some? {
      var m := a[pos].value;
      var rest := Scan(a, m.end);
      assert ms == [m] + rest;
      if q < m.end {
        j := 0;
      } else {
        var j' := ScanCovers(a, m.end, q);
        assert ms[j' + 1] == rest[j'];
        j := j' + 1;
      }
    } else {
      j := ScanCovers(a, pos + 1, q);
    }
  }

  /** Every match `finditer` reports is the pattern's match at that match's start. */
  lemma FindAllSound(pat: Pattern, t: string, pos: nat, j: nat)
    requires j < |FindAll(pat, t, pos)|
    ensures MatchAt(pat, t, FindAll(pat, t, pos)[j].start) == Some(FindAll(pat, t, pos)[j])
  {
    ScanSound(Attempts(pat, t), pos, j);
  }

  /** `finditer` reports its matches left to right, without overlap. */
  lemma FindAllOrdered(pat: Pattern, t: string, pos: nat)
    ensures Ordered(FindAll(pat, t, pos))
  {
    ScanOrdered(Attempts(pat, t), pos);
  }

  /** Every position from pos on where the pattern matches lies inside a match `finditer` reports. */
  lemma FindAllCovers(pat: Pattern, t: string, pos: nat, q: nat) returns (j: nat)
    requires pos <= q <= |t| && MatchAt(pat, t, q).Some?
    ensures j < |FindAll(pat, t, pos)|
    ensures FindAll(pat, t, pos)[j].start <= q < FindAll(pat, t, pos)[j].end
  {
    j := ScanCovers(Attempts(pat, t), pos, q);
  }

  /** Case analysis of `[A-Za-z]{2,k}\b`: it matches exactly the whole letter run, when that has 2..k letters and no digit or `_` follows. */
  lemma {:induction false} LettersThenBoundaryExact(t: string, p: nat, k: nat)
    requires p <= |t|
    ensures var n := LetterRun(t, p);
      LettersThenBoundary(t, p, k) ==
        if 2 <= n <= k && (p + n == |t| || !IsWordChar(t[p + n])) then Some(p + n) else None
    decreases k
  {
    var n := LetterRun(t, p);
    if 2 <= k {
      if p + k <= |t| && AllLetters(t, p, p + k) {
        if n > k { assert IsLetter(t[p + k]) && IsLetter(t[p + k - 1]); }
      }
      LettersThenBoundaryExact(t, p, k - 1);
    }
  }

  /**
   * The dollar rule matches at i exactly when `$` is followed by a run of 2 to 5
   * letters that no digit or `_` continues; the match is `$` plus the whole run.
   * In particular `$` followed by six or more letters never matches.
   */
  lemma DollarAtExact(t: string, i: nat)
    requires i <= |t|
    ensures DollarAt(t, i).Some? <==>
      i < |t| && t[i] == '$' && 2 <= LetterRun(t, i + 1) <= 5 &&
      (i + 1 + LetterRun(t, i + 1) == |t| || !IsWordChar(t[i + 1 + LetterRun(t, i + 1)]))
    ensures DollarAt(t, i).Some? ==>
      DollarAt(t, i).value == Match(i, i + 1 + LetterRun(t, i + 1), i + 1, i + 1 + LetterRun(t, i + 1))
  {
    if i < |t| && t[i] == '$' {
      LettersThenBoundaryExact(t, i + 1, 5);
    }
  }

  /** The alternative w matches at p and is followed by a word boundary. */
  predicate AlternativeFits(t: string, p: nat, w: string) {
    LiteralAt(t, p, w) && IsBoundary(t, p + |w|)
  }

  /** Some alternative of ws fits at p. */
  predicate SomeFits(t: string, p: nat, ws: seq<string>) {
    exists j: nat :: j < |ws| && AlternativeFits(t, p, ws[j])
  }

  /** An ordered alternation of literals, each followed by `\b`, succeeds at p exactly when one of its alternatives fits there. */
  lemma {:induction false} AlternativeThenBoundaryExact(t: string, p: nat, ws: seq<string>)
    requires p <= |t|
    ensures AlternativeThenBoundary(t, p, ws).Some? <==> SomeFits(t, p, ws)
    decreases |ws|
  {
    if ws != [] {
      AlternativeThenBoundaryExact(t, p, ws[1..]);
      if AlternativeFits(t, p, ws[0]) {
        assert SomeFits(t, p, ws) by { assert 0 < |ws| && AlternativeFits(t, p, ws[0]); }
      } else {
        if SomeFits(t, p, ws[1..]) {
          var j: nat :| j < |ws[1..]| && AlternativeFits(t, p, ws[1..][j]);
          assert ws[j + 1] == ws[1..][j];
        }
        if SomeFits(t, p, ws) {
          var j: nat :| j < |ws| && AlternativeFits(t, p, ws[j]);
          assert j != 0 && ws[1..][j - 1] == ws[j];
        }
      }
    }
  }

  /** ws[j] is the first alternative of ws that fits at p. */
  predicate FirstFit(t: string, p: nat, ws: seq<string>, j: nat) {
    j < |ws| && AlternativeFits(t, p, ws[j]) && forall j' :: 0 <= j' < j ==> !AlternativeFits(t, p, ws[j'])
  }

  /** On success, the alternation ends after the first alternative that fits: every earlier one was tried and failed. */
  lemma {:induction false} AlternativeThenBoundaryFirst(t: string, p: nat, ws: seq<string>)
    requires p <= |t| && AlternativeThenBoundary(t, p, ws).Some?
    ensures exists j: nat :: FirstFit(t, p, ws, j) && AlternativeThenBoundary(t, p, ws).value == p + |ws[j]|
    decreases |ws|
  {
    if !AlternativeFits(t, p, ws[0]) {
      AlternativeThenBoundaryFirst(t, p, ws[1..]);
      var j: nat :| FirstFit(t, p, ws[1..], j) && AlternativeThenBoundary(t, p, ws[1..]).value == p + |ws[1..][j]|;
      assert ws[j + 1] == ws[1..][j];
      assert forall j' :: 1 <= j' < j + 1 ==> ws[j'] == ws[1..][j' - 1];
      assert FirstFit(t, p, ws, j + 1);
    } else {
      assert FirstFit(t, p, ws, 0);
    }
  }

  /**
   * Case analysis of `([A-Z]{2,k})` followed by a rest that cannot start at a
   * letter: the group is the whole letter run at i, which must have 2..k
   * letters, and the match is the rest's match after it.
   */
  lemma LettersThenExact(t: string, i: nat, k: nat, q: nat, after: nat -> Option<nat>)
    requires i <= |t| && q == i + LetterRun(t, i)
    requires forall x: nat :: i <= x < |t| && IsLetter(t[x]) ==> after(x).None?
    ensures LettersThen(t, i, k, after) ==
      if 2 <= q - i <= k && after(q).Some? then Some(Match(i, after(q).value, i, q)) else None
  {
    var n := q - i;
    if k < n {
      LettersThenShort(t, i, k, after);
    } else {
      LettersThenLong(t, i, k, n, after);
      if 2 <= n {
        LettersThenShort(t, i, n - 1, after);
      }
    }
  }

  /** Fewer repetitions than the letter run: the rest would have to start at a letter. */
  lemma {:induction false} LettersThenShort(t: string, i: nat, k: nat, after: nat -> Option<nat>)
    requires i <= |t| && k < LetterRun(t, i)
    requires forall x: nat :: i <= x < |t| && IsLetter(t[x]) ==> after(x).None?
    ensures LettersThen(t, i, k, after) == None
  {
    if 2 <= k {
      LettersThenShort(t, i, k - 1, after);
      assert IsLetter(t[i + k]);
    }
  }

  /** More repetitions than the letter run n fail for want of letters, down to n itself. */
  lemma {:induction false} LettersThenLong(t: string, i: nat, k: nat, n: nat, after: nat -> Option<nat>)
    requires i <= |t| && n == LetterRun(t, i) <= k
    ensures LettersThen(t, i, k, after) == LettersThen(t, i, n, after)
    decreases k
  {
    if n < k {
      LettersThenLong(t, i, k - 1, n, after);
      if i + k <= |t| {
        assert !IsLetter(t[i + n]);
      }
    }
  }

  /** `\s+(ws)\b` cannot start at a letter. */
  lemma SuffixAfterAtLetter(t: string, ws: seq<string>)
    ensures forall q: nat :: q < |t| && IsLetter(t[q]) ==> SuffixAfter(t, ws)(q).None?
  {
  }

  /** `\s+(ws)\b` matches at p exactly when white space is there and one of ws fits after the whole white-space run. */
  lemma SpaceThenSuffixExact(t: string, p: nat, ws: seq<string>)
    requires p <= |t|
    ensures SpaceThenSuffix(t, p, ws).Some? <==>
      SpaceRun(t, p) > 0 && SomeFits(t, p + SpaceRun(t, p), ws)
  {
    AlternativeThenBoundaryExact(t, p + SpaceRun(t, p), ws);
  }

  /** On success, `\s+(ws)\b` ends after the first word of ws that fits after the white-space run. */
  lemma SpaceThenSuffixFirst(t: string, p: nat, ws: seq<string>)
    requires p <= |t| && SpaceThenSuffix(t, p, ws).Some?
    ensures exists j: nat :: FirstFit(t, p + SpaceRun(t, p), ws, j) && SpaceThenSuffix(t, p, ws).value == p + SpaceRun(t, p) + |ws[j]|
  {
    AlternativeThenBoundaryFirst(t, p + SpaceRun(t, p), ws);
  }

  /**
   * The ticker-before-action rule matches at i exactly when i is a word
   * boundary, the letter run at i (ending at q) has two to five letters, white
   * space follows it (the white-space run ending at p), and one of the suffix
   * words fits at p. The ticker group is then the whole letter run, and the
   * match ends right after the first suffix word that fits.
   */
  lemma TickerBeforeActionAtExact(t: string, i: nat, q: nat, p: nat)
    requires i <= |t| && q == i + LetterRun(t, i) && p == q + SpaceRun(t, q)
    ensures TickerBeforeActionAt(t, i).Some? <==>
      IsBoundary(t, i) && 2 <= q - i <= 5 && q < p && SomeFits(t, p, SuffixWords)
    ensures TickerBeforeActionAt(t, i).Some? ==>
      TickerBeforeActionAt(t, i).value.capEnd == q && forall j :: q <= j < p ==> IsSpace(t[j])
    ensures TickerBeforeActionAt(t, i).Some? ==>
      exists j: nat :: FirstFit(t, p, SuffixWords, j) && TickerBeforeActionAt(t, i).value.end == p + |SuffixWords[j]|
  {
    TickerBeforeActionAtIs(t, i, q);
    TickerThenSuffixExact(t, i, q, p, IsBoundary(t, i), SuffixWords, TickerBeforeActionAt(t, i));
  }

  /**
   * A match r of `([A-Z]{2,5})\s+(ws)\b` at i, when allowed, in terms of the
   * letter run at i ending at q and the white-space run after it ending at p.
   * The boundary test, the suffix words and the result come in as parameters
   * so that the solver reasons about them without unfolding the rule itself.
   */
  lemma TickerThenSuffixExact(t: string, i: nat, q: nat, p: nat, allowed: bool, ws: seq<string>, r: Option<Match>)
    requires i <= |t| && q == i + LetterRun(t, i) && p == q + SpaceRun(t, q)
    requires r == if allowed && 2 <= q - i <= 5 && SpaceThenSuffix(t, q, ws).Some?
      then Some(Match(i, SpaceThenSuffix(t, q, ws).value, i, q)) else None
    ensures r.Some? <==> allowed && 2 <= q - i <= 5 && q < p && SomeFits(t, p, ws)
    ensures r.Some? ==> r.value.capEnd == q && forall j :: q <= j < p ==> IsSpace(t[j])
    ensures r.Some? ==> exists j: nat :: FirstFit(t, p, ws, j) && r.value.end == p + |ws[j]|
  {
    SpaceThenSuffixExact(t, q, ws);
    if r.Some? {
      SpaceThenSuffixFirst(t, q, ws);
      var j: nat :| FirstFit(t, p, ws, j) && SpaceThenSuffix(t, q, ws).value == p + |ws[j]|;
    }
  }

  /** The ticker-before-action rule at i, in terms of the whole letter run at i ending at q. */
  lemma TickerBeforeActionAtIs(t: string, i: nat, q: nat)
    requires i <= |t| && q == i + LetterRun(t, i)
    ensures TickerBeforeActionAt(t, i) ==
      if IsBoundary(t, i) && 2 <= q - i <= 5 && SpaceThenSuffix(t, q, SuffixWords).Some?
      then Some(Match(i, SpaceThenSuffix(t, q, SuffixWords).value, i, q)) else None
  {
    var after := SuffixAfter(t, SuffixWords);
    SuffixAfterAtLetter(t, SuffixWords);
    LettersThenExact(t, i, 5, q, after);
    assert after(q) == SpaceThenSuffix(t, q, SuffixWords);
  }

  /** `AAPL calls` is a ticker-before-action match of the whole text, with `AAPL` as its group. */
  lemma TickerBeforeActionExample()
    ensures TickerBeforeActionAt("AAPL calls", 0) == Some(Match(0, 10, 0, 4))
  {
    var t := "AAPL calls";
    assert LetterRun(t, 4) == 0;
    assert LetterRun(t, 0) == 4;
    assert SpaceRun(t, 5) == 0;
    assert SpaceRun(t, 4) == 1;
    assert LiteralAt(t, 5, "calls");
    assert AlternativeThenBoundary(t, 5, SuffixWords) == Some(10);
    TickerBeforeActionAtIs(t, 0, 4);
  }

  /** The position reached after m consecutive `\w+\s+` units from q, if there are that many. */
  function ChainAt(t: string, q: nat, m: nat): (r: Option<nat>)
    requires q <= |t|
    ensures r.Some? ==> q <= r.value <= |t|
    decreases m
  {
    if m == 0 then Some(q)
    else
      match UnitEnd(t, q)
      case Some(q') => ChainAt(t, q', m - 1)
      case None => None
  }

  /** No chain position from lo to k units on from q holds a `[A-Z]{2,5}\b` token. */
  ghost predicate NoTokenWithin(t: string, q: nat, lo: nat, k: nat)
    requires q <= |t|
  {
    forall m' :: lo <= m' <= k && ChainAt(t, q, m').Some? ==> LettersThenBoundary(t, ChainAt(t, q, m').value, 5).None?
  }

  lemma NoTokenWithinShift(t: string, q: nat, q': nat, lo: nat, k: nat)
    requires q <= |t| && UnitEnd(t, q) == Some(q') && 1 <= lo && 1 <= k
    requires NoTokenWithin(t, q', lo - 1, k - 1)
    ensures NoTokenWithin(t, q, lo, k)
  {
    forall m' | lo <= m' <= k && ChainAt(t, q, m').Some?
      ensures LettersThenBoundary(t, ChainAt(t, q, m').value, 5).None?
    {
      assert ChainAt(t, q, m') == ChainAt(t, q', m' - 1);
    }
  }

  /** How many `\w+\s+` units the greedy gap consumes before the ticker token. */
  function GapUnits(t: string, q: nat, k: nat): nat
    requires q <= |t|
    decreases k
  {
    if 0 < k && UnitEnd(t, q).Some? && GapThenTicker(t, UnitEnd(t, q).value, k - 1).Some?
    then 1 + GapUnits(t, UnitEnd(t, q).value, k - 1)
    else 0
  }

  /*
   * The greedy `(?:\w+\s+){0,k}` gap captures the ticker token at the furthest
   * chain position, at most k units on, where `[A-Z]{2,5}\b` matches. The next
   * three lemmas say so: the token found sits GapUnits units on; no position
   * further along (up to k units) holds a token that fits; and when nothing is
   * found, no position up to k units on holds one.
   */

  lemma {:induction false} GapThenTickerFound(t: string, q: nat, k: nat)
    requires q <= |t| && GapThenTicker(t, q, k).Some?
    ensures GapUnits(t, q, k) <= k
    ensures ChainAt(t, q, GapUnits(t, q, k)) == Some(GapThenTicker(t, q, k).value.start)
    ensures TokenAt(t, GapThenTicker(t, q, k).value.start) == GapThenTicker(t, q, k)
    decreases k
  {
    if 0 < k && UnitEnd(t, q).Some? && GapThenTicker(t, UnitEnd(t, q).value, k - 1).Some? {
      GapThenTickerFound(t, UnitEnd(t, q).value, k - 1);
    }
  }

  lemma {:induction false} GapThenTickerNone(t: string, q: nat, k: nat)
    requires q <= |t| && GapThenTicker(t, q, k).None?
    ensures NoTokenWithin(t, q, 0, k)
    decreases k
  {
    if 0 < k && UnitEnd(t, q).Some? {
      GapThenTickerNone(t, UnitEnd(t, q).value, k - 1);
      NoTokenWithinShift(t, q, UnitEnd(t, q).value, 1, k);
    } else {
      forall m' | 1 <= m' <= k ensures ChainAt(t, q, m').None? {
      }
    }
  }

  lemma {:induction false} GapThenTickerNoFurther(t: string, q: nat, k: nat)
    requires q <= |t| && GapThenTicker(t, q, k).Some?
    ensures NoTokenWithin(t, q, GapUnits(t, q, k) + 1, k)
    decreases k
  {
    if 0 < k && UnitEnd(t, q).Some? {
      var q' := UnitEnd(t, q).value;
      if GapThenTicker(t, q', k - 1).Some? {
        GapThenTickerNoFurther(t, q', k - 1);
        NoTokenWithinShift(t, q, q', GapUnits(t, q, k) + 1, k);
      } else {
        GapThenTickerNone(t, q', k - 1);
        NoTokenWithinShift(t, q, q', 1, k);
      }
    } else {
      forall m' | 1 <= m' <= k ensures ChainAt(t, q, m').None? {
      }
    }
  }

  /** The alternative w matches at i and the rest of the rule, after, succeeds after it. */
  predicate ActionFits(t: string, i: nat, w: string, after: nat -> Option<Span>) {
    LiteralAt(t, i, w) && after(i + |w|).Some?
  }

  /** ws[j] is the first alternative of ws from k on that fits at i. */
  predicate FirstActionFit(t: string, i: nat, ws: seq<string>, k: nat, j: nat, after: nat -> Option<Span>) {
    k <= j < |ws| && ActionFits(t, i, ws[j], after) && forall j' :: k <= j' < j ==> !ActionFits(t, i, ws[j'], after)
  }

  /**
   * The ordered alternation from k on succeeds at i exactly when some
   * alternative from k on fits: it misses none, so `buying AAPL` matches
   * although `buy` is tried first.
   */
  lemma {:induction false} ActionWordThenTickerExact(t: string, i: nat, ws: seq<string>, k: nat, after: nat -> Option<Span>)
    ensures ActionWordThenTicker(t, i, ws, k, after).Some? <==> exists j :: k <= j < |ws| && ActionFits(t, i, ws[j], after)
    decreases |ws| - k
  {
    if k < |ws| {
      ActionWordThenTickerExact(t, i, ws, k + 1, after);
    }
  }

  /** On success, the match is made by the first alternative from k on that fits, ws[j], and its group is the span the rest reports after it. */
  lemma {:induction false} ActionWordThenTickerFirst(t: string, i: nat, ws: seq<string>, k: nat, after: nat -> Option<Span>) returns (j: nat)
    requires ActionWordThenTicker(t, i, ws, k, after).Some?
    ensures FirstActionFit(t, i, ws, k, j, after)
    ensures ActionWordThenTicker(t, i, ws, k, after) == Some(Match(i, after(i + |ws[j]|).value.end, after(i + |ws[j]|).value.start, after(i + |ws[j]|).value.end))
    decreases |ws| - k
  {
    if ActionFits(t, i, ws[k], after) {
      j := k;
    } else {
      j := ActionWordThenTickerFirst(t, i, ws, k + 1, after);
    }
  }

  /**
   * The action-before rule matches at i exactly when i is a word boundary and
   * some action word there is followed by white space and a token within three
   * gap words. The group is then the token that the rest of the rule (which
   * ActionRestIs shows is `AfterActionWord`, the greedy gap) reaches after the
   * first such action word.
   */
  lemma ActionBeforeAtExact(t: string, i: nat)
    requires i <= |t|
    ensures ActionBeforeAt(t, i).Some? <==>
      IsBoundary(t, i) && exists j :: 0 <= j < |ActionWords| && ActionFits(t, i, ActionWords[j], ActionRest(t))
    ensures ActionBeforeAt(t, i).Some? ==> exists j: nat :: (FirstActionFit(t, i, ActionWords, 0, j, ActionRest(t)) &&
      var m := ActionBeforeAt(t, i).value;
      ActionRest(t)(i + |ActionWords[j]|) == Some(Span(m.capStart, m.capEnd)) && m.end == m.capEnd)
  {
    ActionThenRestExact(t, i, ActionWords, IsBoundary(t, i), ActionRest(t), ActionBeforeAt(t, i));
  }

  /** Within the text, the rest of the action-before rule is `AfterActionWord`. */
  lemma ActionRestIs(t: string, p: nat)
    requires p <= |t|
    ensures ActionRest(t)(p) == AfterActionWord(t, p)
  {
  }

  /**
   * A match r of the alternation ws at i followed by after, when allowed. The
   * parameters allowed, after and r stand for the boundary test, the rest of
   * the rule and the rule's result, so that the action-word instance stays small.
   */
  lemma ActionThenRestExact(t: string, i: nat, ws: seq<string>, allowed: bool, after: nat -> Option<Span>, r: Option<Match>)
    requires r == if allowed then ActionWordThenTicker(t, i, ws, 0, after) else None
    ensures r.Some? <==> allowed && exists j :: 0 <= j < |ws| && ActionFits(t, i, ws[j], after)
    ensures r.Some? ==> exists j: nat :: (FirstActionFit(t, i, ws, 0, j, after) &&
      after(i + |ws[j]|) == Some(Span(r.value.capStart, r.value.capEnd)) && r.value.end == r.value.capEnd)
  {
    ActionWordThenTickerExact(t, i, ws, 0, after);
    if r.Some? {
      var j := ActionWordThenTickerFirst(t, i, ws, 0, after);
    }
  }

  /**
   * When no action word before ws[j] occurs at i, ws[j] does, and the rest of the pattern matches sp
   * after it, the reported match is i up to sp's end, capturing sp.
   */
  lemma ActionWordThenTickerIs(t: string, i: nat, ws: seq<string>, after: nat -> Option<Span>, j: nat, sp: Span)
    requires j < |ws| && (forall j' :: 0 <= j' < j ==> !LiteralAt(t, i, ws[j']))
    requires LiteralAt(t, i, ws[j]) && after(i + |ws[j]|) == Some(sp)
    ensures ActionWordThenTicker(t, i, ws, 0, after) == Some(Match(i, sp.end, sp.start, sp.end))
  {
    assert FirstActionFit(t, i, ws, 0, j, after);
    ActionWordThenTickerExact(t, i, ws, 0, after);
    var j' := ActionWordThenTickerFirst(t, i, ws, 0, after);
    assert j' == j;
  }

  /** A run of n word characters at p, ended by the text's end or a non-word character, is the word run at p. */
  lemma {:induction false} WordRunIs(t: string, p: nat, n: nat)
    requires p + n <= |t| && (forall j :: p <= j < p + n ==> IsWordChar(t[j])) && (p + n == |t| || !IsWordChar(t[p + n]))
    ensures WordRun(t, p) == n
    decreases n
  {
    if n > 0 {
      WordRunIs(t, p + 1, n - 1);
    }
  }

  /** A run of n white-space characters at p, ended by the text's end or another character, is the white-space run at p. */
  lemma {:induction false} SpaceRunIs(t: string, p: nat, n: nat)
    requires p + n <= |t| && (forall j :: p <= j < p + n ==> IsSpace(t[j])) && (p + n == |t| || !IsSpace(t[p + n]))
    ensures SpaceRun(t, p) == n
    decreases n
  {
    if n > 0 {
      SpaceRunIs(t, p + 1, n - 1);
    }
  }

  /** A `\w+\s+` unit at q whose word run has w characters and whose white-space run after it has s ends at q + w + s. */
  lemma UnitEndIs(t: string, q: nat, w: nat, s: nat)
    requires q <= |t| && 0 < w && 0 < s && WordRun(t, q) == w && SpaceRun(t, q + w) == s
    ensures UnitEnd(t, q) == Some(q + w + s)
  {
  }

  /** The text of the greedy-gap example. */
  const BoughtText: string := "bought some AAPL and TSLA"

  /** The three `\w+\s+` units after `bought ` in the example text, and the token after them. */
  lemma BoughtUnitSome()
    ensures UnitEnd(BoughtText, 7) == Some(12)
  {
    WordRunIs(BoughtText, 7, 4);
    SpaceRunIs(BoughtText, 11, 1);
    UnitEndIs(BoughtText, 7, 4, 1);
  }

  lemma BoughtUnitAapl()
    ensures UnitEnd(BoughtText, 12) == Some(17)
  {
    WordRunIs(BoughtText, 12, 4);
    SpaceRunIs(BoughtText, 16, 1);
    UnitEndIs(BoughtText, 12, 4, 1);
  }

  lemma BoughtUnitAnd()
    ensures UnitEnd(BoughtText, 17) == Some(21)
  {
    WordRunIs(BoughtText, 17, 3);
    SpaceRunIs(BoughtText, 20, 1);
    UnitEndIs(BoughtText, 17, 3, 1);
  }

  lemma BoughtTokenTsla()
    ensures TokenAt(BoughtText, 21) == Some(Span(21, 25))
  {
    assert LetterRun(BoughtText, 21) == 4;
    LettersThenBoundaryExact(BoughtText, 21, 5);
  }

  /** The gap after `bought `, one `\w+\s+` unit at a time from the last: each level reaches TSLA. */
  lemma BoughtGapAnd()
    ensures GapThenTicker(BoughtText, 17, 1) == Some(Span(21, 25))
  {
    BoughtUnitAnd();
    BoughtTokenTsla();
    assert GapThenTicker(BoughtText, 21, 0) == Some(Span(21, 25));
  }

  lemma BoughtGapAapl()
    ensures GapThenTicker(BoughtText, 12, 2) == Some(Span(21, 25))
  {
    BoughtUnitAapl();
    BoughtGapAnd();
  }

  lemma BoughtGapSome()
    ensures GapThenTicker(BoughtText, 7, 3) == Some(Span(21, 25))
  {
    BoughtUnitSome();
    BoughtGapAapl();
  }

  /**
   * The gap is greedy: after `bought` in `bought some AAPL and TSLA` it takes
   * all three words `some AAPL and`, so the token reached is TSLA, not AAPL.
   */
  lemma GreedyGapExample()
    ensures AfterActionWord(BoughtText, 6) == Some(Span(21, 25))
  {
    SpaceRunIs(BoughtText, 6, 1);
    assert SpaceRun(BoughtText, 6) == 1;
    BoughtGapSome();
  }

  /** Both context rules need white space, so a text without any has no match of either. */
  lemma NoSpaceNoContextMatch(t: string)
    requires forall j :: 0 <= j < |t| ==> !IsSpace(t[j])
    ensures FindAll(ActionBefore, t, 0) == [] && FindAll(TickerBeforeAction, t, 0) == []
  {
    if FindAll(ActionBefore, t, 0) != [] {
      FindAllSound(ActionBefore, t, 0, 0);
    }
    if FindAll(TickerBeforeAction, t, 0) != [] {
      FindAllSound(TickerBeforeAction, t, 0, 0);
    }
  }

  /**
   * The action vocabulary has only inflected forms of add, load, grab, pick
   * and dump, so the bare verbs never open an action-before match.
   */
  lemma BareVerbsAbsent(v: string)
    requires v in ["add", "load", "grab", "pick", "dump"]
    ensures v !in ActionWords
  {
  }

  /** The alternation tries `buy` before `buying`, and `calls`/`puts` before `call`/`put`. */
  lemma AlternationOrder()
    ensures ActionWords[0] == "buy" && ActionWords[1] == "buying"
    ensures ActionWords[9] == "calls" && ActionWords[10] == "call"
    ensures ActionWords[11] == "puts" && ActionWords[12] == "put"
  {
  }

  /** Every pattern's ticker group is two to five ASCII letters. */
  lemma MatchCapturesToken(pat: Pattern, t: string, i: nat)
    requires i <= |t| && MatchAt(pat, t, i).Some?
    ensures var m := MatchAt(pat, t, i).value;
      2 <= m.capEnd - m.capStart <= 5 && AllLetters(t, m.capStart, m.capEnd)
  {
    if pat == Dollar {
      DollarAtExact(t, i);
    }
  }

  /** Every match found by a scan has a ticker group of two to five letters. */
  lemma FindAllTokens(pat: Pattern, t: string, pos: nat, j: nat)
    requires j < |FindAll(pat, t, pos)|
    ensures var m := FindAll(pat, t, pos)[j];
      2 <= m.capEnd - m.capStart <= 5 && AllLetters(t, m.capStart, m.capEnd)
  {
    FindAllSound(pat, t, pos, j);
    MatchCapturesToken(pat, t, FindAll(pat, t, pos)[j].start);
  }

  /** Every dollar match found by a scan is a `$` followed by its ticker group and nothing else. */
  lemma FindAllDollarShape(t: string, pos: nat, j: nat)
    requires j < |FindAll(Dollar, t, pos)|
    ensures var m := FindAll(Dollar, t, pos)[j];
      t[m.start] == '$' && m.capStart == m.start + 1 && m.capEnd == m.end
  {
    FindAllSound(Dollar, t, pos, j);
    DollarAtExact(t, FindAll(Dollar, t, pos)[j].start);
  }

  lemma {:induction false} LetterRunToEnd(t: string, p: nat)
    requires p <= |t| && forall j :: p <= j < |t| ==> IsLetter(t[j])
    ensures LetterRun(t, p) == |t| - p
    decreases |t| - p
  {
    if p < |t| {
      LetterRunToEnd(t, p + 1);
    }
  }

  /** A scan over attempts that all fail from pos on finds nothing. */
  lemma {:induction false} ScanNothing(a: seq<Option<Match>>, pos: nat)
    requires AttemptsWellFormed(a) && forall i :: pos <= i < |a| ==> a[i].None?
    ensures Scan(a, pos) == []
    decreases |a| - pos
  {
    if pos < |a| {
      ScanNothing(a, pos + 1);
    }
  }

  /** In a text that is one `$` followed by letters only, the one dollar match is the whole text, if there are two to five letters. */
  lemma DollarWordMatches(s: string)
    requires IsAlpha(s)
    ensures var t := "$" + s;
      FindAll(Dollar, t, 0) == (if 2 <= |s| <= 5 then [Match(0, |t|, 1, |t|)] else [])
  {
    var t := "$" + s;
    var a := Attempts(Dollar, t);
    assert forall j :: 1 <= j < |t| ==> t[j] == s[j - 1];
    LetterRunToEnd(t, 1);
    DollarAtExact(t, 0);
    forall i | 1 <= i < |a| ensures a[i].None? {
      assert a[i] == DollarAt(t, i);
    }
    if 2 <= |s| <= 5 {
      assert a[0] == Some(Match(0, |t|, 1, |t|));
      ScanNothing(a, |t|);
    } else {
      assert a[0] == DollarAt(t, 0);
      ScanNothing(a, 0);
    }
  }
}

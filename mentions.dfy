/**
 * Ticker mentions and the way `TickerExtractor.extract` merges the matches of
 * its three patterns into one dictionary keyed by ticker.
 *
 * A candidate is one regex match: the captured ticker text and the whole
 * matched text (the mention's context). `Resolved` is a reference definition
 * of the merged result:
 *   - the tickers are the valid, upper-cased captures in first-insertion
 *     order: dollar candidates first, then the action candidates;
 *   - a ticker with a dollar candidate is HIGH, with the context of its first
 *     dollar candidate;
 *   - any other ticker is MEDIUM, with the context of its first action
 *     candidate.
 * The imperative extractor is proved equal to it, and the properties the
 * extractor promises are proved about it here.
 */
module Mentions {
  import opened Wrappers
  import opened AsciiText

  datatype Confidence = High | Medium | Low

  datatype TickerMention = TickerMention(ticker: string, confidence: Confidence, context: string)

  /** One regex match: the captured ticker text and the full matched text. */
  datatype Candidate = Candidate(captured: string, context: string)

  predicate NoDuplicates(s: seq<string>) {
    forall i, j :: 0 <= i < j < |s| ==> s[i] != s[j]
  }

  /** `xs` without repetitions, each element kept at its first occurrence. */
  function Distinct(xs: seq<string>): (r: seq<string>)
    ensures forall x :: x in r <==> x in xs
    ensures NoDuplicates(r)
    decreases |xs|
  {
    if xs == [] then []
    else
      var d := Distinct(xs[..|xs| - 1]);
      var x := xs[|xs| - 1];
      assert xs == xs[..|xs| - 1] + [x];
      if x in d then d else d + [x]
  }

  /** The upper-cased captures of `cs` that are valid tickers, in order, with repetitions. */
  function ValidSymbols(valid: set<string>, cs: seq<Candidate>): (r: seq<string>)
    ensures forall x :: x in r ==> x in valid && IsUpperCase(x)
    decreases |cs|
  {
    if cs == [] then []
    else
      var rest := ValidSymbols(valid, cs[..|cs| - 1]);
      var s := Upper(cs[|cs| - 1].captured);
      UpperIsUpperCase(cs[|cs| - 1].captured);
      if s in valid then rest + [s] else rest
  }

  /** The context of the first candidate of `cs` whose capture upper-cases to `ticker`. */
  function FirstContext(cs: seq<Candidate>, ticker: string): Option<string>
    decreases |cs|
  {
    if cs == [] then None
    else
      match FirstContext(cs[..|cs| - 1], ticker)
      case Some(ctx) => Some(ctx)
      case None => if Upper(cs[|cs| - 1].captured) == ticker then Some(cs[|cs| - 1].context) else None
  }

  /** The tickers of the merged result, in first-insertion order. */
  function Symbols(valid: set<string>, hi: seq<Candidate>, med: seq<Candidate>): seq<string> {
    Distinct(ValidSymbols(valid, hi) + ValidSymbols(valid, med))
  }

  /** The mention kept for `ticker`: HIGH from its first dollar match, else MEDIUM from its first action match. */
  function MentionOf(hi: seq<Candidate>, med: seq<Candidate>, ticker: string): TickerMention {
    match FirstContext(hi, ticker)
    case Some(ctx) => TickerMention(ticker, High, ctx)
    case None => TickerMention(ticker, Medium, FirstContext(med, ticker).GetOr(""))
  }

  /** The merged result for dollar candidates `hi` and action candidates `med`. */
  function Resolved(valid: set<string>, hi: seq<Candidate>, med: seq<Candidate>): (r: seq<TickerMention>)
    ensures |r| == |Symbols(valid, hi, med)|
  {
    var syms := Symbols(valid, hi, med);
    seq(|syms|, i requires 0 <= i < |syms| => MentionOf(hi, med, syms[i]))
  }

  /** The tickers of a list of mentions. */
  function TickersOf(ms: seq<TickerMention>): (r: seq<string>)
    ensures |r| == |ms| && forall i :: 0 <= i < |ms| ==> r[i] == ms[i].ticker
  {
    seq(|ms|, i requires 0 <= i < |ms| => ms[i].ticker)
  }

  // ----- Facts about the helper definitions -----

  /** Appending one candidate: how the valid symbols and the first contexts change. */
  lemma CandidatesSnoc(valid: set<string>, cs: seq<Candidate>, c: Candidate)
    ensures ValidSymbols(valid, cs + [c]) == ValidSymbols(valid, cs) + (if Upper(c.captured) in valid then [Upper(c.captured)] else [])
    ensures forall ticker :: FirstContext(cs + [c], ticker) == (if FirstContext(cs, ticker).Some? then FirstContext(cs, ticker) else if Upper(c.captured) == ticker then Some(c.context) else None)
  {
    assert (cs + [c])[..|cs|] == cs;
  }

  /** A valid ticker has a first context in `cs` exactly when it is among the valid symbols of `cs`. */
  lemma {:induction false} FirstContextFound(valid: set<string>, cs: seq<Candidate>, ticker: string)
    requires ticker in valid
    ensures FirstContext(cs, ticker).Some? <==> ticker in ValidSymbols(valid, cs)
    decreases |cs|
  {
    if cs != [] {
      var init := cs[..|cs| - 1];
      FirstContextFound(valid, init, ticker);
      CandidatesSnoc(valid, init, cs[|cs| - 1]);
      assert init + [cs[|cs| - 1]] == cs;
    }
  }

  /** The first context comes from the earliest candidate for that ticker. */
  lemma {:induction false} FirstContextIsFirst(cs: seq<Candidate>, ticker: string) returns (i: nat)
    requires FirstContext(cs, ticker).Some?
    ensures i < |cs| && Upper(cs[i].captured) == ticker && FirstContext(cs, ticker) == Some(cs[i].context)
    ensures forall j :: 0 <= j < i ==> Upper(cs[j].captured) != ticker
    decreases |cs|
  {
    var init := cs[..|cs| - 1];
    if FirstContext(init, ticker).Some? {
      i := FirstContextIsFirst(init, ticker);
    } else {
      i := |cs| - 1;
      forall j | 0 <= j < i ensures Upper(cs[j].captured) != ticker {
        FirstContextNone(init, ticker, j);
        assert init[j] == cs[j];
      }
    }
  }

  /** Where no first context exists, no candidate captures that ticker. */
  lemma {:induction false} FirstContextNone(cs: seq<Candidate>, ticker: string, j: nat)
    requires FirstContext(cs, ticker).None? && j < |cs|
    ensures Upper(cs[j].captured) != ticker
    decreases |cs|
  {
    var init := cs[..|cs| - 1];
    if j < |cs| - 1 {
      assert init[j] == cs[j];
      FirstContextNone(init, ticker, j);
    }
  }

  /** A later sequence of candidates only decides tickers the earlier one does not. */
  lemma {:induction false} FirstContextAppend(a: seq<Candidate>, b: seq<Candidate>, ticker: string)
    ensures FirstContext(a + b, ticker) == if FirstContext(a, ticker).Some? then FirstContext(a, ticker) else FirstContext(b, ticker)
    decreases |b|
  {
    if b == [] {
      assert a + b == a;
    } else {
      var init := b[..|b| - 1];
      var last := b[|b| - 1];
      FirstContextAppend(a, init, ticker);
      assert a + b == (a + init) + [last];
      assert init + [last] == b;
      CandidatesSnoc({}, a + init, last);
      CandidatesSnoc({}, init, last);
    }
  }

  lemma {:induction false} ValidSymbolsAppend(valid: set<string>, a: seq<Candidate>, b: seq<Candidate>)
    ensures ValidSymbols(valid, a + b) == ValidSymbols(valid, a) + ValidSymbols(valid, b)
    decreases |b|
  {
    if b == [] {
      assert a + b == a;
    } else {
      var init := b[..|b| - 1];
      var last := b[|b| - 1];
      ValidSymbolsAppend(valid, a, init);
      assert a + b == (a + init) + [last];
      assert init + [last] == b;
      CandidatesSnoc(valid, a + init, last);
      CandidatesSnoc(valid, init, last);
    }
  }

  /** The distinct elements of `a` come first, in their order, in the distinct elements of `a + b`. */
  lemma {:induction false} DistinctPrefix(a: seq<string>, b: seq<string>)
    ensures |Distinct(a)| <= |Distinct(a + b)| && Distinct(a + b)[..|Distinct(a)|] == Distinct(a)
    decreases |b|
  {
    if b == [] {
      assert a + b == a;
    } else {
      var init := b[..|b| - 1];
      DistinctPrefix(a, init);
      assert (a + b)[..|a + b| - 1] == a + init;
    }
  }

  // ----- The merging loops, step by step -----

  /**
   * The state of the dictionary after merging `hi` and `med`: `order` is its
   * key insertion order and `mentions` its contents.
   */
  ghost predicate Tracks(valid: set<string>, hi: seq<Candidate>, med: seq<Candidate>, order: seq<string>, mentions: map<string, TickerMention>) {
    && order == Symbols(valid, hi, med)
    && (forall ticker :: ticker in mentions <==> ticker in order)
    && (forall ticker :: ticker in mentions ==> mentions[ticker] == MentionOf(hi, med, ticker))
  }

  lemma TracksEmpty(valid: set<string>)
    ensures Tracks(valid, [], [], [], map[])
  {
  }

  /** The valid symbols of the dollar pass alone determine its dictionary's keys. */
  lemma DollarOnlySymbols(valid: set<string>, hi: seq<Candidate>)
    ensures Symbols(valid, hi, []) == Distinct(ValidSymbols(valid, hi))
  {
    assert ValidSymbols(valid, hi) + [] == ValidSymbols(valid, hi);
  }

  /** A further dollar match with a new valid ticker appends that ticker to the dollar pass's keys. */
  lemma DollarNewSymbols(valid: set<string>, hi: seq<Candidate>, c: Candidate)
    requires Upper(c.captured) in valid && Upper(c.captured) !in Symbols(valid, hi, [])
    ensures Symbols(valid, hi + [c], []) == Symbols(valid, hi, []) + [Upper(c.captured)]
  {
    var d := ValidSymbols(valid, hi);
    CandidatesSnoc(valid, hi, c);
    DollarOnlySymbols(valid, hi);
    DollarOnlySymbols(valid, hi + [c]);
    assert (d + [Upper(c.captured)])[..|d|] == d;
  }

  /** The first dollar match of a valid ticker gives it HIGH confidence and this match's context. */
  lemma DollarNewMention(valid: set<string>, hi: seq<Candidate>, c: Candidate)
    requires Upper(c.captured) in valid && Upper(c.captured) !in ValidSymbols(valid, hi)
    ensures MentionOf(hi + [c], [], Upper(c.captured)) == TickerMention(Upper(c.captured), High, c.context)
  {
    FirstContextFound(valid, hi, Upper(c.captured));
    CandidatesSnoc(valid, hi, c);
  }

  /** A further dollar match leaves the mention of a ticker that already has a dollar match unchanged. */
  lemma DollarKeepsMention(hi: seq<Candidate>, c: Candidate, ticker: string)
    requires FirstContext(hi, ticker).Some?
    ensures MentionOf(hi + [c], [], ticker) == MentionOf(hi, [], ticker)
  {
    CandidatesSnoc({}, hi, c);
  }

  /**
   * One dollar match merged into a dictionary holding only dollar matches.
   * A new valid ticker is appended as HIGH with this match's context.
   */
  lemma DollarStepNew(valid: set<string>, hi: seq<Candidate>, c: Candidate, order: seq<string>, mentions: map<string, TickerMention>)
    requires Tracks(valid, hi, [], order, mentions)
    requires Upper(c.captured) in valid && Upper(c.captured) !in mentions
    ensures var ticker := Upper(c.captured);
      Tracks(valid, hi + [c], [], order + [ticker], mentions[ticker := TickerMention(ticker, High, c.context)])
  {
    DollarOnlySymbols(valid, hi);
    DollarNewSymbols(valid, hi, c);
    DollarNewMention(valid, hi, c);
    forall t | t in mentions ensures MentionOf(hi + [c], [], t) == mentions[t] {
      FirstContextFound(valid, hi, t);
      DollarKeepsMention(hi, c, t);
    }
  }

  /** A ticker already in that dictionary is HIGH, and a further dollar match for it changes nothing. */
  lemma DollarStepKnown(valid: set<string>, hi: seq<Candidate>, c: Candidate, order: seq<string>, mentions: map<string, TickerMention>)
    requires Tracks(valid, hi, [], order, mentions)
    requires Upper(c.captured) in mentions
    ensures mentions[Upper(c.captured)].confidence == High
    ensures Tracks(valid, hi + [c], [], order, mentions)
  {
    var ticker := Upper(c.captured);
    CandidatesSnoc(valid, hi, c);
    DollarOnlySymbols(valid, hi);
    DollarOnlySymbols(valid, hi + [c]);
    forall t | t in mentions ensures FirstContext(hi, t).Some? {
      FirstContextFound(valid, hi, t);
    }
  }

  /** A dollar match whose capture is not a valid ticker changes nothing. */
  lemma DollarStepInvalid(valid: set<string>, hi: seq<Candidate>, c: Candidate, order: seq<string>, mentions: map<string, TickerMention>)
    requires Tracks(valid, hi, [], order, mentions)
    requires Upper(c.captured) !in valid
    ensures Tracks(valid, hi + [c], [], order, mentions)
  {
    CandidatesSnoc(valid, hi, c);
    DollarOnlySymbols(valid, hi);
    DollarOnlySymbols(valid, hi + [c]);
  }

  /** One action match merged into the dictionary: a new valid ticker is appended as MEDIUM with this match's context. */
  lemma ActionStepNew(valid: set<string>, hi: seq<Candidate>, med: seq<Candidate>, c: Candidate, order: seq<string>, mentions: map<string, TickerMention>)
    requires Tracks(valid, hi, med, order, mentions)
    requires Upper(c.captured) in valid && Upper(c.captured) !in mentions
    ensures var ticker := Upper(c.captured);
      Tracks(valid, hi, med + [c], order + [ticker], mentions[ticker := TickerMention(ticker, Medium, c.context)])
  {
    var ticker := Upper(c.captured);
    var mention := TickerMention(ticker, Medium, c.context);
    var d := ValidSymbols(valid, hi) + ValidSymbols(valid, med);
    assert Symbols(valid, hi, med + [c]) == order + [ticker] by {
      CandidatesSnoc(valid, med, c);
      assert ValidSymbols(valid, hi) + ValidSymbols(valid, med + [c]) == d + [ticker];
      assert (d + [ticker])[..|d|] == d;
    }
    assert MentionOf(hi, med + [c], ticker) == mention by {
      FirstContextFound(valid, hi, ticker);
      FirstContextFound(valid, med, ticker);
      CandidatesSnoc(valid, med, c);
    }
    forall t | t in mentions ensures MentionOf(hi, med + [c], t) == mentions[t] {
      CandidatesSnoc(valid, med, c);
      FirstContextFound(valid, hi, t);
      FirstContextFound(valid, med, t);
    }
  }

  /** An action match for a ticker already present, or for an invalid one, changes nothing. */
  lemma ActionStepOther(valid: set<string>, hi: seq<Candidate>, med: seq<Candidate>, c: Candidate, order: seq<string>, mentions: map<string, TickerMention>)
    requires Tracks(valid, hi, med, order, mentions)
    requires Upper(c.captured) !in valid || Upper(c.captured) in mentions
    ensures Tracks(valid, hi, med + [c], order, mentions)
  {
    var ticker := Upper(c.captured);
    CandidatesSnoc(valid, med, c);
    var a := ValidSymbols(valid, hi);
    var d := a + ValidSymbols(valid, med);
    assert a + ValidSymbols(valid, med + [c]) == d + (if ticker in valid then [ticker] else []);
    if ticker in valid {
      assert (d + [ticker])[..|d|] == d;
    }
    forall t | t in mentions ensures MentionOf(hi, med + [c], t) == MentionOf(hi, med, t) {
      FirstContextFound(valid, hi, t);
      FirstContextFound(valid, med, t);
    }
  }

  /** The dictionary's values in insertion order are the reference result. */
  lemma TracksResolved(valid: set<string>, hi: seq<Candidate>, med: seq<Candidate>, order: seq<string>, mentions: map<string, TickerMention>)
    requires Tracks(valid, hi, med, order, mentions)
    ensures forall i :: 0 <= i < |order| ==> order[i] in mentions
    ensures seq(|order|, i requires 0 <= i < |order| && order[i] in mentions => mentions[order[i]]) == Resolved(valid, hi, med)
  {
  }

  // ----- Properties of the merged result -----

  /** Each ticker appears once, is upper-case, is valid, and is never LOW. */
  lemma ResolvedSound(valid: set<string>, hi: seq<Candidate>, med: seq<Candidate>)
    ensures NoDuplicates(TickersOf(Resolved(valid, hi, med)))
    ensures forall m :: m in Resolved(valid, hi, med) ==> m.ticker in valid && IsUpperCase(m.ticker) && m.confidence != Low
  {
    ResolvedTickers(valid, hi, med);
    forall m | m in Resolved(valid, hi, med) ensures m.ticker in valid && IsUpperCase(m.ticker) && m.confidence != Low {
      var i := ResolvedMember(valid, hi, med, m);
    }
  }

  /** Every valid capture of any pattern is reported, and nothing else: the tickers are exactly the valid symbols. */
  lemma ResolvedComplete(valid: set<string>, hi: seq<Candidate>, med: seq<Candidate>)
    ensures forall ticker :: ticker in TickersOf(Resolved(valid, hi, med)) <==> ticker in ValidSymbols(valid, hi) || ticker in ValidSymbols(valid, med)
  {
    ResolvedTickers(valid, hi, med);
  }

  /**
   * A ticker is HIGH exactly when some dollar match captured it, however early
   * an action match captured it; its context is then that of the first dollar
   * match for it, and otherwise that of the first action match for it.
   */
  lemma ResolvedConfidence(valid: set<string>, hi: seq<Candidate>, med: seq<Candidate>)
    ensures forall m :: m in Resolved(valid, hi, med) ==> (m.confidence == High <==> m.ticker in ValidSymbols(valid, hi))
    ensures forall m :: m in Resolved(valid, hi, med) && m.confidence == High ==> FirstContext(hi, m.ticker) == Some(m.context)
    ensures forall m :: m in Resolved(valid, hi, med) && m.confidence == Medium ==> FirstContext(med, m.ticker) == Some(m.context)
  {
    forall m | m in Resolved(valid, hi, med)
      ensures (m.confidence == High <==> m.ticker in ValidSymbols(valid, hi))
      ensures m.confidence == High ==> FirstContext(hi, m.ticker) == Some(m.context)
      ensures m.confidence == Medium ==> FirstContext(med, m.ticker) == Some(m.context)
    {
      var i := ResolvedMember(valid, hi, med, m);
      FirstContextFound(valid, hi, m.ticker);
      FirstContextFound(valid, med, m.ticker);
    }
  }

  /**
   * Output order is first insertion: the tickers of the dollar pass come
   * first, then those new in the first action pass, then those new in the
   * second.
   */
  lemma ResolvedOrder(valid: set<string>, hi: seq<Candidate>, med1: seq<Candidate>, med2: seq<Candidate>)
    ensures var syms := TickersOf(Resolved(valid, hi, med1 + med2));
      var first := Distinct(ValidSymbols(valid, hi));
      |first| <= |syms| && syms[..|first|] == first
    ensures var syms := TickersOf(Resolved(valid, hi, med1 + med2));
      var firstTwo := Symbols(valid, hi, med1);
      |firstTwo| <= |syms| && syms[..|firstTwo|] == firstTwo
  {
    var a := ValidSymbols(valid, hi);
    var b := ValidSymbols(valid, med1);
    var c := ValidSymbols(valid, med2);
    ResolvedTickers(valid, hi, med1 + med2);
    ValidSymbolsAppend(valid, med1, med2);
    assert Symbols(valid, hi, med1 + med2) == Distinct(a + (b + c));
    DistinctPrefix(a, b + c);
    assert a + (b + c) == (a + b) + c;
    DistinctPrefix(a + b, c);
  }

  /** A ticker the first action pass finds keeps that pass's context whatever the second pass finds. */
  lemma EarlierActionWins(med1: seq<Candidate>, med2: seq<Candidate>, ticker: string)
    requires FirstContext(med1, ticker).Some?
    ensures FirstContext(med1 + med2, ticker) == FirstContext(med1, ticker)
  {
    FirstContextAppend(med1, med2, ticker);
  }

  /** Where a member of the merged result comes from. */
  lemma ResolvedMember(valid: set<string>, hi: seq<Candidate>, med: seq<Candidate>, m: TickerMention) returns (i: nat)
    requires m in Resolved(valid, hi, med)
    ensures i < |Symbols(valid, hi, med)| && m.ticker == Symbols(valid, hi, med)[i] && m == MentionOf(hi, med, m.ticker)
    ensures m.ticker in ValidSymbols(valid, hi) || m.ticker in ValidSymbols(valid, med)
    ensures m.ticker in valid && IsUpperCase(m.ticker)
  {
    var r := Resolved(valid, hi, med);
    var syms := Symbols(valid, hi, med);
    i :| 0 <= i < |r| && r[i] == m;
    assert syms[i] in syms;
  }

  /** The tickers of the merged result are its symbols, in order. */
  lemma ResolvedTickers(valid: set<string>, hi: seq<Candidate>, med: seq<Candidate>)
    ensures TickersOf(Resolved(valid, hi, med)) == Symbols(valid, hi, med)
  {
    var r := Resolved(valid, hi, med);
    var syms := Symbols(valid, hi, med);
    forall i | 0 <= i < |r| ensures TickersOf(r)[i] == syms[i] {
      assert r[i] == MentionOf(hi, med, syms[i]);
    }
  }

  /** With the action candidates made of two runs, the tickers are the distinct valid symbols of the three runs in order. */
  lemma ResolvedTickersOfRuns(valid: set<string>, hi: seq<Candidate>, mid: seq<Candidate>, lo: seq<Candidate>)
    ensures TickersOf(Resolved(valid, hi, mid + lo)) == Distinct(ValidSymbols(valid, hi) + ValidSymbols(valid, mid) + ValidSymbols(valid, lo))
  {
    var a := ValidSymbols(valid, hi);
    var b := ValidSymbols(valid, mid);
    var c := ValidSymbols(valid, lo);
    ResolvedTickers(valid, hi, mid + lo);
    assert ValidSymbols(valid, mid + lo) == b + c by {
      ValidSymbolsAppend(valid, mid, lo);
    }
    assert a + (b + c) == a + b + c;
    assert Symbols(valid, hi, mid + lo) == Distinct(a + b + c);
  }

  /** A single dollar candidate and no action candidates: one HIGH mention with its context, if its capture is valid. */
  lemma ResolvedSingleDollar(valid: set<string>, c: Candidate)
    ensures Resolved(valid, [c], []) ==
      if Upper(c.captured) in valid then [TickerMention(Upper(c.captured), High, c.context)] else []
  {
    CandidatesSnoc(valid, [], c);
    assert [] + [c] == [c];
    DollarOnlySymbols(valid, [c]);
    var ticker := Upper(c.captured);
    if ticker in valid {
      assert Distinct([ticker]) == [ticker] by {
        assert [ticker][..0] == [];
      }
    }
  }
}

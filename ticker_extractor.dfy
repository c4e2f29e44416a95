/**
 * The ticker extractor: loading the set of valid tickers from a file, and
 * extracting ticker mentions from a text with the three patterns of module
 * Patterns, merged as module Mentions describes.
 *
 * A file is given as its lines (each with its line terminator), or None when
 * no file exists at the path.
 */
module TickerExtractor {
  import opened Wrappers
  import opened AsciiText
  import opened Patterns
  import opened Mentions

  datatype LoadError = FileNotFound(path: string)

  /**
   * The valid tickers of a file: each line stripped of surrounding white
   * space and upper-cased, blank lines skipped; a missing file is an error.
   */
  function LoadValidTickers(path: string, file: Option<seq<string>>): (r: Result<set<string>, LoadError>)
    ensures file.None? <==> r.Err?
    ensures r.Err? ==> r.error == FileNotFound(path)
  {
    match file
    case None => Err(FileNotFound(path))
    case Some(lines) => Ok(set l | l in lines && Strip(l) != "" :: Upper(Strip(l)))
  }

  /** A loaded ticker is a non-blank line with its surrounding white space removed, upper-cased. */
  lemma LoadedTickers(path: string, lines: seq<string>)
    ensures var r := LoadValidTickers(path, Some(lines));
      r.Ok? && forall x :: x in r.value <==> exists l :: l in lines && Strip(l) != "" && x == Upper(Strip(l))
    ensures forall x :: x in LoadValidTickers(path, Some(lines)).value ==>
      x != "" && IsUpperCase(x) && !IsSpace(x[0]) && !IsSpace(x[|x| - 1])
  {
    forall x | x in LoadValidTickers(path, Some(lines)).value
      ensures x != "" && IsUpperCase(x) && !IsSpace(x[0]) && !IsSpace(x[|x| - 1])
    {
      var l :| l in lines && Strip(l) != "" && x == Upper(Strip(l));
      LoadedLineShape(l);
    }
  }

  /** The ticker a non-blank line loads as is non-empty, upper-case and unpadded. */
  lemma LoadedLineShape(l: string)
    requires Strip(l) != ""
    ensures var x := Upper(Strip(l));
      x != "" && IsUpperCase(x) && !IsSpace(x[0]) && !IsSpace(x[|x| - 1])
  {
    var w := Strip(l);
    var x := Upper(w);
    UpperIsUpperCase(w);
    assert x[0] == UpperChar(w[0]);
    assert x[|x| - 1] == UpperChar(w[|x| - 1]);
  }

  /** The candidates of one pattern: each match's ticker group and its whole matched text, left to right. */
  function Candidates(pat: Pattern, t: string): (cs: seq<Candidate>)
    ensures |cs| == |FindAll(pat, t, 0)|
  {
    var ms := FindAll(pat, t, 0);
    seq(|ms|, j requires 0 <= j < |ms| => Candidate(t[ms[j].capStart..ms[j].capEnd], t[ms[j].start..ms[j].end]))
  }

  /** What `extract` returns: nothing for no text or empty text, else the merged matches of the three patterns. */
  function ExtractSpec(valid: set<string>, text: Option<string>): seq<TickerMention> {
    if text.None? || text.value == "" then []
    else
      var t := text.value;
      Resolved(valid, Candidates(Dollar, t), Candidates(ActionBefore, t) + Candidates(TickerBeforeAction, t))
  }

  // ----- What a candidate of each pattern looks like -----

  /** The j-th candidate of a pattern comes from the j-th match. */
  lemma CandidateAt(pat: Pattern, t: string, j: nat) returns (m: Match)
    requires j < |Candidates(pat, t)|
    ensures m == FindAll(pat, t, 0)[j] && WellFormed(t, m)
    ensures Candidates(pat, t)[j] == Candidate(t[m.capStart..m.capEnd], t[m.start..m.end])
  {
    m := FindAll(pat, t, 0)[j];
  }

  lemma CandidateTokenAt(pat: Pattern, t: string, j: nat)
    requires j < |Candidates(pat, t)|
    ensures 2 <= |Candidates(pat, t)[j].captured| <= 5 && IsAlpha(Candidates(pat, t)[j].captured)
  {
    var m := CandidateAt(pat, t, j);
    FindAllTokens(pat, t, 0, j);
    AllLettersAlpha(t, m.capStart, m.capEnd);
  }

  /** Every captured ticker text is two to five ASCII letters. */
  lemma CandidateTokens(pat: Pattern, t: string)
    ensures forall c :: c in Candidates(pat, t) ==> 2 <= |c.captured| <= 5 && IsAlpha(c.captured)
  {
    var cs := Candidates(pat, t);
    forall j | 0 <= j < |cs| ensures 2 <= |cs[j].captured| <= 5 && IsAlpha(cs[j].captured) {
      CandidateTokenAt(pat, t, j);
    }
  }

  /** The context of a dollar candidate is exactly its `$` followed by the captured text, as written. */
  lemma DollarCandidateContext(t: string)
    ensures forall c :: c in Candidates(Dollar, t) ==> c.context == "$" + c.captured
  {
    var cs := Candidates(Dollar, t);
    forall j | 0 <= j < |cs| ensures cs[j].context == "$" + cs[j].captured {
      var m := CandidateAt(Dollar, t, j);
      FindAllDollarShape(t, 0, j);
      assert t[m.start..m.end] == [t[m.start]] + t[m.start + 1..m.end];
    }
  }

  /** A valid symbol of a candidate list is the upper-cased capture of one of its candidates. */
  lemma ValidSymbolSource(valid: set<string>, cs: seq<Candidate>, x: string) returns (c: Candidate)
    requires x in ValidSymbols(valid, cs)
    ensures c in cs && Upper(c.captured) == x
  {
    FirstContextFound(valid, cs, x);
    var i := FirstContextIsFirst(cs, x);
    c := cs[i];
  }

  // ----- What `extract` returns -----

  /** No text and empty text give no mentions. */
  lemma ExtractNothing(valid: set<string>)
    ensures ExtractSpec(valid, None) == [] && ExtractSpec(valid, Some("")) == []
  {
  }

  /**
   * Each ticker is reported once, is a valid ticker, and is two to five
   * upper-case letters; no mention is LOW.
   */
  lemma ExtractSound(valid: set<string>, t: string)
    ensures NoDuplicates(TickersOf(ExtractSpec(valid, Some(t))))
    ensures forall m :: m in ExtractSpec(valid, Some(t)) ==>
      m.ticker in valid && IsUpperCase(m.ticker) && IsAlpha(m.ticker) && 2 <= |m.ticker| <= 5 && m.confidence != Low
  {
    var hi := Candidates(Dollar, t);
    var med := Candidates(ActionBefore, t) + Candidates(TickerBeforeAction, t);
    if t != "" {
      ResolvedSound(valid, hi, med);
      CandidateTokens(Dollar, t);
      CandidateTokens(ActionBefore, t);
      CandidateTokens(TickerBeforeAction, t);
      forall m | m in ExtractSpec(valid, Some(t)) ensures IsAlpha(m.ticker) && 2 <= |m.ticker| <= 5 {
        var i := ResolvedMember(valid, hi, med, m);
        var c;
        if m.ticker in ValidSymbols(valid, hi) {
          c := ValidSymbolSource(valid, hi, m.ticker);
        } else {
          c := ValidSymbolSource(valid, med, m.ticker);
        }
        UpperKeepsAlpha(c.captured);
      }
    }
  }

  /**
   * The reported tickers are exactly the distinct valid upper-cased captures
   * of the three patterns, in order of first appearance: the dollar pattern's
   * first, then those of the action-before pattern, then those of the
   * ticker-before-action pattern.
   */
  lemma ExtractTickers(valid: set<string>, t: string)
    requires t != ""
    ensures var hi := ValidSymbols(valid, Candidates(Dollar, t));
      var mid := ValidSymbols(valid, Candidates(ActionBefore, t));
      var lo := ValidSymbols(valid, Candidates(TickerBeforeAction, t));
      TickersOf(ExtractSpec(valid, Some(t))) == Distinct(hi + mid + lo)
  {
    ResolvedTickersOfRuns(valid, Candidates(Dollar, t), Candidates(ActionBefore, t), Candidates(TickerBeforeAction, t));
  }

  /**
   * The tickers found by the dollar pattern come first, and those found by the
   * dollar or the action-before pattern come before those only the
   * ticker-before-action pattern finds.
   */
  lemma ExtractOrder(valid: set<string>, t: string)
    requires t != ""
    ensures var syms := TickersOf(ExtractSpec(valid, Some(t)));
      var first := Distinct(ValidSymbols(valid, Candidates(Dollar, t)));
      |first| <= |syms| && syms[..|first|] == first
    ensures var syms := TickersOf(ExtractSpec(valid, Some(t)));
      var firstTwo := Distinct(ValidSymbols(valid, Candidates(Dollar, t)) + ValidSymbols(valid, Candidates(ActionBefore, t)));
      |firstTwo| <= |syms| && syms[..|firstTwo|] == firstTwo
  {
    ResolvedOrder(valid, Candidates(Dollar, t), Candidates(ActionBefore, t), Candidates(TickerBeforeAction, t));
  }

  /**
   * A ticker is HIGH exactly when a `$TICKER` match captured it, even when an
   * action match for it comes earlier in the text; its context is then the
   * `$` and the ticker as written in the first such match. A MEDIUM ticker's
   * context is the text of its first action match, the action-before matches
   * taken before the ticker-before-action ones.
   */
  lemma ExtractConfidence(valid: set<string>, t: string)
    requires t != ""
    ensures forall m :: m in ExtractSpec(valid, Some(t)) ==>
      (m.confidence == High <==> m.ticker in ValidSymbols(valid, Candidates(Dollar, t)))
    ensures forall m :: m in ExtractSpec(valid, Some(t)) && m.confidence == High ==>
      FirstContext(Candidates(Dollar, t), m.ticker) == Some(m.context) && |m.context| > 0 && m.context[0] == '$' && Upper(m.context[1..]) == m.ticker
    ensures forall m :: m in ExtractSpec(valid, Some(t)) && m.confidence == Medium ==>
      FirstContext(Candidates(ActionBefore, t) + Candidates(TickerBeforeAction, t), m.ticker) == Some(m.context)
  {
    var hi := Candidates(Dollar, t);
    var med := Candidates(ActionBefore, t) + Candidates(TickerBeforeAction, t);
    ResolvedConfidence(valid, hi, med);
    DollarCandidateContext(t);
    forall m | m in ExtractSpec(valid, Some(t)) && m.confidence == High
      ensures |m.context| > 0 && m.context[0] == '$' && Upper(m.context[1..]) == m.ticker
    {
      var i := FirstContextIsFirst(hi, m.ticker);
      assert hi[i] in hi;
      assert m.context[1..] == hi[i].captured;
    }
  }

  /**
   * `$` followed by two to five letters is one HIGH mention whose context is
   * the whole text, when the upper-cased letters are a valid ticker.
   * One letter, or six or more, give nothing: `{2,5}` needs two, and the
   * `\b` after the fifth letter fails when a sixth follows.
   */
  lemma ExtractDollarWord(valid: set<string>, s: string)
    requires IsAlpha(s)
    ensures var t := "$" + s;
      ExtractSpec(valid, Some(t)) ==
        if 2 <= |s| <= 5 && Upper(s) in valid then [TickerMention(Upper(s), High, t)] else []
  {
    var t := "$" + s;
    forall j | 0 <= j < |t| ensures !IsSpace(t[j]) {
      if j > 0 {
        assert t[j] == s[j - 1];
      }
    }
    NoSpaceNoContextMatch(t);
    assert Candidates(ActionBefore, t) + Candidates(TickerBeforeAction, t) == [];
    DollarWordCandidates(s);
    if 2 <= |s| <= 5 {
      ResolvedSingleDollar(valid, Candidate(s, t));
    }
  }

  /** The dollar candidates of a text that is one `$` followed by letters only. */
  lemma DollarWordCandidates(s: string)
    requires IsAlpha(s)
    ensures Candidates(Dollar, "$" + s) == if 2 <= |s| <= 5 then [Candidate(s, "$" + s)] else []
  {
    var t := "$" + s;
    DollarWordMatches(s);
    if 2 <= |s| <= 5 {
      var m := CandidateAt(Dollar, t, 0);
      assert t[1..|t|] == s && t[0..|t|] == t;
    }
  }

  class TickerExtractor {
    const validTickers: set<string>

    /** An extractor over an already loaded set of valid tickers. */
    constructor(valid: set<string>)
      ensures validTickers == valid
    {
      validTickers := valid;
    }

    /** Construction from a file path: fails when the file does not exist. */
    static method Open(path: string, file: Option<seq<string>>) returns (r: Result<TickerExtractor, LoadError>)
      ensures file.None? <==> r.Err?
      ensures r.Err? ==> r.error == FileNotFound(path)
      ensures r.Ok? ==> fresh(r.value) && r.value.validTickers == LoadValidTickers(path, file).value
    {
      var loaded := LoadValidTickers(path, file);
      match loaded
      case Err(e) =>
        r := Err(e);
      case Ok(valid) =>
        var x := new TickerExtractor(valid);
        r := Ok(x);
    }

    /** All ticker mentions of `text`, one per ticker, keeping the highest confidence. */
    method Extract(text: Option<string>) returns (result: seq<TickerMention>)
      ensures result == ExtractSpec(validTickers, text)
    {
      if text.None? || text.value == "" {
        return [];
      }
      var t := text.value;
      // HIGH confidence: $TICKER
      var dollar := Candidates(Dollar, t);
      var order, mentions := MergeDollar(dollar);
      // MEDIUM confidence: action word before the ticker, then ticker before an action word
      var action := Candidates(ActionBefore, t);
      order, mentions := MergeAction(dollar, [], action, order, mentions);
      assert [] + action == action;
      var suffix := Candidates(TickerBeforeAction, t);
      order, mentions := MergeAction(dollar, action, suffix, order, mentions);
      TracksResolved(validTickers, dollar, action + suffix, order, mentions);
      result := seq(|order|, i requires 0 <= i < |order| && order[i] in mentions => mentions[order[i]]);
    }

    /**
     * The dollar loop of `extract`, starting from the empty dictionary: a valid
     * ticker is stored as HIGH unless it is already there as HIGH.
     */
    method MergeDollar(cs: seq<Candidate>) returns (order: seq<string>, mentions: map<string, TickerMention>)
      ensures Tracks(validTickers, cs, [], order, mentions)
    {
      order, mentions := [], map[];
      TracksEmpty(validTickers);
      for i := 0 to |cs|
        invariant Tracks(validTickers, cs[..i], [], order, mentions)
      {
        var c := cs[i];
        var ticker := Upper(c.captured);
        assert cs[..i + 1] == cs[..i] + [c];
        if ticker in validTickers {
          if ticker in mentions {
            DollarStepKnown(validTickers, cs[..i], c, order, mentions);
          } else {
            DollarStepNew(validTickers, cs[..i], c, order, mentions);
          }
          if ticker !in mentions || mentions[ticker].confidence != High {
            if ticker !in mentions {
              order := order + [ticker];
            }
            mentions := mentions[ticker := TickerMention(ticker, High, c.context)];
          }
        } else {
          DollarStepInvalid(validTickers, cs[..i], c, order, mentions);
        }
      }
      assert cs[..|cs|] == cs;
    }

    /**
     * One of the two MEDIUM loops of `extract`: a valid ticker not yet in the
     * dictionary is added as MEDIUM; nothing already there is overwritten.
     */
    method MergeAction(hi: seq<Candidate>, med: seq<Candidate>, cs: seq<Candidate>, order0: seq<string>, mentions0: map<string, TickerMention>)
      returns (order: seq<string>, mentions: map<string, TickerMention>)
      requires Tracks(validTickers, hi, med, order0, mentions0)
      ensures Tracks(validTickers, hi, med + cs, order, mentions)
    {
      order, mentions := order0, mentions0;
      assert med + cs[..0] == med;
      for i := 0 to |cs|
        invariant Tracks(validTickers, hi, med + cs[..i], order, mentions)
      {
        var c := cs[i];
        var ticker := Upper(c.captured);
        assert (med + cs[..i]) + [c] == med + cs[..i + 1];
        if ticker in validTickers && ticker !in mentions {
          ActionStepNew(validTickers, hi, med + cs[..i], c, order, mentions);
          order := order + [ticker];
          mentions := mentions[ticker := TickerMention(ticker, Medium, c.context)];
        } else {
          ActionStepOther(validTickers, hi, med + cs[..i], c, order, mentions);
        }
      }
      assert cs[..|cs|] == cs;
    }

    /** The ticker symbols of `Extract(text)`, in the same order, each once. */
    method ExtractTickersOnly(text: Option<string>) returns (tickers: seq<string>)
      ensures tickers == TickersOf(ExtractSpec(validTickers, text))
      ensures NoDuplicates(tickers)
    {
      var mentions := Extract(text);
      tickers := seq(|mentions|, i requires 0 <= i < |mentions| => mentions[i].ticker);
      if text.Some? && text.value != "" {
        var t := text.value;
        ResolvedSound(validTickers, Candidates(Dollar, t), Candidates(ActionBefore, t) + Candidates(TickerBeforeAction, t));
      }
    }
  }
}

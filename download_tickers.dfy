/**
 * Construction of the ticker universe the extractor loads: filtering the
 * downloaded exchange symbols, adding the always-wanted symbols, and the file
 * format the universe is saved in (one ticker per line).
 */
module DownloadTickers {
  import opened Wrappers
  import opened AsciiText
  import TickerExtractor

  /** `common_words` as written, including the mixed-case "PhD": words that are also tickers and are dropped as too ambiguous. */
  predicate IsCommonWord(w: string) {
    w in {
    "A", "I", "IT", "AT", "BE", "BY", "DO", "GO", "IF", "IN", "IS", "ME",
    "MY", "NO", "OF", "ON", "OR", "SO", "TO", "UP", "US", "WE",
    "ALL", "AM", "AN", "AND", "ANY", "ARE", "AS", "BIG", "CAN", "CEO",
    "DD", "EV", "FOR", "HAS", "HE", "HIM", "HIS", "HOW", "ITS", "LET",
    "LOW", "MAY", "MEN", "NEW", "NOT", "NOW", "OLD", "ONE", "OUR", "OUT",
    "OWN", "RUN", "SAY", "SEE", "SHE", "THE", "TOO", "TWO", "WAS", "WAY",
    "WHO", "WHY", "WIN", "YOU", "YOLO", "IMO", "TBH", "FYI", "CEO", "CFO",
    "IPO", "ATH", "EOD", "EOM", "EOY", "YTD", "QTD", "MTD", "PM", "AM",
    "USA", "UK", "EU", "GDP", "CPI", "FED", "SEC", "FDA", "CDC", "WHO",
    "CEO", "COO", "CTO", "CFO", "CIO", "VP", "SVP", "EVP", "MD", "PhD",
    "AI", "ML", "AR", "VR", "IOT", "API", "SDK", "UI", "UX",
    "EDIT", "LINK", "POST", "HOLD", "PUMP", "DUMP", "MOON", "GAIN", "LOSS",
    "CALL", "PUT", "BUY", "SELL", "LONG", "SHORT", "BEAR", "BULL",
    "FREE", "BEST", "GOOD", "REAL", "TRUE", "VERY", "WELL", "JUST",
    "LIVE", "LOVE", "LIFE", "WORK", "HOME", "NEXT", "LAST", "ONLY",
    "MOST", "MUCH", "MANY", "MORE", "SOME", "SUCH", "THAN", "THAT",
    "THEM", "THEN", "THIS", "WHAT", "WHEN", "WILL", "WITH", "YOUR"}
  }

  const PopularEtfs: set<string> := {"QQQ", "IWM", "DIA", "VTI", "VOO", "ARKK", "TQQQ", "SQQQ"}

  const PopularStocks: set<string> := {
    "GME", "AMC", "BB", "NOK", "PLTR", "NIO", "TSLA", "AAPL", "NVDA",
    "AMD", "MSFT", "GOOGL", "GOOG", "AMZN", "META", "NFLX"
  }

  /** A raw symbol survives a filter with word test `isCommon`: longer than one character, not a common word once upper-cased, letters only. */
  predicate KeptBy(isCommon: string -> bool, ticker: string) {
    |ticker| > 1 && !isCommon(Upper(ticker)) && IsAlpha(ticker)
  }

  /** The upper-cased form of every symbol of `tickers` kept with word test `isCommon`. */
  function FilteredBy(isCommon: string -> bool, tickers: set<string>): set<string> {
    set t | t in tickers && KeptBy(isCommon, t) :: Upper(t)
  }

  /** The filtered universe, with the word list as written. */
  function Filtered(tickers: set<string>): set<string> {
    FilteredBy(IsCommonWord, tickers)
  }

  /** `filter_tickers`: one pass over the input set, adding each kept symbol upper-cased. */
  method FilterTickers(tickers: set<string>) returns (filtered: set<string>)
    ensures filtered == Filtered(tickers)
    ensures forall x :: x in filtered ==> |x| >= 2 && IsAlpha(x) && IsUpperCase(x) && !IsCommonWord(x)
  {
    filtered := {};
    var rest := tickers;
    while rest != {}
      invariant rest <= tickers
      invariant filtered == FilteredBy(IsCommonWord, tickers - rest)
      decreases |rest|
    {
      var ticker :| ticker in rest;
      FilteredAdd(IsCommonWord, tickers - rest, ticker);
      assert (tickers - rest) + {ticker} == tickers - (rest - {ticker});
      rest := rest - {ticker};
      if |ticker| <= 1 {
        continue;
      }
      if IsCommonWord(Upper(ticker)) {
        continue;
      }
      if !IsAlpha(ticker) {
        continue;
      }
      filtered := filtered + {Upper(ticker)};
    }
    assert tickers - rest == tickers;
    FilteredShape(IsCommonWord, tickers);
  }

  /** Taking one more symbol into the filter's input adds its upper-cased form exactly when it is kept. */
  lemma FilteredAdd(isCommon: string -> bool, done: set<string>, ticker: string)
    ensures FilteredBy(isCommon, done + {ticker}) == FilteredBy(isCommon, done) + (if KeptBy(isCommon, ticker) then {Upper(ticker)} else {})
  {
  }

  /** Every filtered ticker has at least two characters, is alphabetic and upper-case, and is not a common word. */
  lemma FilteredShape(isCommon: string -> bool, tickers: set<string>)
    ensures forall x :: x in FilteredBy(isCommon, tickers) ==> |x| >= 2 && IsAlpha(x) && IsUpperCase(x) && !isCommon(x)
  {
    forall x | x in FilteredBy(isCommon, tickers) ensures |x| >= 2 && IsAlpha(x) && IsUpperCase(x) && !isCommon(x) {
      var t :| t in tickers && KeptBy(isCommon, t) && x == Upper(t);
      UpperKeepsAlpha(t);
      UpperIsUpperCase(t);
    }
  }

  /** Soundness and completeness: x is filtered exactly when it is the upper-cased form of some kept input symbol. */
  lemma FilteredExactly(isCommon: string -> bool, tickers: set<string>, x: string)
    ensures x in FilteredBy(isCommon, tickers) <==>
      exists t :: t in tickers && |t| >= 2 && IsAlpha(t) && !isCommon(Upper(t)) && x == Upper(t)
  {
  }

  /** Filtering a filtered set changes nothing. */
  lemma FilterIdempotent(isCommon: string -> bool, tickers: set<string>)
    ensures FilteredBy(isCommon, FilteredBy(isCommon, tickers)) == FilteredBy(isCommon, tickers)
  {
    var f := FilteredBy(isCommon, tickers);
    FilteredShape(isCommon, tickers);
    forall x | x in f ensures KeptBy(isCommon, x) && Upper(x) == x {
      UpperOfUpperCase(x);
    }
    assert forall x :: x in f ==> x in FilteredBy(isCommon, f);
  }

  /** Filtering one symbol. */
  lemma FilteredSingleton(isCommon: string -> bool, ticker: string)
    ensures FilteredBy(isCommon, {ticker}) == if KeptBy(isCommon, ticker) then {Upper(ticker)} else {}
  {
  }

  /** The common words hold the mixed-case "PhD" and not "PHD". */
  lemma PhdNotCommon()
    ensures IsCommonWord("PhD") && !IsCommonWord("PHD")
  {
  }

  /** Since "PhD" never equals an upper-cased symbol, PHD passes the filter, whichever case it is downloaded in. */
  lemma PhdNotExcluded()
    ensures Filtered({"PHD"}) == {"PHD"} && Filtered({"PhD"}) == {"PHD"}
  {
    assert Upper("PhD") == "PHD";
    assert Upper("PHD") == "PHD";
    assert IsAlpha("PHD") && IsAlpha("PhD");
    PhdNotCommon();
    FilteredSingleton(IsCommonWord, "PHD");
    FilteredSingleton(IsCommonWord, "PhD");
  }

  /** A Python set object that is updated in place. */
  class TickerSet {
    var elements: set<string>

    constructor(elements: set<string>)
      ensures this.elements == elements
    {
      this.elements := elements;
    }
  }

  /** The universe after the always-wanted symbols are added to s. */
  function WithSpecialTickers(s: set<string>): set<string> {
    s + {"SPY"} + PopularEtfs + PopularStocks
  }

  /** `add_special_tickers`: adds SPY, the popular ETFs and the popular stocks to the set in place and returns that same set. */
  method AddSpecialTickers(tickers: TickerSet) returns (r: TickerSet)
    modifies tickers
    ensures r == tickers
    ensures tickers.elements == WithSpecialTickers(old(tickers.elements))
  {
    tickers.elements := tickers.elements + {"SPY"};
    tickers.elements := tickers.elements + PopularEtfs;
    tickers.elements := tickers.elements + PopularStocks;
    r := tickers;
  }

  /** Nothing is removed, SPY and every popular ETF and stock are present, and adding them twice is the same as once. */
  lemma SpecialTickersFacts(s: set<string>)
    ensures s <= WithSpecialTickers(s) && "SPY" in WithSpecialTickers(s)
    ensures PopularEtfs <= WithSpecialTickers(s) && PopularStocks <= WithSpecialTickers(s)
    ensures WithSpecialTickers(WithSpecialTickers(s)) == WithSpecialTickers(s)
    ensures forall x :: x in WithSpecialTickers(s) ==> x in s || x == "SPY" || x in PopularEtfs || x in PopularStocks
  {
  }

  /** The always-wanted symbols are alphabetic and upper-case. */
  lemma SpecialTickersShape()
    ensures forall x :: x in {"SPY"} + PopularEtfs + PopularStocks ==> IsAlpha(x) && IsUpperCase(x)
  {
    assert IsAlpha("SPY") && IsUpperCase("SPY");
    EtfsShape();
    StocksShape();
  }

  lemma EtfsShape()
    ensures forall x :: x in PopularEtfs ==> IsAlpha(x) && IsUpperCase(x)
  {
  }

  lemma StocksShape()
    ensures forall x :: x in PopularStocks ==> IsAlpha(x) && IsUpperCase(x)
  {
  }

  /** The lines of the saved universe file: each ticker of `order` followed by a newline. */
  function SavedLines(order: seq<string>): (lines: seq<string>)
    ensures |lines| == |order|
  {
    seq(|order|, i requires 0 <= i < |order| => order[i] + "\n")
  }

  /** An alphabetic ticker neither starts nor ends with white space. */
  lemma AlphaUnpadded(x: string)
    requires IsAlpha(x)
    ensures x != "" && !IsSpace(x[0]) && !IsSpace(x[|x| - 1])
  {
    assert IsLetter(x[0]) && IsLetter(x[|x| - 1]);
  }

  /** One saved line loads back as the ticker written on it. */
  lemma SavedLineLoads(x: string)
    requires x != "" && IsUpperCase(x) && !IsSpace(x[0]) && !IsSpace(x[|x| - 1])
    ensures Strip(x + "\n") == x && Upper(Strip(x + "\n")) == x
  {
    StripLine(x);
    UpperOfUpperCase(x);
  }

  /** Every ticker saved is among those loaded back. */
  lemma SavedAreLoaded(path: string, u: set<string>, order: seq<string>)
    requires forall x :: x in order <==> x in u
    requires forall x :: x in u ==> x != "" && IsUpperCase(x) && !IsSpace(x[0]) && !IsSpace(x[|x| - 1])
    ensures u <= TickerExtractor.LoadValidTickers(path, Some(SavedLines(order))).value
  {
    var lines := SavedLines(order);
    TickerExtractor.LoadedTickers(path, lines);
    forall x | x in u ensures x in TickerExtractor.LoadValidTickers(path, Some(lines)).value {
      var i :| 0 <= i < |order| && order[i] == x;
      SavedLineLoads(x);
      assert lines[i] == x + "\n" && lines[i] in lines;
    }
  }

  /** Every ticker loaded back was saved. */
  lemma LoadedWereSaved(path: string, u: set<string>, order: seq<string>)
    requires forall x :: x in order <==> x in u
    requires forall x :: x in u ==> x != "" && IsUpperCase(x) && !IsSpace(x[0]) && !IsSpace(x[|x| - 1])
    ensures TickerExtractor.LoadValidTickers(path, Some(SavedLines(order))).value <= u
  {
    var lines := SavedLines(order);
    TickerExtractor.LoadedTickers(path, lines);
    forall x | x in TickerExtractor.LoadValidTickers(path, Some(lines)).value ensures x in u {
      var l :| l in lines && Strip(l) != "" && x == Upper(Strip(l));
      var i :| 0 <= i < |lines| && lines[i] == l;
      assert order[i] in order;
      SavedLineLoads(order[i]);
    }
  }

  /**
   * Saving any enumeration of a set of upper-case tickers without surrounding
   * white space and loading the file back gives the same set.
   */
  lemma SaveLoadRoundTrip(path: string, u: set<string>, order: seq<string>)
    requires forall x :: x in order <==> x in u
    requires forall x :: x in u ==> x != "" && IsUpperCase(x) && !IsSpace(x[0]) && !IsSpace(x[|x| - 1])
    ensures TickerExtractor.LoadValidTickers(path, Some(SavedLines(order))) == Ok(u)
  {
    var r := TickerExtractor.LoadValidTickers(path, Some(SavedLines(order)));
    assert r.Ok?;
    SavedAreLoaded(path, u, order);
    LoadedWereSaved(path, u, order);
    assert r.value == u;
  }

  /** The universe built from any downloaded symbols, whatever the word test, survives being saved and loaded back in any line order. */
  lemma UniverseRoundTripBy(path: string, isCommon: string -> bool, raw: set<string>, order: seq<string>)
    requires forall x :: x in order <==> x in WithSpecialTickers(FilteredBy(isCommon, raw))
    ensures TickerExtractor.LoadValidTickers(path, Some(SavedLines(order))) == Ok(WithSpecialTickers(FilteredBy(isCommon, raw)))
  {
    var u := WithSpecialTickers(FilteredBy(isCommon, raw));
    FilteredShape(isCommon, raw);
    SpecialTickersShape();
    forall x | x in u ensures x != "" && IsUpperCase(x) && !IsSpace(x[0]) && !IsSpace(x[|x| - 1]) {
      assert IsAlpha(x) && IsUpperCase(x);
      AlphaUnpadded(x);
    }
    SaveLoadRoundTrip(path, u, order);
  }

  /** The universe written by the downloader loads back as itself. */
  lemma UniverseRoundTrip(path: string, raw: set<string>, order: seq<string>)
    requires forall x :: x in order <==> x in WithSpecialTickers(Filtered(raw))
    ensures TickerExtractor.LoadValidTickers(path, Some(SavedLines(order))) == Ok(WithSpecialTickers(Filtered(raw)))
  {
    UniverseRoundTripBy(path, IsCommonWord, raw, order);
  }
}

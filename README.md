# Stock ticker extraction, modelled in Dafny

This project models the ticker-recognition core of a Reddit stock-mention
pipeline.

The extractor (`ticker_extractor.py`) loads a universe of valid ticker
symbols from a file with one ticker per line. It then finds ticker mentions
in free text with three regular expressions:

- the dollar rule `$AAPL` gives HIGH confidence;
- an action word followed by a ticker (`bought some AAPL`) gives MEDIUM;
- a ticker followed by an action word (`TSLA calls`) gives MEDIUM.

It merges the matches into one mention per ticker. A dollar match always
wins over an action match. Among action matches, the first valid one wins.
The order of the mentions is the dictionary's insertion order.

The universe builder (`download_tickers.py`) makes that file:

- it filters the downloaded exchange symbols (at least two characters,
  letters only, not a common English word);
- it adds SPY and a fixed list of popular ETFs and stocks;
- it writes the result one ticker per line.

Modules, one file each:

- `Wrappers` (`wrappers.dfy`): `Option` and `Result`.
- `AsciiText` (`ascii_text.dfy`): `str.upper`, `str.strip`, `str.isalpha` and the regex character classes on ASCII text.
- `Patterns` (`patterns.dfy`): the three compiled patterns, written as matchers that follow Python's backtracking order, and `finditer` as a leftmost, non-overlapping scan.
- `Mentions` (`mentions.dfy`): `Confidence` and `TickerMention`. It defines `Resolved`, a reference definition of the merged result, proves the extractor's promises about it, and holds the step lemmas the merging loops use.
- `TickerExtractor` (`ticker_extractor.dfy`): the file loader and the `TickerExtractor` class. `Extract` runs the source's three loops over a dictionary, modelled as a key-order sequence plus a map, and is proved equal to `ExtractSpec`.
- `DownloadTickers` (`download_tickers.dfy`): the filter loop, the in-place addition of the special tickers, and the save/load round trip of the universe file.

A file is given to the model as the sequence of its lines, or `None` when no
file exists at the path. The text passed to `extract` is an
`Option<string>`, so that the source's `None` input is covered.

Four details of the code worth noting:

- The bare verbs `add`, `load`, `grab`, `pick` and `dump` are absent from the
  action vocabulary (ticker_extractor.py:80-84); only their `-ed`/`-ing` forms
  are present. `Patterns.BareVerbsAbsent` states this.
- The common-word list contains the mixed-case entry `"PhD"`. Symbols are
  upper-cased before the membership test, so this entry never matches
  anything, and `PHD` passes the filter. `DownloadTickers.PhdNotExcluded`
  states this.
- The gap `(?:\w+\s+){0,3}` of the action-before rule is greedy, so the
  rule reaches the last token within three words: `bought some AAPL and TSLA`
  yields TSLA, not AAPL. `Patterns.GreedyGapExample` states this.
- `([A-Z]{2,5})` is compiled with IGNORECASE, so the action rules capture
  lower-case tokens as well (`bought aapl` yields AAPL).

## Model

| member | source | states |
|---|---|---|
| AsciiText.Upper | ticker_extractor.py:59 | `str.upper` on ASCII keeps the length; its meaning is given by UpperIsUpperCase, UpperKeepsAlpha and UpperOfUpperCase |
| AsciiText.Strip | ticker_extractor.py:59 | `str.strip()`: the result neither begins nor ends with white space, is a stretch of the input, and everything cut off either side is white space |
| AsciiText.UpperIsUpperCase | ticker_extractor.py:119 | the upper-cased capture contains no lower-case letter |
| AsciiText.UpperKeepsAlpha | download_tickers.py:81-82 | upper-casing keeps a letters-only symbol letters-only |
| AsciiText.UpperOfUpperCase | download_tickers.py:82 | upper-casing an upper-case string changes nothing |
| AsciiText.UpperIdempotent | download_tickers.py:82 | upper-casing twice is upper-casing once |
| AsciiText.IsAlpha | download_tickers.py:80 | `str.isalpha()` on ASCII: the string is non-empty and every character is a letter, code 65-90 (`A`-`Z`) or 97-122 (`a`-`z`) |
| AsciiText.IsSpace | ticker_extractor.py:91-98 | the `\s` class of Python's `str` patterns on ASCII: codes 9-13 (tab, line feed, vertical tab, form feed, carriage return) and 28-32 (the four separators and space) |
| AsciiText.IsWordChar | ticker_extractor.py:91-98 | the `\w` class on ASCII: a letter (65-90, 97-122), a digit (48-57) or `_` (95) |
| AsciiText.StripLine | ticker_extractor.py:59 | stripping a written line `w + "\n"` gives back w when w has no white space at either end |
| Patterns.IsBoundary | ticker_extractor.py:66-98 | `\b` at i: exactly one of the characters either side of i is a word character, the text's two ends counting as non-word |
| Patterns.LettersThenBoundary | ticker_extractor.py:66 | `[A-Za-z]{2,k}\b` ends 2..k letters on, at a word boundary, after letters only |
| Patterns.LettersThenBoundaryExact | ticker_extractor.py:66 | `[A-Za-z]{2,k}\b` matches exactly the whole letter run, when it has 2..k letters and no digit or `_` follows; otherwise nothing |
| Patterns.DollarAt | ticker_extractor.py:65-68 | a dollar match starts at the attempt position and lies within the text |
| Patterns.DollarAtExact | ticker_extractor.py:65-68 | the dollar rule matches iff `$` is followed by a 2-5 letter run not continued by a word character; the match is `$` plus that whole run, so `$` plus six letters never matches |
| Patterns.ActionWords | ticker_extractor.py:72-85 | the action vocabulary in alternation order, `calls?` and `puts?` expanded with the `s` form first; BareVerbsAbsent and AlternationOrder state its content |
| Patterns.SuffixWords | ticker_extractor.py:98 | the suffix words `calls?|puts?|position|shares?|stock` in alternation order, `s?` expanded with the `s` form first |
| Patterns.AlternativeThenBoundaryExact | ticker_extractor.py:98 | the ordered alternation of suffix words, each followed by `\b` (`AlternativeThenBoundary`), succeeds iff one of its words fits there: matches case-insensitively and is followed by a word boundary |
| Patterns.AlternativeThenBoundaryFirst | ticker_extractor.py:98 | on success the alternation ends right after the first word that fits, every earlier word having failed |
| Patterns.LettersThen | ticker_extractor.py:98 | `([A-Z]{2,k})` then the rest of the pattern, the repetition tried greedily: a success opens with a group of 2..k letters at i, and the rest matches from the group's end to the match's end |
| Patterns.SpaceThenSuffix | ticker_extractor.py:98 | `\s+(suffix)\b` starts with white space and ends at a word boundary |
| Patterns.SpaceThenSuffixExact | ticker_extractor.py:98 | `\s+(suffix)\b` matches iff white space is there and a suffix word fits after the whole white-space run |
| Patterns.SpaceThenSuffixFirst | ticker_extractor.py:98 | on success `\s+(suffix)\b` ends right after the first suffix word that fits after the white-space run |
| Patterns.SuffixAfterAtLetter | ticker_extractor.py:98 | `\s+(suffix)\b` never matches at a letter |
| Patterns.LettersThenExact | ticker_extractor.py:98 | when the rest cannot start at a letter, the greedy `{2,k}` can only succeed with the whole letter run: the result is the rest's match after the run if the run has 2..k letters, and nothing otherwise |
| Patterns.LettersThenShort | ticker_extractor.py:98 | a repetition count below the letter run's length never succeeds, since a letter follows |
| Patterns.LettersThenLong | ticker_extractor.py:98 | repetition counts above the letter run's length fail for want of letters, leaving the run's own length |
| Patterns.TickerThenSuffixExact | ticker_extractor.py:97-100 | a candidate built from the letter run ending at q and `\s+(suffix)\b` there succeeds iff it is allowed, the run has 2-5 letters, white space follows, and a suffix word fits after the white-space run ending at p; the group is then the whole run and the match ends after the first suffix word that fits |
| Patterns.TickerBeforeActionAt | ticker_extractor.py:97-100 | a match opens at a word boundary with a 2-5 letter ticker group, then white space, and ends at a word boundary |
| Patterns.TickerBeforeActionAtExact | ticker_extractor.py:97-100 | the rule matches at i iff i is a word boundary, the letter run there has 2-5 letters, white space follows, and a suffix word ending at a word boundary follows that; the group is the whole letter run and the match ends after the first suffix word that fits |
| Patterns.TickerBeforeActionAtIs | ticker_extractor.py:97-100 | the rule at i is the whole letter run followed by `\s+(suffix)\b`, when i is a word boundary and the run has 2-5 letters, and no match otherwise |
| Patterns.TickerBeforeActionExample | ticker_extractor.py:96 | `AAPL calls` matches as a whole with `AAPL` as its group |
| Patterns.TokenAt | ticker_extractor.py:91 | `([A-Z]{2,5})\b` at q succeeds iff `[A-Za-z]{2,5}\b` does there, as the span from q to where that match ends (so, by LettersThenBoundaryExact, the whole 2-5 letter run when a boundary follows it) |
| Patterns.UnitEnd | ticker_extractor.py:91 | one `\w+\s+` unit ends strictly after its start, within the text |
| Patterns.GapThenTicker | ticker_extractor.py:91 | the gap-then-ticker part captures 2-5 letters followed by a word boundary, at or after its start |
| Patterns.GapThenTickerFound | ticker_extractor.py:91 | the captured token sits at most k whole `\w+\s+` units after the start |
| Patterns.GapThenTickerNoFurther | ticker_extractor.py:91 | the greedy `{0,3}` gap takes the furthest fitting token: no position further along, up to k units, holds one |
| Patterns.GapThenTickerNone | ticker_extractor.py:91 | when nothing is captured, no position up to k units along holds a 2-5 letter token |
| Patterns.AfterActionWord | ticker_extractor.py:91 | after an action word, a match needs white space first and captures 2-5 letters ending at a word boundary |
| Patterns.ActionWordThenTicker | ticker_extractor.py:86-91 | the ordered alternation from alternative k on, each alternative followed by the rest of the rule: a match starts at i, ends where its group ends, and comes from an alternative that occurs at i and after which the rest reports that group |
| Patterns.ActionWordThenTickerExact | ticker_extractor.py:86-91 | the alternation succeeds iff some alternative from k on fits (occurs at i and the rest succeeds after it); it misses none (`buying AAPL` matches, though `buy` is tried first) |
| Patterns.ActionWordThenTickerFirst | ticker_extractor.py:86-91 | on success the match comes from the first alternative that fits, every earlier one failing, and its group is the span the rest reports after that alternative |
| Patterns.ActionWordThenTickerIs | ticker_extractor.py:86-91 | conversely, when no earlier alternative occurs at i, ws[j] does, and the rest reports sp after it, the match runs from i to sp's end and captures sp |
| Patterns.ActionThenRestExact | ticker_extractor.py:90-91 | the two statements above for the alternation guarded by a boundary test: a match iff the test holds and some alternative fits; the group from the first one that fits |
| Patterns.ActionBeforeAt | ticker_extractor.py:90-93 | a match opens at a word boundary with an action word occurring there, followed by white space before the group, and ends with the 2-5 letter ticker group at a word boundary |
| Patterns.ActionBeforeAtExact | ticker_extractor.py:90-93 | the rule matches at i iff i is a word boundary and some action word fits there; the group is then what the greedy rest (`AfterActionWord`, by ActionRestIs) reports after the FIRST action word that fits, every earlier one failing |
| Patterns.ActionRestIs | ticker_extractor.py:91 | within the text, the rest tried after an action word is `AfterActionWord`, `\s+(?:\w+\s+){0,3}([A-Z]{2,5})\b` |
| Patterns.WordRunIs | ticker_extractor.py:91 | n word characters followed by a non-word character or the text's end are the whole `\w+` run |
| Patterns.SpaceRunIs | ticker_extractor.py:91 | n white-space characters followed by another character or the text's end are the whole `\s+` run |
| Patterns.UnitEndIs | ticker_extractor.py:91 | a `\w+\s+` unit ends after its whole word run and the whole white-space run that follows |
| Patterns.GreedyGapExample | ticker_extractor.py:89-91 | in `bought some AAPL and TSLA`, the rest after `bought` captures TSLA (positions 21-25), not AAPL: the greedy `{0,3}` gap takes all of `some AAPL and` |
| Patterns.BareVerbsAbsent | ticker_extractor.py:80-84 | add, load, grab, pick and dump are not action words |
| Patterns.AlternationOrder | ticker_extractor.py:72-86 | `buy` is tried before `buying`, and `calls` and `puts` before `call` and `put` |
| Patterns.MatchAt | ticker_extractor.py:61-100 | a match of any rule starts where it is attempted and lies within the text |
| Patterns.MatchCapturesToken | ticker_extractor.py:65-100 | every rule's ticker group is two to five ASCII letters |
| Patterns.Scan | ticker_extractor.py:118 | the scan over the attempts (`Attempts`: the rule's match tried at every text position, the definition FindAll and the FindAll* lemmas are stated with): reported matches start at or after the scan position and lie within the text |
| Patterns.FindAll | ticker_extractor.py:118 | `finditer`, the scan of `Attempts`, reports well-formed matches only, starting at or after the scan position |
| Patterns.FindAllSound | ticker_extractor.py:118-140 | every reported match is the rule's match at its own start |
| Patterns.FindAllOrdered | ticker_extractor.py:118-140 | matches come left to right, without overlap |
| Patterns.FindAllCovers | ticker_extractor.py:118-140 | every position where the rule matches lies inside some reported match |
| Patterns.FindAllTokens | ticker_extractor.py:119 | every reported ticker group is two to five letters |
| Patterns.FindAllDollarShape | ticker_extractor.py:125 | every dollar match is `$` followed by exactly its ticker group |
| Patterns.NoSpaceNoContextMatch | ticker_extractor.py:91 | a text without white space has no action-before and no ticker-before-action match |
| Patterns.DollarWordMatches | ticker_extractor.py:66 | in `$` plus letters, the only match is the whole text when there are 2-5 letters, and there is none otherwise |
| Mentions.Confidence | ticker_extractor.py:18-21 | the three confidence levels; ResolvedSound shows LOW never occurs in a result |
| Mentions.TickerMention | ticker_extractor.py:24-28 | a ticker, its confidence and the matched text; ResolvedSound and ResolvedConfidence state what each field holds |
| Mentions.Distinct | ticker_extractor.py:115 | dictionary keys: the same elements as the input, each once |
| Mentions.ValidSymbols | ticker_extractor.py:119-120 | the kept captures are valid and upper-case |
| Mentions.Resolved | ticker_extractor.py:147 | the result has one mention per distinct valid symbol |
| Mentions.FirstContextFound | ticker_extractor.py:131 | a valid ticker has a match in a pass iff it is among that pass's valid symbols |
| Mentions.FirstContextIsFirst | ticker_extractor.py:140 | the kept context comes from the earliest match of that ticker |
| Mentions.FirstContextNone | ticker_extractor.py:131 | when a pass has no match for a ticker, none of its candidates captures it |
| Mentions.FirstContextAppend | ticker_extractor.py:129-145 | a later pass only decides tickers an earlier pass leaves undecided |
| Mentions.ValidSymbolsAppend | ticker_extractor.py:129-145 | the valid symbols of two passes are those of each, in order |
| Mentions.DistinctPrefix | ticker_extractor.py:147 | keys inserted earlier keep their order, ahead of those inserted later |
| Mentions.TracksEmpty | ticker_extractor.py:115 | the empty dictionary represents no matches |
| Mentions.DollarStepNew | ticker_extractor.py:120-126 | a new valid dollar ticker is appended as HIGH with its match text |
| Mentions.DollarStepKnown | ticker_extractor.py:121 | a ticker already in the dictionary during the dollar pass is HIGH, and a further dollar match keeps the dictionary unchanged |
| Mentions.DollarStepInvalid | ticker_extractor.py:120 | an invalid dollar capture changes nothing |
| Mentions.ActionStepNew | ticker_extractor.py:131-136 | a new valid action ticker is appended as MEDIUM with its match text |
| Mentions.ActionStepOther | ticker_extractor.py:140 | an action match for an invalid ticker, or for one already present, changes nothing |
| Mentions.TracksResolved | ticker_extractor.py:147 | the dictionary's values, in insertion order, are the reference result |
| Mentions.ResolvedSound | ticker_extractor.py:110 | each ticker once; every ticker valid and upper-case; no LOW |
| Mentions.ResolvedComplete | ticker_extractor.py:118-145 | a ticker is reported iff some pass captured it validly |
| Mentions.ResolvedConfidence | ticker_extractor.py:118-145 | HIGH iff some dollar capture; HIGH context is the first dollar match's text; MEDIUM context is the first action match's text |
| Mentions.ResolvedOrder | ticker_extractor.py:147 | dollar tickers come first, then those new in the first action pass, then those new in the second |
| Mentions.EarlierActionWins | ticker_extractor.py:140 | a ticker found by the first action pass keeps that pass's context |
| Mentions.ResolvedMember | ticker_extractor.py:147 | every mention is the reference mention of one of the symbols |
| Mentions.ResolvedTickers | ticker_extractor.py:159-160 | the tickers of the result (its projection `TickersOf`, line 160) are the distinct valid symbols, in order |
| Mentions.ResolvedTickersOfRuns | ticker_extractor.py:159-160 | with two action passes, the tickers (`TickersOf`) are the distinct valid symbols of the three passes, in order |
| Mentions.ResolvedSingleDollar | ticker_extractor.py:118-126 | one dollar match and nothing else gives one HIGH mention, when the ticker is valid |
| TickerExtractor.LoadValidTickers | ticker_extractor.py:52-59 | a missing file is a FileNotFound error naming the path; an existing file never fails |
| TickerExtractor.LoadedTickers | ticker_extractor.py:59 | the loaded set is exactly {upper(strip(l))} over the non-blank lines; its elements are non-empty, upper-case and unpadded |
| TickerExtractor.LoadedLineShape | ticker_extractor.py:59 | a non-blank line loads as a non-empty, upper-case ticker with no white space at either end |
| TickerExtractor.Candidates | ticker_extractor.py:118-119 | one candidate per `finditer` match |
| TickerExtractor.CandidateTokenAt | ticker_extractor.py:119 | the j-th capture is two to five letters |
| TickerExtractor.CandidateTokens | ticker_extractor.py:130 | every capture (`group(1)`/`group(2)`, taken by `Candidates` from each `finditer` match with `group(0)` as context) of every rule is two to five letters |
| TickerExtractor.DollarCandidateContext | ticker_extractor.py:125 | a dollar mention's context is `$` followed by the capture as written |
| TickerExtractor.ValidSymbolSource | ticker_extractor.py:139 | every kept symbol is the upper-cased capture of a candidate |
| TickerExtractor.ExtractSpec | ticker_extractor.py:102-147 | what `extract` returns: [] for no text or empty text, else the reference merge of the three rules' candidates; the Extract* lemmas state its properties |
| TickerExtractor.ExtractNothing | ticker_extractor.py:112-113 | None and the empty text give [] |
| TickerExtractor.ExtractSound | ticker_extractor.py:102-147 | no duplicate tickers; every ticker valid, upper-case and 2-5 letters; never LOW |
| TickerExtractor.ExtractTickers | ticker_extractor.py:115-147 | the tickers are exactly the distinct valid captures: dollar, then action-before, then ticker-before-action |
| TickerExtractor.ExtractOrder | ticker_extractor.py:147 | dollar tickers come first; pass-2 tickers come before the tickers only pass 3 finds |
| TickerExtractor.ExtractConfidence | ticker_extractor.py:118-145 | HIGH iff a dollar capture, even when an action match comes earlier; HIGH context is the first `$` match text, which upper-cases to `$` plus the ticker; MEDIUM context is the first action match |
| TickerExtractor.ExtractDollarWord | ticker_extractor.py:65-68 | `$` plus letters gives one HIGH mention with the whole text as context, when there are 2-5 letters and the ticker is valid; otherwise [] |
| TickerExtractor.DollarWordCandidates | ticker_extractor.py:118-126 | the dollar candidates of `$` plus letters |
| TickerExtractor.TickerExtractor.Open | ticker_extractor.py:40-56 | construction fails with FileNotFound exactly when there is no file; otherwise the valid set is the loaded one |
| TickerExtractor.TickerExtractor.Extract | ticker_extractor.py:102-147 | the result equals ExtractSpec, whose properties are the Extract* lemmas |
| TickerExtractor.TickerExtractor.MergeDollar | ticker_extractor.py:117-126 | after the dollar loop, the dictionary represents the reference merge of the dollar matches |
| TickerExtractor.TickerExtractor.MergeAction | ticker_extractor.py:128-145 | each action loop extends the dictionary to the reference merge with that pass's matches appended |
| TickerExtractor.TickerExtractor.ExtractTickersOnly | ticker_extractor.py:149-160 | the projection of Extract onto tickers, each once |
| DownloadTickers.IsCommonWord | download_tickers.py:51-69 | the common-word list as written, including the mixed-case `PhD`; PhdNotCommon states the case detail |
| DownloadTickers.KeptBy | download_tickers.py:74-81 | the three skips of the loop: a symbol is kept iff it is longer than one character, its upper-case form is not a common word, and it is letters only |
| DownloadTickers.FilteredBy | download_tickers.py:71-84 | the result of the filter for a given word test; FilteredExactly, FilteredShape and FilterIdempotent state its properties |
| DownloadTickers.FilterTickers | download_tickers.py:42-84 | the loop's result is Filtered(tickers); every element has length at least 2, is letters only and upper-case, and is not a common word |
| DownloadTickers.FilteredAdd | download_tickers.py:71-82 | one loop step adds the upper-cased symbol exactly when it is kept |
| DownloadTickers.FilteredShape | download_tickers.py:71-82 | filtered symbols have length at least 2, are letters only and upper-case, and are not common words |
| DownloadTickers.FilteredExactly | download_tickers.py:71-82 | sound and complete: x is filtered iff it is upper(t) for an input t of length at least 2, letters only, whose upper-case form is not a common word |
| DownloadTickers.FilterIdempotent | download_tickers.py:42-84 | filtering twice is filtering once |
| DownloadTickers.FilteredSingleton | download_tickers.py:71-82 | filtering one symbol gives its upper-case form or nothing |
| DownloadTickers.PhdNotCommon | download_tickers.py:61 | the list holds `PhD` but not `PHD` |
| DownloadTickers.PhdNotExcluded | download_tickers.py:76 | PHD survives the filter, whether it is downloaded as `PHD` or as `PhD` |
| DownloadTickers.PopularEtfs | download_tickers.py:93 | the popular ETFs as written; EtfsShape states their form |
| DownloadTickers.PopularStocks | download_tickers.py:97-100 | the popular stocks as written; StocksShape states their form |
| DownloadTickers.WithSpecialTickers | download_tickers.py:90-101 | the set after SPY, the ETFs and the stocks are added; SpecialTickersFacts states its properties |
| DownloadTickers.AddSpecialTickers | download_tickers.py:87-103 | the same object is returned; its set becomes the old set plus SPY, the ETFs and the stocks |
| DownloadTickers.SpecialTickersFacts | download_tickers.py:87-103 | nothing is removed; SPY and every ETF and stock are present; adding twice is adding once; nothing else is added |
| DownloadTickers.SpecialTickersShape | download_tickers.py:90-101 | the special tickers are upper-case letters only |
| DownloadTickers.EtfsShape | download_tickers.py:93 | the popular ETFs are upper-case letters only |
| DownloadTickers.StocksShape | download_tickers.py:97-100 | the popular stocks are upper-case letters only |
| DownloadTickers.SavedLines | download_tickers.py:130-131 | one saved line per ticker |
| DownloadTickers.SavedLineLoads | download_tickers.py:131 | one saved line loads back as its ticker |
| DownloadTickers.SavedAreLoaded | download_tickers.py:129-131 | every saved ticker is loaded back |
| DownloadTickers.LoadedWereSaved | download_tickers.py:129-131 | every loaded ticker was saved |
| DownloadTickers.SaveLoadRoundTrip | download_tickers.py:129-131 | saving any enumeration of a set of unpadded upper-case tickers and loading it back gives the same set |
| DownloadTickers.UniverseRoundTripBy | download_tickers.py:118-131 | for any common-word test, the filtered and extended universe survives save and load |
| DownloadTickers.UniverseRoundTrip | download_tickers.py:118-131 | the universe written by the downloader loads back as itself |

## Left out

- `download_exchange_tickers` (download_tickers.py:17-39): an HTTP request and JSON parsing. The downloaded symbols are a parameter (`raw`).
- `main` (download_tickers.py:106-133): printing, reading `config.yaml` (lines 12-14) and creating the output directory are left out. Only the lines it writes are modelled (`SavedLines`).
- `sorted(final)` (download_tickers.py:130): the round-trip lemmas hold for every enumeration of the set, so no sort is modelled.
- `load_extractor_from_config` (ticker_extractor.py:163-174) only reads a dictionary entry and calls the constructor, which is modelled as `Open`.
- File reading: opening and reading a file, line terminators other than `\n`, and failures other than a missing file (a directory, no permission) are left out. The loader receives the file's lines.
- Unicode: Python's `str` regexes, `upper`, `strip` and `isalpha` are Unicode-aware. The model covers ASCII text only. Non-ASCII letters, Unicode white space, and case mappings that change length (`ß`) or that IGNORECASE applies to `[A-Za-z]` (`ı`, `ſ`, the Kelvin sign) are not modelled.
- General regular expressions: only the three compiled patterns are modelled, as hand-written matchers. Backtracking into `\s+` and `\w+` is modelled by maximal runs, which is equivalent for these patterns. No pattern can match empty text, so the scan simply resumes at a match's end.
- Confidence.LOW is declared but never produced. The model only proves it never appears.
- TickerExtractor.TickerExtractor.Extract: the source's dictionary is a local sequence of keys in insertion order plus a map. Its three loops are the methods `MergeDollar` and `MergeAction`.
- `valid_tickers` is assigned once in `__init__` and never changed, so it is a `const` of the class.
- FilterTickers: that the input set is not modified holds because Dafny sets are values. It is not stated as a separate clause.
- `fileStreams.py`, `utils.py` and the configuration loading they use are not part of this model.

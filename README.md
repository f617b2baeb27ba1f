# Contract risk screening: a verified Dafny model

The application reads a contract that has been uploaded as PDF, DOCX or plain text. It cuts the text into clauses and scores each clause against a fixed three-tier table of risk keywords, with a short-notice heuristic on top. It then ranks the flagged clauses, computes one overall risk score for the document, and writes a rule-based ("mock AI") explanation for each flagged clause. This project models that core, all of which lives in `app.py`, as five Dafny modules:

- `Text` (`text.dfy`): ASCII character classes, `str.lower`, `str.strip`, substring search, and the other sequence helpers the later modules share.
- `Segmenter` (`segmenter.dfy`): `simple_clause_split`. The two lookahead and paragraph regular expressions, the line clean-up, the short-fragment filter and the sentence fallback are each written as a function over strings. `SimpleClauseSplit` replays the function's two loops as methods and is proved to compute `Segment`.
- `Scorer` (`scorer.dfy`): the keyword table, the tier weights and `score_clause`. The notice regex `\b(\d{1,2})\s*(day|days|month|months)\b` is modelled as a leftmost-match scan. `ScoreClause` runs the nested keyword loop and is proved to compute `ClauseScore`/`ClauseMatches`.
- `Aggregator` (`aggregator.dfy`): `analyze_clauses`, modelled as a filtering loop plus a stable sort, where the sort is an insertion sort proved to be a permutation and ranked. It also holds the overall-score arithmetic.
- `Explainer` (`explainer.dfy`): `summarize_matches_to_risks`, modelled as a loop over the matches and an inner loop over the seven categories, with its `seen` set. It also holds `mock_ai_analysis`: the preview, the explanation text, the clarification risk and the suggestion precedence.
- `Pipeline` (`pipeline.dfy`) covers the upload flow around the core:
  - the extraction-error sentinel test;
  - the three outcomes of an upload;
  - the figures of the JSON audit record;
  - two lemmas that carry a property from the scorer through to the explanation.

The source is imperative: loops that append to lists. Each such loop is a Dafny `method` with a loop invariant. Each method is proved equal to a specification function, and the properties are proved about those functions as lemmas.

## Model

| member | source | states |
|---|---|---|
| Segmenter.SimpleClauseSplit | app.py:56-86 | The clauses are exactly `Segment(text)`. Every clause is non-empty and has no leading or trailing whitespace. Blank input gives no clauses. The non-whitespace characters of the clauses, read in order, form a subsequence of the input's non-whitespace characters. |
| Segmenter.NormalizeSpec | app.py:57 | After CR LF and lone CR are replaced, no CR remains, and the non-whitespace characters are unchanged. |
| Segmenter.NumberedAt | app.py:62 | The numbered-heading alternative `\d+\s*[.)]\s+` at one position: a digit run, optional whitespace, `.` or `)`, then whitespace. Its use in the split is stated by LookaheadSplitSpec. |
| Segmenter.LabelAt | app.py:62 | The label alternative `[A-Z][A-Za-z0-9\s]{1,60}:` at one position: a capital, 1 to 60 letters, digits or whitespace, then `:`. Its use in the split is stated by LookaheadSplitSpec. |
| Segmenter.IsCut | app.py:62 | The lookahead `(?=\n\s*(?:…))` at one position: a newline, whitespace, then a numbered or a label heading. LookaheadSplitSpec states that the split cuts exactly at these positions. |
| Segmenter.PartStartsSpec | app.py:62 | The start positions listed for the parts are right: part `k + 1` begins after the characters of parts `0` to `k`. |
| Segmenter.LookaheadSplitSpec | app.py:61-62 | The zero-width split is lossless: the parts concatenate back to the input. It cuts exactly at the lookahead positions: every part after the first begins at a position where `IsCut` holds, which is the newline before a heading, and every position where `IsCut` holds begins a part. |
| Segmenter.CleanLinesSpec | app.py:66 | Joining the stripped non-empty lines keeps every non-whitespace character. The result is trimmed and contains no blank line. |
| Segmenter.ContributionIsCleanLines | app.py:67-70 | The paragraph sub-split never splits a cleaned part, because it contains no blank line; each part contributes itself, or nothing when it is blank. |
| Segmenter.StructuralSpec | app.py:64-70 | The structural clauses hold exactly the non-whitespace characters of the parts, in order. Each clause is non-empty and trimmed. |
| Segmenter.StructuralCoverage | app.py:57-70 | Before the fragment filter, the structural clauses of the normalised, stripped text hold exactly the input's non-whitespace characters, in order. |
| Segmenter.KeepFragmentsSpec | app.py:72-80 | The filter keeps a subsequence of the clauses. A clause survives exactly when it has at least 10 characters or matches `^[A-Z0-9 &]{3,}$`. Every occurrence of a surviving clause is kept: its count in the result equals its count in the input, and a failing clause has count 0. |
| Segmenter.KeepFragmentsCount | app.py:72-80 | The per-clause counts: a clause that passes the filter occurs in the result as often as in the input, and one that fails does not occur. |
| Segmenter.DropShortFragments | app.py:72-80 | The filtering loop computes `KeepFragments`. |
| Segmenter.CollectClauses | app.py:64-70 | The first loop computes `Structural` of the parts. |
| Segmenter.LongSentencesSpec | app.py:83-84 | The list comprehension keeps, in order, exactly the stripped pieces longer than 5 characters: its result is a subsequence of the stripped pieces, and a stripped piece is in it exactly when it is longer than 5 characters. Every occurrence is kept: a stripped piece longer than 5 characters occurs in the result as often as among the stripped pieces, and a shorter one does not occur. The kept sentences are trimmed, and their non-whitespace characters form a subsequence of those of the pieces. |
| Segmenter.LongSentencesCount | app.py:83 | The per-sentence counts: a stripped piece longer than 5 characters occurs in the result as often as among the stripped pieces, and a shorter one does not occur. |
| Segmenter.FallbackSpec | app.py:82-84 | The split `(?<=[.?!])\s+` loses no non-whitespace character of the text. Its pieces are the slices of the text between the break positions (`SlicesAt` over `Breaks(t)`): the first piece starts at 0, each piece ends at the next break, the last at the end of the text, and the next piece starts after the whitespace run at the break. `Breaks(t)` holds every position where `.`, `?` or `!` is followed by whitespace, and no other. Every piece but the last ends with `.`, `?` or `!`, and no piece holds a break. The fallback keeps, in order and with every repetition, exactly the stripped pieces longer than 5 characters. |
| Segmenter.BreaksFromSpec | app.py:83 | The listed break positions from `i` on are exactly the positions at or after `i` where `.`, `?` or `!` is followed by whitespace. |
| Segmenter.SentencesSlices | app.py:83 | The split from `start` is the list of slices of the text cut at the break positions found from `i` on, each next piece starting after the whitespace run. |
| Segmenter.SentencePiecesSlices | app.py:83 | The pieces of `re.split(r'(?<=[.?!])\s+', t)` are the slices of `t` between its breaks, each break ends a piece, and the break list holds every break of `t` and nothing else. |
| Segmenter.SegmentCases | app.py:82-86 | With 3 or more surviving clauses, the result is the filtered structural list: a subsequence that keeps exactly the clauses that pass the filter, each as often as it occurs. Otherwise the result is the sentence fallback of the stripped text, every sentence longer than 5 characters. |
| Segmenter.SegmentBlank | app.py:57-59 | Empty or whitespace-only text gives `[]`. |
| Segmenter.SegmentSpec | app.py:56-86 | Every clause is non-empty and trimmed. Clause text, read in order, never invents or reorders non-whitespace input characters. |
| Scorer.ScoreClause | app.py:105-125 | It returns `ClauseScore`/`ClauseMatches`. The score lies in [0, 100], and it is positive exactly when something matched. |
| Scorer.ScanKeywords | app.py:109-113 | The tier-by-tier scan returns `TableMatches` of the table, and the running score is the sum of the tier weights of those matches. |
| Scorer.ScanTier | app.py:110-113 | The scan of one tier returns the tier's keywords that occur in the text, in table order, and the sum of their weights. |
| Scorer.TierMatchesSpec | app.py:110-113 | Within one tier, the matches follow the keyword order (a subsequence of the entries). An entry is matched exactly when its keyword occurs literally in the text. |
| Scorer.TableMatchesSpec | app.py:109-113 | Over the whole table, matches follow tier order, then keyword order. An entry is matched exactly when its keyword occurs as a literal substring. |
| Scorer.RiskKeywordsDistinct | app.py:89-102 | The table has three tiers, and no tier lists a keyword twice. |
| Scorer.TierMatchesDistinct | app.py:110-113 | A tier with distinct keywords yields distinct matches, each carrying that tier and one of its keywords. |
| Scorer.RiskMatchesDistinct | app.py:109-113 | The match list of the risk table never repeats an entry, so TableMatchesSpec's order and membership facts fix it outright. |
| Scorer.TierEntriesSpec | app.py:89-102 | A tier's entries are exactly its keywords paired with its tier. |
| Scorer.TableEntriesHas | app.py:89-102 | Every keyword of every tier is an entry of the table. |
| Scorer.WeightSumPositive | app.py:103-113 | The summed weights are zero exactly when nothing matched, and at most 40 per match. |
| Scorer.ClauseScore | app.py:124 | The clause score is clamped to [0, 100]. |
| Scorer.ScorePositiveIffMatched | app.py:111-124 | The score is positive exactly when the match list is non-empty. |
| Scorer.UnitAt | app.py:114 | The unit alternation of "day", "days", "month" and "months", each followed by `\b`, at one position and tried in that order. Its contract is stated by UnitAtSpec. |
| Scorer.UnitAtSpec | app.py:114 | A unit is found exactly when one of the four words, followed by a word boundary, matches at the position; the unit found is one that matches. |
| Scorer.NoticeAt | app.py:114 | The notice pattern tried at one position. Its contract is stated by NoticeAtSpec. |
| Scorer.NoticeAtSpec | app.py:114-117 | The pattern matches at a position exactly when a word boundary precedes a run of one or two digits there, and a unit word with a word boundary follows after optional whitespace. The number is the decimal value of the digit run, below 100, and the unit is one that matches. |
| Scorer.FirstNotice | app.py:114 | The scan finds the leftmost position where the notice pattern matches, with its number and unit. When it finds none, the pattern matches nowhere. |
| Scorer.ShortNoticeDays | app.py:114-121 | A short-notice bonus is only ever for at most 15 days. |
| Scorer.FirstHitDecides | app.py:114-121 | Only the leftmost number-and-unit hit counts. It gives the bonus exactly when its unit is day(s) and its number is at most 15. |
| Scorer.ShortNoticeSpec | app.py:114-124 | Without a bonus, the matches are the keyword matches and the score is their clamped weight sum. With a bonus, one medium `short_notice_<n>_days` entry is appended last, and the score is the clamped weight sum plus 10. |
| Scorer.ShortNoticeLabelSpec | app.py:121 | The pseudo-match label is already lower case and begins with `short_notice`. |
| Scorer.ShortNoticePseudoMatch | app.py:119-121 | When the bonus applies, the pseudo-match is in the match list. |
| Scorer.IndemnifMatched | app.py:89-113 | A clause whose lower-cased text contains "indemnif" has the match `high:indemnif`. |
| Scorer.AutoRenewEntryIsLiteral | app.py:111 | The `auto-?renew` entry of the table (line 92) is escaped, so it does not match "auto-renew". |
| Scorer.OnlyFirstHitCounts | app.py:114-121 | In "12 months, 10 days" the first hit is in months, so no bonus is given. |
| Aggregator.AnalyzeClauses | app.py:127-134 | The result is the stable descending sort of the flagged clauses. It is a permutation of them, ranked by score with ties in index order. Every entry carries its clause's own text, score and matches. Clause `i` appears exactly when its score is positive. |
| Aggregator.FlagAllFaithful | app.py:129-132 | Every flagged entry carries its clause's index, its text, and the scorer's score (in (0, 100]) and matches. |
| Aggregator.FlagAllIncreasing | app.py:129-132 | Flagged entries are in increasing index order, each index below the clause count. |
| Aggregator.FlagAllCovers | app.py:131-132 | A clause is flagged exactly when its score is positive. |
| Aggregator.FlaggedCountBound | app.py:127-134 | The flagged count is at most the clause count, and sorting keeps that count. |
| Aggregator.InsertPerm | app.py:133 | Inserting into the ranked list adds exactly that entry. |
| Aggregator.InsertRanked | app.py:133 | Inserting an entry whose index precedes every index in a ranked list keeps the list ranked. |
| Aggregator.SortDescPerm | app.py:133 | The sort is a permutation. |
| Aggregator.SortDescRanked | app.py:133 | Given index-ordered input, the sort is descending by score and stable: equal scores stay in index order. |
| Aggregator.TruncDiv | app.py:345 | `int()` of a quotient truncates toward zero. |
| Aggregator.ScoreSumSort | app.py:344 | Ranking does not change the total of the flagged scores. |
| Aggregator.FlagAllScoreSum | app.py:344 | The flagged total equals the total over all clauses. |
| Aggregator.DocumentScoreSumBounds | app.py:344 | The total over all clauses lies in [0, 100 · clause count]. |
| Aggregator.MeanBound | app.py:345-346 | A truncated mean of scores in [0, 100] stays in [0, 100]. |
| Aggregator.RankedTotal | app.py:340-345 | The total of the ranked flagged list is the document total, and lies in [0, 100 · clause count]. |
| Aggregator.OverallScore | app.py:343-348 | The overall score is 0 when nothing is flagged and never above 100. It is not negative when the flagged total is not negative. |
| Aggregator.OverallSpec | app.py:343-348 | The overall score lies in [0, 100]. It is 0 when nothing is flagged. With at least one clause, it is the truncated quotient of the flagged total by the clause count. |
| Aggregator.OverallAtMostLargest | app.py:343-348 | When anything is flagged, the overall score is at most the largest flagged score. |
| Explainer.SummarizeMatchesToRisks | app.py:140-175 | It returns `RiskSentences(matches)`: 1 to 7 sentences, pairwise distinct. A category's sentence appears exactly when some matched keyword triggers that category. |
| Explainer.RunChecks | app.py:144-172 | One pass of the seven checks appends, in table order, the sentences of newly triggered categories, and records their markers in `seen`. |
| Explainer.CheckCategory | app.py:145-172 | One check: when the keyword triggers the category and its marker is not yet in `seen`, the sentence is appended and the marker recorded. So the reported categories stay the first occurrences of the hits, and `risks` and `seen` stay in step with them. |
| Explainer.RiskSentencesSpec | app.py:140-175 | There are 1 to 7 distinct risks. Each category's sentence appears exactly when it is triggered. The generic fallback appears exactly when no category is triggered, and then it is the only risk. The clarification note is never among them. |
| Explainer.ReportedCategories | app.py:143-172 | The categories reported are distinct and are exactly the triggered ones, so there are at most seven. |
| Explainer.HitsSpec | app.py:143-172 | A category is hit exactly when some lower-cased matched keyword contains one of its trigger words. |
| Explainer.CategoryHitsSpec | app.py:145-171 | One keyword hits exactly the categories whose trigger words it contains. |
| Explainer.EveryCategory | app.py:145-171 | The checks cover all seven categories. |
| Explainer.DedupSpec | app.py:146-148 | The marker test removes repeats: what remains has the same members, with no duplicates, in the original order. |
| Explainer.DedupOrder | app.py:143-172 | Reported categories appear in the order of their first trigger. |
| Explainer.MarkersSpec | app.py:146-172 | A category's marker is in `seen` exactly when the category has already been reported. |
| Explainer.MarkerInjective | app.py:146-172 | The seven marker strings are pairwise distinct. |
| Explainer.SentenceInjective | app.py:145-187 | The seven risk sentences are pairwise distinct, and differ from the generic fallback and the clarification note. |
| Explainer.SentencesDistinct | app.py:146-172 | Distinct categories give distinct sentences. |
| Explainer.SentencesMember | app.py:146-172 | A category's sentence is present exactly when the category was reported. The generic and clarification sentences are never emitted by a check. |
| Explainer.DistinctBound | app.py:143-172 | A repeat-free list of categories has at most as many entries as there are categories. |
| Explainer.LastDot | app.py:180 | It finds the position of the last '.', or `None` when there is none. |
| Explainer.PreviewSpec | app.py:178-182 | The preview has at most 303 characters. It is the stripped clause when that has at most 300. Otherwise it is the prefix before the last '.' among the first 300 characters (or all 300 when they hold none), followed by "...". |
| Explainer.PreviewOf | app.py:178-182 | The preview has at most 303 characters. It is the stripped clause when that has at most 300. Otherwise it is the first 300 characters cut at the last '.' among them (all 300 when there is none), followed by "...". |
| Explainer.CollectRisks | app.py:185-187 | The risks are the summarised risks, then the clarification note exactly when the draw asks for it, 1 to 8 in all. |
| Explainer.ChooseSuggestion | app.py:188-196 | The `if`/`elif` chain gives the indemnity suggestion exactly when a keyword mentions "indemn"; the renewal one exactly when none does and one mentions "renew"; the notice one exactly when a keyword mentions "short_notice" and none mentions the other two; otherwise the default. |
| Explainer.SuggestionSpec | app.py:188-196 | The suggestion follows a precedence. It is the indemnity suggestion exactly when a keyword mentions "indemn". It is the renewal suggestion exactly when none mentions "indemn" and one mentions "renew". It is the notice suggestion exactly when a keyword mentions "short_notice" but none mentions the other two. Otherwise it is the default. |
| Explainer.RenewalIsRenew | app.py:193 | The "auto-renew" test is subsumed by the "renew" test. |
| Explainer.IndemnifMentionsIndemn | app.py:191 | The table keyword "indemnif" (line 91) mentions "indemn". |
| Explainer.MockAiAnalysis | app.py:177-198 | It returns the explanation built on the preview, the summarised risks (plus the clarification note exactly when the random draw asks for it: 1 to 8 risks), the precedence suggestion and `mock = true`. |
| Pipeline.IsExtractionError | app.py:326 | The sentinel test: the text starts with `[` and its lower-cased form contains "error". ExtractionFailureDetected states that every extractor error passes it. |
| Pipeline.ExtractionFailureDetected | app.py:326 | Every extractor error message `[<kind> extraction error] <detail>` (lines 38, 46 and 53) passes the sentinel test. |
| Pipeline.ProcessUpload | app.py:326-348 | An extraction error is reported as is. Otherwise, a blank text gives the "no text" outcome, and any other text is analysed into `DocumentReport(text)`. |
| Pipeline.AnalyzeDocument | app.py:336-348 | The report computed is `DocumentReport(text)`. The flagged count is at most the clause count, and the overall score is in [0, 100]. The flagged list is ranked, with faithful entries. |
| Pipeline.DocumentReportSpec | app.py:418-424 | The audit figures hang together. The flagged count is the list's length, at most the clause count. The overall score is in [0, 100] and is 0 when nothing is flagged. It is at most the top flagged score. With at least one clause, it is the truncated mean score over all clauses. |
| Pipeline.TopScore | app.py:133 | The first ranked entry has the largest score. |
| Pipeline.IndemnityClauseSuggestion | app.py:189-192 | Any clause mentioning "indemnif" gets the indemnity suggestion. |
| Pipeline.ShortNoticeReported | app.py:157-160 | A short-notice bonus always surfaces as the short-notice risk sentence. |

## Left out

- Text extraction from PDF, DOCX and plain text (app.py:28-53) calls libraries and does file I/O. Only the error-message format of the extractors is kept, in `ExtractionFailure`.
- The PDF report builder (app.py:206-297) is layout and rendering.
- The Streamlit page (app.py:17-25, 300-441) is user interface. From it the model keeps:
  - the upload branches (326-331);
  - the calls at 336 and 340;
  - the overall score (343-348);
  - the audit figures (421-424).
  It does not model the loop over the top flagged clauses, the JSON dump or the PDF download.
- `analyze_with_ai` (app.py:200-203) reads the environment settings at 137-138 and wraps the result of `mock_ai_analysis`. Its real-AI branch is a stub that returns an error record. It is a thin dispatcher over environment settings, so it is not modelled.
- The timestamp and file name of the audit record (app.py:419-420) come from the clock and the upload.
- `random.random() < 0.15` (app.py:186) is a boolean parameter `clarify` of `MockAiAnalysis`.
- The unused parameters `clause_index` and `filename` of `mock_ai_analysis` are not modelled.
- `matched=None` is modelled as the empty match list; `matched or []` and `if matched:` treat the two alike.
- The seven consecutive `if` blocks of `summarize_matches_to_risks` are written as a loop over a category table in source order. The strings and the order of the checks are unchanged.
- Aggregator.OverallScore: the float expression `int((S / F) * (F / N))` is modelled as the exact quotient `S / N`, truncated. Floating-point rounding could make the product fall just below a whole number and truncate one lower; that is not modelled.
- `str.lower`, `str.strip`, `str.splitlines`, `\s`, `\d` and `\b` are modelled for ASCII only.
  - Upper-case letters are A-Z.
  - Whitespace is space, tab, LF, VT, FF, CR and the separators U+001C to U+001F.
  - Line breaks are LF, VT, FF, CR and U+001C to U+001E; U+0085, U+2028 and U+2029 are not included.
  - Digits are 0-9; word characters are ASCII letters, digits and `_`.
- Segmenter.SegmentSpec and SimpleClauseSplit state coverage as a subsequence of the input's non-whitespace characters, not as equality. The fragment filter and the fallback drop clauses, so equality holds only before the filter (StructuralCoverage).
- The `try`/`except` at app.py:116-123 is not modelled: `int()` of one or two ASCII digits cannot fail.

## Behaviour worth knowing

- **Overall score.** The overall score is truncated toward zero by `int()` (app.py:345), not rounded (TruncDiv, OverallSpec).
- **Risk dedup.** Each check tests and adds the same marker string (app.py:146-148 and the six blocks after it). So each category's sentence is emitted at most once, in first-trigger order (SummarizeMatchesToRisks, DedupSpec, DedupOrder).
- **Keyword patterns.** Every keyword is passed through `re.escape` (app.py:111), so the table entry `auto-?renew` only matches that literal text (AutoRenewEntryIsLiteral).
- **Preview length.** The "..." is appended after the cut to 300 characters (app.py:180), so the preview can have 303 characters (PreviewSpec).
- **Termination category.** The termination check looks for "terminate" and "short_notice" (app.py:157). "termination" does not contain "terminate", so the `termination` keyword on its own does not report that category.
- **A worked example.** Take the text "1. Indemnification. Party A shall indemnify Party B against all claims.\n\n2. Term. This Agreement shall automatically renew every 12 months unless either party gives 10 days notice." The code derives the following:
  - The structural split (app.py:61-70) gives two clauses, fewer than three, so the sentence fallback applies (app.py:82-84).
  - The fallback keeps "Indemnification." (40), "Party A shall indemnify Party B against all claims." (40) and the renewal sentence. "1.", "2." and "Term." have at most 5 characters and are dropped.
  - The renewal sentence scores 15. It matches only "notice": "automatically renew" contains neither "automatic renewal" nor the literal "auto-?renew". Its first number-and-unit hit is "12 months", so there is no bonus (app.py:114-121).
  - The overall score is therefore the truncation of 95 / 3, which is 31 (app.py:343-347).

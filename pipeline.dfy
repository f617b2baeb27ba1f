/** The upload flow around the core (app.py:326-348, 417-424): the
    extraction-error test, the analysis of the extracted text and the figures
    of the downloadable JSON report. */
module Pipeline {
  import opened Text
  import opened Segmenter
  import opened Scorer
  import opened Aggregator
  import opened Explainer

  // ---------------------------------------------------------------------------
  // Extraction failures (app.py:37-38, 45-46, 52-53, 326)
  // ---------------------------------------------------------------------------

  /** The sentinel test of app.py:326: the text starts with '[' and, lower-cased,
      mentions "error". */
  predicate IsExtractionError(s: string)
  {
    |s| > 0 && s[0] == '[' && Contains(Lower(s), "error")
  }

  /** The message an extractor returns when it fails: `f"[{kind} extraction error] {e}"`. */
  function ExtractionFailure(kind: string, detail: string): string
  {
    "[" + kind + " extraction error] " + detail
  }

  /** Every extractor failure message is recognised as one. */
  lemma ExtractionFailureDetected(kind: string, detail: string)
    ensures IsExtractionError(ExtractionFailure(kind, detail))
  {
    var s := ExtractionFailure(kind, detail);
    var p := |kind| + 13;
    assert s[p..p + 5] == "error";
    assert Lower(s)[p..p + 5] == "error" by {
      forall k | 0 <= k < 5
        ensures Lower(s)[p + k] == "error"[k]
      {
        assert s[p + k] == "error"[k];
      }
    }
    ContainsAt(Lower(s), "error", p);
  }

  // ---------------------------------------------------------------------------
  // The report (app.py:334-348, 417-424)
  // ---------------------------------------------------------------------------

  /** The figures of the JSON report: clause count, flagged count, overall
      score and the ranked flagged list. */
  datatype RiskReport = RiskReport(numClauses: nat, flaggedCount: nat, overallScore: int, flagged: seq<FlaggedClause>)

  /** The report for an extracted text. */
  function DocumentReport(text: string): RiskReport
  {
    var clauses := Segment(text);
    var flagged := SortDesc(FlagAll(clauses));
    RiskReport(|clauses|, |flagged|, OverallScore(flagged, |clauses|), flagged)
  }

  /** The figures hang together: no more flagged clauses than clauses, an
      overall score in [0, 100] that is 0 when nothing is flagged, never above
      the top flagged score, and otherwise the document's mean clause score,
      truncated. */
  lemma DocumentReportSpec(text: string)
    ensures var r := DocumentReport(text);
      r.flaggedCount == |r.flagged| <= r.numClauses
      && 0 <= r.overallScore <= 100
      && (r.flaggedCount == 0 ==> r.overallScore == 0)
      && (r.flaggedCount > 0 ==> r.overallScore <= r.flagged[0].score)
      && (r.numClauses > 0 ==> r.overallScore == TruncDiv(DocumentScoreSum(Segment(text)), r.numClauses))
  {
    var clauses := Segment(text);
    var fs := SortDesc(FlagAll(clauses));
    FlaggedCountBound(clauses);
    RankedTotal(clauses);
    assert ScoreSum(fs) == DocumentScoreSum(clauses);
    OverallSpec(fs, |clauses|);
    if fs != [] {
      TopScore(clauses);
      OverallAtMostLargest(fs, |clauses|, fs[0].score);
    }
  }

  /** The first ranked entry has the largest score. */
  lemma TopScore(clauses: seq<string>)
    requires SortDesc(FlagAll(clauses)) != []
    ensures var fs := SortDesc(FlagAll(clauses));
      forall f :: f in fs ==> f.score <= fs[0].score
  {
    var fs := SortDesc(FlagAll(clauses));
    FlagAllIncreasing(clauses);
    SortDescRanked(FlagAll(clauses));
    forall f | f in fs
      ensures f.score <= fs[0].score
    {
      var j :| 0 <= j < |fs| && fs[j] == f;
      if j > 0 {
        assert Before(fs[0], fs[j]);
      }
    }
  }

  /** Splits the text, flags and ranks its clauses and computes the overall
      score (app.py:334-348). */
  method AnalyzeDocument(text: string) returns (report: RiskReport)
    ensures report == DocumentReport(text)
    ensures report.flaggedCount <= report.numClauses
    ensures 0 <= report.overallScore <= 100
    ensures Ranked(report.flagged)
    ensures forall f :: f in report.flagged ==> FaithfulEntry(Segment(text), f)
  {
    var clauses := SimpleClauseSplit(text);
    var flagged := AnalyzeClauses(clauses);
    var overall := 0;
    if flagged != [] {
      overall := OverallScore(flagged, |clauses|);
    }
    report := RiskReport(|clauses|, |flagged|, overall, flagged);
    DocumentReportSpec(text);
  }

  /** What the upload page does with an extracted text. */
  datatype Outcome = ExtractionFailed(message: string) | NoText | Analyzed(report: RiskReport)

  /** The three branches of app.py:326-331: an extraction failure is shown as
      an error, a blank text as a warning, anything else is analysed. */
  method ProcessUpload(fullText: string) returns (outcome: Outcome)
    ensures IsExtractionError(fullText) ==> outcome == ExtractionFailed(fullText)
    ensures !IsExtractionError(fullText) && AllSpace(fullText) ==> outcome == NoText
    ensures !IsExtractionError(fullText) && !AllSpace(fullText) ==> outcome == Analyzed(DocumentReport(fullText))
  {
    StripSpec(fullText);
    if |fullText| > 0 && fullText[0] == '[' && Contains(Lower(fullText), "error") {
      outcome := ExtractionFailed(fullText);
    } else if fullText == [] || |Strip(fullText)| == 0 {
      outcome := NoText;
    } else {
      var report := AnalyzeDocument(fullText);
      outcome := Analyzed(report);
    }
  }

  // ---------------------------------------------------------------------------
  // From the scorer to the explanation
  // ---------------------------------------------------------------------------

  /** A clause whose text mentions "indemnif" gets the indemnity suggestion,
      whatever else it matches. */
  lemma IndemnityClauseSuggestion(text: string)
    requires Contains(Lower(text), "indemnif")
    ensures Suggestion(ClauseMatches(text)) == IndemnitySuggestion
  {
    var ms := ClauseMatches(text);
    IndemnifMatched(text);
    var i :| 0 <= i < |ms| && ms[i] == Match(High, "indemnif");
    IndemnifMentionsIndemn();
    assert Contains(ms[i].keyword, "indemn");
    assert AnyKeyword(ms, "indemn");
  }

  /** A short-notice bonus always surfaces as the short-notice risk sentence. */
  lemma ShortNoticeReported(text: string)
    requires ShortNoticeDays(Lower(text)).Some?
    ensures Sentence(ShortNotice) in RiskSentences(ClauseMatches(text))
  {
    var ms := ClauseMatches(text);
    var n := ShortNoticeDays(Lower(text)).value;
    var last := ShortNoticePseudoMatch(text);
    ShortNoticeLabelSpec(n);
    ContainsAt(ShortNoticeLabel(n), "short_notice", 0);
    assert Triggers(Lower(ms[last].keyword), ShortNotice);
    assert Reported(ms, ShortNotice);
    RiskSentencesSpec(ms);
  }
}

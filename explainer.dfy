/** The mock explanation step (app.py:140-198): a clause's match list turned
    into plain-language risk sentences, a short preview of the clause and one
    suggested change. */
module Explainer {
  import opened Text
  import opened Scorer

  // ---------------------------------------------------------------------------
  // Risk categories (app.py:145-172)
  // ---------------------------------------------------------------------------

  /** The seven checks of `summarize_matches_to_risks`, in the order they run. */
  datatype Category = Indemnity | Liability | AutoRenewal | ShortNotice | Confidentiality | Jurisdiction | Payment

  const AllCategories: seq<Category> :=
    [Indemnity, Liability, AutoRenewal, ShortNotice, Confidentiality, Jurisdiction, Payment]

  /** Whether the lower-cased keyword `k` triggers category `c`. */
  predicate Triggers(k: string, c: Category)
  {
    match c
    case Indemnity => Contains(k, "indemnif") || Contains(k, "indemnity")
    case Liability => Contains(k, "liabilit") || Contains(k, "liability")
    case AutoRenewal => Contains(k, "auto-renew") || Contains(k, "automatic renewal") || Contains(k, "auto-?renew")
    case ShortNotice => Contains(k, "terminate") || Contains(k, "short_notice")
    case Confidentiality => Contains(k, "confidential") || Contains(k, "confidentiality")
    case Jurisdiction => Contains(k, "governing law") || Contains(k, "jurisdiction")
    case Payment => Contains(k, "payment") || Contains(k, "invoice")
  }

  // The strings of app.py:145-172: the marker each check records in `seen`
  // and the sentence it appends.
  const IndemnityMarker := "Indemnity may expose you to large financial liability."
  const IndemnitySentence := "Indemnity language may require you to pay the other party's losses."
  const LiabilityMarker := "Unlimited liability could be financially risky."
  const LiabilitySentence := "Liability terms may expose you to large or unlimited damages."
  const AutoRenewalMarker := "Auto-renew can lock you into long commitments without notice."
  const AutoRenewalSentence := "Automatic renewal may lock you into longer commitments; you may miss opt-out windows."
  const ShortNoticeMarker := "Short termination notice reduces your time to respond."
  const ShortNoticeSentence := "Short termination or notice periods limit your ability to respond/exit cleanly."
  const ConfidentialityMarker := "Broad confidentiality might limit your normal business operations."
  const ConfidentialitySentence := "Very broad confidentiality clauses may restrict necessary business communications."
  const JurisdictionMarker := "Non-India jurisdiction increases costs if disputes arise."
  const JurisdictionSentence := "Governing law or foreign jurisdiction may increase legal cost and complexity in India."
  const PaymentMarker := "Unclear payment terms could delay revenue."
  const PaymentSentence := "Unclear payment or invoice terms could delay payments."

  /** The string each check records in `seen` once its sentence is added. */
  function Marker(c: Category): string
  {
    match c
    case Indemnity => IndemnityMarker
    case Liability => LiabilityMarker
    case AutoRenewal => AutoRenewalMarker
    case ShortNotice => ShortNoticeMarker
    case Confidentiality => ConfidentialityMarker
    case Jurisdiction => JurisdictionMarker
    case Payment => PaymentMarker
  }

  /** The risk sentence each check appends. */
  function Sentence(c: Category): string
  {
    match c
    case Indemnity => IndemnitySentence
    case Liability => LiabilitySentence
    case AutoRenewal => AutoRenewalSentence
    case ShortNotice => ShortNoticeSentence
    case Confidentiality => ConfidentialitySentence
    case Jurisdiction => JurisdictionSentence
    case Payment => PaymentSentence
  }

  /** The sentence used when no check fires (app.py:173-174). */
  const StandardRisk := "This clause may carry standard contractual risk; consult a lawyer for certainty."

  /** The sentence the random draw may add (app.py:186-187). */
  const ClarificationRisk := "May require additional clarification around timelines and responsibilities."

  /** The length of each marker and its last character but one: no two
      markers agree on both. */
  function MarkerKey(c: Category): (nat, char)
  {
    match c
    case Indemnity => (54, 'y')
    case Liability => (47, 'y')
    case AutoRenewal => (61, 'e')
    case ShortNotice => (54, 'd')
    case Confidentiality => (66, 's')
    case Jurisdiction => (57, 'e')
    case Payment => (42, 'e')
  }

  lemma MarkerKeySpec(c: Category)
    ensures |Marker(c)| >= 2 && (|Marker(c)|, Marker(c)[|Marker(c)| - 2]) == MarkerKey(c)
  {
    match c
    case Indemnity =>
    case Liability =>
    case AutoRenewal =>
    case ShortNotice =>
    case Confidentiality =>
    case Jurisdiction =>
    case Payment =>
  }

  /** The marker strings are pairwise distinct, so `seen` records exactly
      which categories have been reported. */
  lemma MarkerInjective(c: Category, d: Category)
    ensures Marker(c) == Marker(d) ==> c == d
  {
    MarkerKeySpec(c);
    MarkerKeySpec(d);
  }

  /** The sentence lengths, pairwise distinct. */
  function SentenceLength(c: Category): nat
  {
    match c
    case Indemnity => 67
    case Liability => 61
    case AutoRenewal => 85
    case ShortNotice => 79
    case Confidentiality => 82
    case Jurisdiction => 86
    case Payment => 54
  }

  lemma SentenceLengthSpec(c: Category)
    ensures |Sentence(c)| == SentenceLength(c)
  {
    match c
    case Indemnity =>
    case Liability =>
    case AutoRenewal =>
    case ShortNotice =>
    case Confidentiality =>
    case Jurisdiction =>
    case Payment =>
  }

  /** The seven risk sentences are pairwise distinct and differ from the
      standard and the clarification sentences. */
  lemma SentenceInjective(c: Category, d: Category)
    ensures Sentence(c) == Sentence(d) ==> c == d
    ensures Sentence(c) != StandardRisk && Sentence(c) != ClarificationRisk
  {
    SentenceLengthSpec(c);
    SentenceLengthSpec(d);
    assert |StandardRisk| == 80 && |ClarificationRisk| == 75;
  }

  // ---------------------------------------------------------------------------
  // The specification of `summarize_matches_to_risks`
  // ---------------------------------------------------------------------------

  /** The categories of `cs` that `k` triggers, in order. */
  function CategoryHits(k: string, cs: seq<Category>): seq<Category>
  {
    if cs == [] then []
    else CategoryHits(k, cs[..|cs| - 1]) + (if Triggers(k, cs[|cs| - 1]) then [cs[|cs| - 1]] else [])
  }

  /** Every category hit, match by match and check by check, repeats included. */
  function Hits(ms: seq<Match>): seq<Category>
  {
    if ms == [] then []
    else Hits(ms[..|ms| - 1]) + CategoryHits(Lower(ms[|ms| - 1].keyword), AllCategories)
  }

  /** Keeps the first occurrence of every element. */
  function Dedup<T(==)>(xs: seq<T>): seq<T>
  {
    if xs == [] then []
    else
      var d := Dedup(xs[..|xs| - 1]);
      if xs[|xs| - 1] in d then d else d + [xs[|xs| - 1]]
  }

  /** The sentences of the categories `cs`, in order. */
  function Sentences(cs: seq<Category>): seq<string>
  {
    MapSeq(Sentence, cs)
  }

  /** The markers of `cs`: the `seen` set after reporting them. */
  function Markers(cs: seq<Category>): set<string>
  {
    if cs == [] then {} else Markers(cs[..|cs| - 1]) + {Marker(cs[|cs| - 1])}
  }

  /** What `summarize_matches_to_risks(ms)` returns. */
  function RiskSentences(ms: seq<Match>): seq<string>
  {
    var s := Sentences(Dedup(Hits(ms)));
    if s == [] then [StandardRisk] else s
  }

  /** Some match's lower-cased keyword triggers category `c`. */
  predicate Reported(ms: seq<Match>, c: Category)
  {
    exists i :: 0 <= i < |ms| && Triggers(Lower(ms[i].keyword), c)
  }

  lemma {:induction false} CategoryHitsSpec(k: string, cs: seq<Category>, c: Category)
    ensures c in CategoryHits(k, cs) <==> c in cs && Triggers(k, c)
    decreases |cs|
  {
    if cs != [] {
      CategoryHitsSpec(k, cs[..|cs| - 1], c);
      assert cs == cs[..|cs| - 1] + [cs[|cs| - 1]];
    }
  }

  lemma EveryCategory(c: Category)
    ensures c in AllCategories
  {
    match c
    case Indemnity => assert AllCategories[0] == c;
    case Liability => assert AllCategories[1] == c;
    case AutoRenewal => assert AllCategories[2] == c;
    case ShortNotice => assert AllCategories[3] == c;
    case Confidentiality => assert AllCategories[4] == c;
    case Jurisdiction => assert AllCategories[5] == c;
    case Payment => assert AllCategories[6] == c;
  }

  /** Some element of a non-empty list satisfies `p` exactly when one of all
      but the last does, or the last does. */
  lemma ExistsSnoc<T>(xs: seq<T>, prefix: seq<T>, p: T -> bool)
    requires xs != [] && prefix == xs[..|xs| - 1]
    ensures (exists i :: 0 <= i < |xs| && p(xs[i])) <==>
      (exists i :: 0 <= i < |prefix| && p(prefix[i])) || p(xs[|xs| - 1])
  {
    var n := |xs| - 1;
    if exists i :: 0 <= i < |xs| && p(xs[i]) {
      var i :| 0 <= i < |xs| && p(xs[i]);
      if i < n {
        assert prefix[i] == xs[i];
      }
    }
    if exists i :: 0 <= i < n && p(prefix[i]) {
      var i :| 0 <= i < n && p(prefix[i]);
      assert prefix[i] == xs[i];
    }
  }

  /** A category is reported by a list exactly when it is reported by all but
      the last match, or triggered by the last. */
  lemma ReportedSnoc(ms: seq<Match>, c: Category)
    requires ms != []
    ensures Reported(ms, c) <==>
      Reported(ms[..|ms| - 1], c) || Triggers(Lower(ms[|ms| - 1].keyword), c)
  {
    ExistsSnoc(ms, ms[..|ms| - 1], (m: Match) => Triggers(Lower(m.keyword), c));
  }

  lemma {:induction false} HitsSpec(ms: seq<Match>, c: Category)
    ensures c in Hits(ms) <==> Reported(ms, c)
    decreases |ms|
  {
    if ms != [] {
      var n := |ms| - 1;
      HitsSpec(ms[..n], c);
      CategoryHitsSpec(Lower(ms[n].keyword), AllCategories, c);
      EveryCategory(c);
      ReportedSnoc(ms, c);
    }
  }

  /** The position of the first occurrence of `x` in `xs`. */
  function FirstIndex<T(==)>(xs: seq<T>, x: T): (k: nat)
    requires x in xs
    ensures k < |xs| && xs[k] == x && x !in xs[..k]
  {
    var n := |xs| - 1;
    if x in xs[..n] then
      var k := FirstIndex(xs[..n], x);
      assert xs[..n][..k] == xs[..k];
      k
    else n
  }

  /** Dedup lists the elements in the order of their first occurrence. */
  lemma {:induction false} DedupOrder<T>(xs: seq<T>)
    ensures forall i, j :: 0 <= i < j < |Dedup(xs)| ==>
      Dedup(xs)[i] in xs && Dedup(xs)[j] in xs && FirstIndex(xs, Dedup(xs)[i]) < FirstIndex(xs, Dedup(xs)[j])
    decreases |xs|
  {
    if xs != [] {
      var xs', x := xs[..|xs| - 1], xs[|xs| - 1];
      DedupOrder(xs');
      DedupSpec(xs');
      var d, d' := Dedup(xs), Dedup(xs');
      forall i, j | 0 <= i < j < |d|
        ensures d[i] in xs && d[j] in xs && FirstIndex(xs, d[i]) < FirstIndex(xs, d[j])
      {
        assert d[i] in d' by {
          if x !in d' { assert d[i] == d'[i]; }
        }
        assert d[i] in xs' && FirstIndex(xs, d[i]) == FirstIndex(xs', d[i]);
        if j < |d'| {
          assert d[i] == d'[i] && d[j] == d'[j];
          assert FirstIndex(xs, d[j]) == FirstIndex(xs', d[j]);
        } else {
          assert d[j] == x && x !in xs';
        }
      }
    } else {
      assert Dedup(xs) == [];
    }
  }

  /** Dedup keeps the elements, each once, in an order drawn from `xs`. */
  lemma {:induction false} DedupSpec<T>(xs: seq<T>)
    ensures forall x :: x in Dedup(xs) <==> x in xs
    ensures Distinct(Dedup(xs))
    ensures IsSubseq(Dedup(xs), xs)
    decreases |xs|
  {
    if xs != [] {
      var xs', x := xs[..|xs| - 1], xs[|xs| - 1];
      DedupSpec(xs');
      assert xs == xs' + [x];
      if x in Dedup(xs') {
        SubseqExtendRight(Dedup(xs'), xs', [x]);
      } else {
        SubseqRefl([x]);
        SubseqAppend(Dedup(xs'), xs', [x], [x]);
      }
    }
  }

  lemma {:induction false} MarkersSpec(cs: seq<Category>, c: Category)
    ensures Marker(c) in Markers(cs) <==> c in cs
    decreases |cs|
  {
    if cs != [] {
      MarkersSpec(cs[..|cs| - 1], c);
      MarkerInjective(c, cs[|cs| - 1]);
      assert cs == cs[..|cs| - 1] + [cs[|cs| - 1]];
    }
  }

  /** A duplicate-free list of categories has at most seven entries. */
  lemma {:induction false} DistinctBound(cs: seq<Category>, pool: set<Category>)
    requires Distinct(cs) && forall c :: c in cs ==> c in pool
    ensures |cs| <= |pool|
    decreases |cs|
  {
    if cs != [] {
      var last := cs[|cs| - 1];
      var rest := cs[..|cs| - 1];
      forall c | c in rest
        ensures c in pool - {last}
      {
        var i :| 0 <= i < |rest| && rest[i] == c;
        assert cs[i] == c;
      }
      DistinctBound(rest, pool - {last});
    }
  }

  /** The reported categories, each once. */
  lemma ReportedCategories(ms: seq<Match>)
    ensures Distinct(Dedup(Hits(ms)))
    ensures forall c :: c in Dedup(Hits(ms)) <==> Reported(ms, c)
    ensures |Dedup(Hits(ms))| <= 7
  {
    var cats := Dedup(Hits(ms));
    assert Distinct(cats) && forall c :: c in cats <==> c in Hits(ms) by {
      DedupSpec(Hits(ms));
    }
    assert forall c :: c in cats <==> Reported(ms, c) by {
      forall c
        ensures c in Hits(ms) <==> Reported(ms, c)
      {
        HitsSpec(ms, c);
      }
    }
    var all := {Indemnity, Liability, AutoRenewal, ShortNotice, Confidentiality, Jurisdiction, Payment};
    assert |cats| <= 7 by {
      forall c | c in cats
        ensures c in all
      {
        match c
        case Indemnity =>
        case Liability =>
        case AutoRenewal =>
        case ShortNotice =>
        case Confidentiality =>
        case Jurisdiction =>
        case Payment =>
      }
      DistinctBound(cats, all);
    }
  }

  lemma SentencesDistinct(cs: seq<Category>)
    requires Distinct(cs)
    ensures Distinct(Sentences(cs))
  {
    var s := Sentences(cs);
    MapSeqSpec(Sentence, cs);
    forall i, j | 0 <= i < j < |s|
      ensures s[i] != s[j]
    {
      SentenceInjective(cs[i], cs[j]);
    }
  }

  lemma SentencesMember(cs: seq<Category>, c: Category)
    ensures Sentence(c) in Sentences(cs) <==> c in cs
    ensures StandardRisk !in Sentences(cs) && ClarificationRisk !in Sentences(cs)
  {
    var s := Sentences(cs);
    MapSeqSpec(Sentence, cs);
    if Sentence(c) in s {
      var i :| 0 <= i < |s| && s[i] == Sentence(c);
      SentenceInjective(c, cs[i]);
    }
    if c in cs {
      var i :| 0 <= i < |cs| && cs[i] == c;
      assert s[i] == Sentence(c);
    }
    forall x | x in s
      ensures x != StandardRisk && x != ClarificationRisk
    {
      var i :| 0 <= i < |s| && s[i] == x;
      SentenceInjective(cs[i], cs[i]);
    }
  }

  /** What the risk list says: every triggered category's sentence, once
      each, and nothing else; the standard sentence alone when nothing fires.
      So it is never empty and holds at most seven sentences. */
  lemma RiskSentencesSpec(ms: seq<Match>)
    ensures 1 <= |RiskSentences(ms)| <= 7
    ensures Distinct(RiskSentences(ms))
    ensures forall c :: Sentence(c) in RiskSentences(ms) <==> Reported(ms, c)
    ensures StandardRisk in RiskSentences(ms) <==> forall c :: !Reported(ms, c)
    ensures (forall c :: !Reported(ms, c)) ==> RiskSentences(ms) == [StandardRisk]
    ensures ClarificationRisk !in RiskSentences(ms)
  {
    var cats := Dedup(Hits(ms));
    ReportedCategories(ms);
    MapSeqSpec(Sentence, cats);
    SentencesDistinct(cats);
    forall c
      ensures Sentence(c) in Sentences(cats) <==> c in cats
    {
      SentencesMember(cats, c);
    }
    SentencesMember(cats, Indemnity);
    assert |StandardRisk| != |ClarificationRisk|;
    if cats == [] {
      forall c
        ensures Sentence(c) != StandardRisk
      {
        SentenceInjective(c, c);
      }
    } else {
      assert cats[0] in cats;
    }
  }

  // ---------------------------------------------------------------------------
  // `summarize_matches_to_risks` (app.py:140-175)
  // ---------------------------------------------------------------------------

  /** `summarize_matches_to_risks`: for each match in order, the seven checks
      in order; a check that fires and whose marker is not yet in `seen`
      appends its sentence and records the marker. */
  method SummarizeMatchesToRisks(matches: seq<Match>) returns (risks: seq<string>)
    ensures risks == RiskSentences(matches)
    ensures 1 <= |risks| <= 7 && Distinct(risks)
    ensures forall c :: Sentence(c) in risks <==> Reported(matches, c)
  {
    risks := [];
    var seen: set<string> := {};
    ghost var cats: seq<Category> := [];
    for i := 0 to |matches|
      invariant cats == Dedup(Hits(matches[..i]))
      invariant risks == Sentences(cats)
      invariant seen == Markers(cats)
    {
      assert matches[..i + 1][..i] == matches[..i];
      risks, seen, cats := RunChecks(Lower(matches[i].keyword), Hits(matches[..i]), risks, seen, cats);
    }
    assert matches[..|matches|] == matches;
    if risks == [] {
      risks := [StandardRisk];
    }
    RiskSentencesSpec(matches);
  }

  lemma DedupStep<T>(xs: seq<T>, x: T)
    ensures Dedup(xs + [x]) == if x in Dedup(xs) then Dedup(xs) else Dedup(xs) + [x]
  {
    assert (xs + [x])[..|xs|] == xs;
  }

  lemma SentencesSnoc(cs: seq<Category>, c: Category)
    ensures Sentences(cs + [c]) == Sentences(cs) + [Sentence(c)]
  {
    assert (cs + [c])[..|cs|] == cs;
  }

  lemma MarkersSnoc(cs: seq<Category>, c: Category)
    ensures Markers(cs + [c]) == Markers(cs) + {Marker(c)}
  {
    assert (cs + [c])[..|cs|] == cs;
  }

  /** One of the checks of app.py:145-172: when the keyword hits category `c`
      and its marker is not yet in `seen`, the sentence is appended and the
      marker recorded. */
  method CheckCategory(c: Category, hit: bool, ghost hits: seq<Category>, risks0: seq<string>, seen0: set<string>, ghost cats0: seq<Category>)
    returns (risks: seq<string>, seen: set<string>, ghost cats: seq<Category>)
    requires cats0 == Dedup(hits) && risks0 == Sentences(cats0) && seen0 == Markers(cats0)
    ensures cats == Dedup(hits + (if hit then [c] else []))
    ensures risks == Sentences(cats) && seen == Markers(cats)
  {
    risks, seen, cats := risks0, seen0, cats0;
    if hit {
      DedupStep(hits, c);
      MarkersSpec(cats, c);
      if Marker(c) !in seen {
        SentencesSnoc(cats, c);
        MarkersSnoc(cats, c);
        risks := risks + [Sentence(c)];
        seen := seen + {Marker(c)};
        cats := cats + [c];
      }
    } else {
      assert hits + [] == hits;
    }
  }

  lemma CategoryHitsStep(k: string, cs: seq<Category>, j: nat, before: seq<Category>)
    requires j < |cs|
    ensures before + CategoryHits(k, cs[..j + 1])
      == (before + CategoryHits(k, cs[..j])) + (if Triggers(k, cs[j]) then [cs[j]] else [])
  {
    assert cs[..j + 1][..j] == cs[..j];
  }

  /** The seven checks of app.py:145-172 for one lower-cased keyword `k`,
      after the categories `cats0` (the first occurrences in `before`) have
      been reported. */
  method RunChecks(k: string, ghost before: seq<Category>, risks0: seq<string>, seen0: set<string>, ghost cats0: seq<Category>)
    returns (risks: seq<string>, seen: set<string>, ghost cats: seq<Category>)
    requires cats0 == Dedup(before) && risks0 == Sentences(cats0) && seen0 == Markers(cats0)
    ensures cats == Dedup(before + CategoryHits(k, AllCategories))
    ensures risks == Sentences(cats) && seen == Markers(cats)
  {
    risks, seen, cats := risks0, seen0, cats0;
    assert AllCategories[..0] == [] && before + [] == before;
    for j := 0 to |AllCategories|
      invariant cats == Dedup(before + CategoryHits(k, AllCategories[..j]))
      invariant risks == Sentences(cats)
      invariant seen == Markers(cats)
    {
      var c := AllCategories[j];
      var hit := Triggers(k, c);
      CategoryHitsStep(k, AllCategories, j, before);
      risks, seen, cats := CheckCategory(c, hit, before + CategoryHits(k, AllCategories[..j]), risks, seen, cats);
    }
    assert AllCategories[..|AllCategories|] == AllCategories;
  }

  // ---------------------------------------------------------------------------
  // The preview (app.py:178-182)
  // ---------------------------------------------------------------------------

  /** The position of the last '.' in `s`, if any. */
  function LastDot(s: string): (r: Option<nat>)
    ensures r.Some? ==> r.value < |s| && s[r.value] == '.' && forall k :: r.value < k < |s| ==> s[k] != '.'
    ensures r.None? ==> forall k :: 0 <= k < |s| ==> s[k] != '.'
  {
    if s == [] then None
    else if s[|s| - 1] == '.' then Some(|s| - 1)
    else LastDot(s[..|s| - 1])
  }

  /** `s.rsplit(".", 1)[0]`: the part before the last '.', or all of `s`. */
  function BeforeLastDot(s: string): string
  {
    match LastDot(s)
    case None => s
    case Some(p) => s[..p]
  }

  /** `short_preview`: the stripped clause, or when longer than 300
      characters its first 300 cut back to the last full stop, plus "...". */
  function Preview(text: string): string
  {
    var short := Strip(text);
    if |short| > 300 then BeforeLastDot(short[..300]) + "..." else short
  }

  /** The preview is the stripped clause itself when that is at most 300
      characters long; otherwise a prefix of it of at most 300 characters
      followed by "...", the prefix ending just before the last '.' among the
      first 300 characters, or all 300 of them when they hold no '.'. */
  lemma PreviewSpec(text: string)
    ensures |Preview(text)| <= 303
    ensures |Strip(text)| <= 300 ==> Preview(text) == Strip(text)
    ensures |Strip(text)| > 300 ==>
      exists p :: 0 <= p <= 300 && Preview(text) == Strip(text)[..p] + "..."
        && (if p == 300 then forall k :: 0 <= k < 300 ==> Strip(text)[k] != '.'
            else Strip(text)[p] == '.' && forall k :: p < k < 300 ==> Strip(text)[k] != '.')
  {
    var short := Strip(text);
    if |short| > 300 {
      var head := short[..300];
      match LastDot(head)
      case None =>
        assert head[..300] == head;
        assert Preview(text) == short[..300] + "...";
      case Some(p) =>
        assert head[..p] == short[..p];
        assert Preview(text) == short[..p] + "...";
        assert forall k :: p < k < 300 ==> head[k] == short[k];
    }
  }

  /** The explanation sentence around the preview (app.py:184). */
  const ExplanationLead := "This clause says: "
  const ExplanationTail := ". In simple terms, it describes the contract's position regarding the stated subject."

  function ExplanationText(preview: string): string
  {
    ExplanationLead + preview + ExplanationTail
  }

  // ---------------------------------------------------------------------------
  // The suggestion (app.py:188-196)
  // ---------------------------------------------------------------------------

  const DefaultSuggestion := "Consider limiting obligations, capping liability to direct damages only, adding a clear notice period of at least 30 days, and including a mutual indemnity (if appropriate)."
  const IndemnitySuggestion := "Consider narrowing indemnity: require direct, proven loss only; include notice and defence rights; add a monetary cap."
  const RenewalSuggestion := "Consider replacing automatic renewal with explicit renewal or add a short opt-out window of at least 30 days prior to renewal."
  const NoticeSuggestion := "Increase the notice/termination period to at least 30 days to reduce operational risk."

  /** `any(sub in kw for kw in kws)`; the keywords are not lower-cased here. */
  predicate AnyKeyword(ms: seq<Match>, sub: string)
  {
    exists i :: 0 <= i < |ms| && Contains(ms[i].keyword, sub)
  }

  /** `any("auto-renew" in kw or "renew" in kw for kw in kws)`. */
  predicate AnyRenewal(ms: seq<Match>)
  {
    exists i :: 0 <= i < |ms| && (Contains(ms[i].keyword, "auto-renew") || Contains(ms[i].keyword, "renew"))
  }

  /** The suggestion: the default for an empty match list, otherwise the first
      of indemnity, renewal and short notice that some keyword mentions. */
  function Suggestion(ms: seq<Match>): string
  {
    if ms == [] then DefaultSuggestion
    else if AnyKeyword(ms, "indemn") then IndemnitySuggestion
    else if AnyRenewal(ms) then RenewalSuggestion
    else if AnyKeyword(ms, "short_notice") then NoticeSuggestion
    else DefaultSuggestion
  }

  /** The "auto-renew" test is subsumed: "auto-renew" contains "renew". */
  lemma RenewalIsRenew(ms: seq<Match>)
    ensures AnyRenewal(ms) <==> AnyKeyword(ms, "renew")
  {
    ContainsAt("auto-renew", "renew", 5);
    forall i | 0 <= i < |ms| && Contains(ms[i].keyword, "auto-renew")
      ensures Contains(ms[i].keyword, "renew")
    {
      ContainsTrans(ms[i].keyword, "auto-renew", "renew");
    }
  }

  lemma IndemnifMentionsIndemn()
    ensures Contains("indemnif", "indemn")
  {
    ContainsAt("indemnif", "indemn", 0);
  }

  /** The suggestion by precedence: indemnity over renewal over short notice
      over the default, and the default exactly when no keyword mentions any
      of the three. */
  lemma SuggestionSpec(ms: seq<Match>)
    ensures Suggestion(ms) == IndemnitySuggestion <==> AnyKeyword(ms, "indemn")
    ensures Suggestion(ms) == RenewalSuggestion <==> !AnyKeyword(ms, "indemn") && AnyKeyword(ms, "renew")
    ensures Suggestion(ms) == NoticeSuggestion <==>
      !AnyKeyword(ms, "indemn") && !AnyKeyword(ms, "renew") && AnyKeyword(ms, "short_notice")
    ensures Suggestion(ms) == DefaultSuggestion <==>
      !AnyKeyword(ms, "indemn") && !AnyKeyword(ms, "renew") && !AnyKeyword(ms, "short_notice")
  {
    RenewalIsRenew(ms);
    assert |DefaultSuggestion| == 173 && |IndemnitySuggestion| == 118;
    assert |RenewalSuggestion| == 126 && |NoticeSuggestion| == 86;
  }

  // ---------------------------------------------------------------------------
  // `mock_ai_analysis` (app.py:177-198)
  // ---------------------------------------------------------------------------

  /** The result dictionary of `mock_ai_analysis`. */
  datatype Explanation = Explanation(explanation: string, risks: seq<string>, suggestion: string, mock: bool)

  /** The preview of app.py:178-182: the stripped clause when it has at most
      300 characters; otherwise its first 300 characters cut back to the last
      full stop among them, if any, followed by "...". */
  method PreviewOf(clauseText: string) returns (shortPreview: string)
    ensures shortPreview == Preview(clauseText)
    ensures |shortPreview| <= 303
    ensures |Strip(clauseText)| <= 300 ==> shortPreview == Strip(clauseText)
    ensures |Strip(clauseText)| > 300 ==>
      exists p :: 0 <= p <= 300 && shortPreview == Strip(clauseText)[..p] + "..."
        && (if p == 300 then forall k :: 0 <= k < 300 ==> Strip(clauseText)[k] != '.'
            else Strip(clauseText)[p] == '.' && forall k :: p < k < 300 ==> Strip(clauseText)[k] != '.')
  {
    var short := Strip(clauseText);
    if |short| > 300 {
      shortPreview := BeforeLastDot(short[..300]) + "...";
    } else {
      shortPreview := short;
    }
    PreviewSpec(clauseText);
  }

  /** The suggestion chain of app.py:188-196: an indemnity keyword wins, then
      a renewal keyword, then a short notice, and otherwise the default. */
  method ChooseSuggestion(matched: seq<Match>) returns (suggestion: string)
    ensures suggestion == Suggestion(matched)
    ensures suggestion == IndemnitySuggestion <==> AnyKeyword(matched, "indemn")
    ensures suggestion == RenewalSuggestion <==> !AnyKeyword(matched, "indemn") && AnyKeyword(matched, "renew")
    ensures suggestion == NoticeSuggestion <==>
      !AnyKeyword(matched, "indemn") && !AnyKeyword(matched, "renew") && AnyKeyword(matched, "short_notice")
    ensures suggestion == DefaultSuggestion <==>
      !AnyKeyword(matched, "indemn") && !AnyKeyword(matched, "renew") && !AnyKeyword(matched, "short_notice")
  {
    suggestion := DefaultSuggestion;
    if matched != [] {
      if AnyKeyword(matched, "indemn") {
        suggestion := IndemnitySuggestion;
      } else if AnyRenewal(matched) {
        suggestion := RenewalSuggestion;
      } else if AnyKeyword(matched, "short_notice") {
        suggestion := NoticeSuggestion;
      }
    }
    SuggestionSpec(matched);
  }

  /** The risks of app.py:185-187: the summarised risks, then the
      clarification note when the random draw asks for it. */
  method CollectRisks(matched: seq<Match>, clarify: bool) returns (risks: seq<string>)
    ensures risks == RiskSentences(matched) + (if clarify then [ClarificationRisk] else [])
    ensures 1 <= |risks| <= 8
    ensures clarify <==> ClarificationRisk in risks
  {
    risks := SummarizeMatchesToRisks(matched);
    RiskSentencesSpec(matched);
    if clarify {
      risks := risks + [ClarificationRisk];
    }
  }

  /** `mock_ai_analysis`, with the outcome of `random.random() < 0.15` passed
      in as `clarify`. */
  method MockAiAnalysis(clauseText: string, matched: seq<Match>, clarify: bool) returns (r: Explanation)
    ensures r.explanation == ExplanationText(Preview(clauseText))
    ensures r.risks == RiskSentences(matched) + (if clarify then [ClarificationRisk] else [])
    ensures r.suggestion == Suggestion(matched)
    ensures r.mock
    ensures 1 <= |r.risks| <= 8
    ensures clarify <==> ClarificationRisk in r.risks
  {
    var shortPreview := PreviewOf(clauseText);
    var explanation := ExplanationText(shortPreview);
    var risks := CollectRisks(matched, clarify);
    var suggestion := ChooseSuggestion(matched);
    r := Explanation(explanation, risks, suggestion, true);
  }
}

/** The rule-based keyword scorer `score_clause` (app.py:89-125): one clause
    to a score in [0, 100] and the ordered list of what matched. */
module Scorer {
  import opened Text

  datatype Tier = High | Medium | Low

  /** `LEVEL_WEIGHT` (app.py:103). */
  function Weight(tier: Tier): nat
  {
    match tier
    case High => 40
    case Medium => 15
    case Low => 5
  }

  /** One `(level, keyword)` entry of a clause's match list. */
  datatype Match = Match(tier: Tier, keyword: string)

  datatype TierKeywords = TierKeywords(tier: Tier, keywords: seq<string>)

  /** `RISK_KEYWORDS` (app.py:89-102), in the dictionary's iteration order.
      Every entry is matched literally: `re.escape` turns "auto-?renew" into
      the eleven characters `auto-?renew`, with no optional hyphen. */
  const RiskKeywords: seq<TierKeywords> := [
    TierKeywords(High, [
      "indemnif", "indemnity", "liabilit", "liability", "penalt", "liquidated damages",
      "auto-?renew", "automatic renewal", "exclusive", "exclusivity", "assignment without",
      "assignment", "terminate without", "termination without", "waive", "waiver"]),
    TierKeywords(Medium, [
      "notice", "governing law", "jurisdiction", "dispute", "confidential", "confidentiality",
      "non-compete", "non compete", "subcontract", "termination", "breach", "limitation of liability"]),
    TierKeywords(Low, [
      "payment", "invoice", "currency", "delivery", "service level", "slas", "force majeure"])
  ]

  // ---------------------------------------------------------------------------
  // The keyword scan (app.py:109-113)
  // ---------------------------------------------------------------------------

  /** The entries of one tier whose keyword occurs in `t`, in declaration order. */
  function TierMatches(tier: Tier, kws: seq<string>, t: string): seq<Match>
  {
    if kws == [] then []
    else
      var kw := kws[|kws| - 1];
      TierMatches(tier, kws[..|kws| - 1], t) + (if Contains(t, kw) then [Match(tier, kw)] else [])
  }

  /** The entries of the whole table whose keyword occurs in `t`, tier by tier. */
  function TableMatches(table: seq<TierKeywords>, t: string): seq<Match>
  {
    if table == [] then []
    else
      var last := table[|table| - 1];
      TableMatches(table[..|table| - 1], t) + TierMatches(last.tier, last.keywords, t)
  }

  function TierEntries(tier: Tier, kws: seq<string>): seq<Match>
  {
    if kws == [] then [] else TierEntries(tier, kws[..|kws| - 1]) + [Match(tier, kws[|kws| - 1])]
  }

  /** Every `(tier, keyword)` entry of the table, in table order. */
  function TableEntries(table: seq<TierKeywords>): seq<Match>
  {
    if table == [] then []
    else
      var last := table[|table| - 1];
      TableEntries(table[..|table| - 1]) + TierEntries(last.tier, last.keywords)
  }

  /** The running score the scan accumulates: one tier weight per entry. */
  function WeightSum(ms: seq<Match>): nat
  {
    if ms == [] then 0 else WeightSum(ms[..|ms| - 1]) + Weight(ms[|ms| - 1].tier)
  }

  lemma {:induction false} TierMatchesSpec(tier: Tier, kws: seq<string>, t: string)
    ensures IsSubseq(TierMatches(tier, kws, t), TierEntries(tier, kws))
    ensures forall m :: m in TierMatches(tier, kws, t) <==> m in TierEntries(tier, kws) && Contains(t, m.keyword)
    decreases |kws|
  {
    if kws != [] {
      var kws', kw := kws[..|kws| - 1], kws[|kws| - 1];
      TierMatchesSpec(tier, kws', t);
      if Contains(t, kw) {
        SubseqRefl([Match(tier, kw)]);
        SubseqAppend(TierMatches(tier, kws', t), TierEntries(tier, kws'), [Match(tier, kw)], [Match(tier, kw)]);
      } else {
        SubseqAppend(TierMatches(tier, kws', t), TierEntries(tier, kws'), [], [Match(tier, kw)]);
        assert TierMatches(tier, kws', t) + [] == TierMatches(tier, kws', t);
      }
    }
  }

  /** Each table entry is matched as a literal substring of `t`: the matches
      are exactly the entries whose keyword occurs, each at most once however
      often it recurs, in table order (tier by tier, then declaration order). */
  lemma {:induction false} TableMatchesSpec(table: seq<TierKeywords>, t: string)
    ensures IsSubseq(TableMatches(table, t), TableEntries(table))
    ensures forall m :: m in TableMatches(table, t) <==> m in TableEntries(table) && Contains(t, m.keyword)
    decreases |table|
  {
    if table != [] {
      var table', last := table[..|table| - 1], table[|table| - 1];
      TableMatchesSpec(table', t);
      TierMatchesSpec(last.tier, last.keywords, t);
      SubseqAppend(TableMatches(table', t), TableEntries(table'),
                   TierMatches(last.tier, last.keywords, t), TierEntries(last.tier, last.keywords));
    }
  }

  lemma HighKeywordsDistinct()
    ensures Distinct(RiskKeywords[0].keywords)
  {
    var ks := RiskKeywords[0].keywords;
    forall i, j | 0 <= i < j < |ks| ensures ks[i] != ks[j] {
      assert |ks[i]| != |ks[j]| || ks[i][0] != ks[j][0];
    }
  }

  lemma MediumKeywordsDistinct()
    ensures Distinct(RiskKeywords[1].keywords)
  {
  }

  lemma LowKeywordsDistinct()
    ensures Distinct(RiskKeywords[2].keywords)
  {
  }

  /** No tier of the table lists a keyword twice. */
  lemma RiskKeywordsDistinct()
    ensures |RiskKeywords| == 3
    ensures forall n :: 0 <= n < |RiskKeywords| ==> Distinct(RiskKeywords[n].keywords)
  {
    HighKeywordsDistinct();
    MediumKeywordsDistinct();
    LowKeywordsDistinct();
  }

  /** The matches of a tier whose keywords are distinct are distinct, and
      each carries that tier and one of its keywords. */
  lemma {:induction false} TierMatchesDistinct(tier: Tier, kws: seq<string>, t: string)
    requires Distinct(kws)
    ensures Distinct(TierMatches(tier, kws, t))
    ensures forall m :: m in TierMatches(tier, kws, t) ==> m.tier == tier && m.keyword in kws
    decreases |kws|
  {
    if kws != [] {
      var kws', kw := kws[..|kws| - 1], kws[|kws| - 1];
      assert Distinct(kws') by {
        assert forall i :: 0 <= i < |kws'| ==> kws'[i] == kws[i];
      }
      TierMatchesDistinct(tier, kws', t);
      var r' := TierMatches(tier, kws', t);
      assert kw !in kws' by {
        assert forall i :: 0 <= i < |kws'| ==> kws'[i] == kws[i];
      }
      assert Match(tier, kw) !in r';
      DistinctAppend(r', if Contains(t, kw) then [Match(tier, kw)] else []);
    }
  }

  lemma DistinctAppend<T>(a: seq<T>, b: seq<T>)
    requires Distinct(a) && Distinct(b)
    requires forall x :: x in a ==> x !in b
    ensures Distinct(a + b)
  {
    var c := a + b;
    forall i, j | 0 <= i < j < |c| ensures c[i] != c[j] {
      if i < |a| && j >= |a| {
        assert c[i] in a && c[j] == b[j - |a|];
      }
    }
  }

  /** The risk table never reports an entry twice, because no tier repeats a
      keyword; so its match list is fixed by `TableMatchesSpec`. */
  lemma RiskMatchesDistinct(t: string)
    ensures Distinct(TableMatches(RiskKeywords, t))
  {
    RiskKeywordsDistinct();
    var tk0, tk1, tk2 := RiskKeywords[0], RiskKeywords[1], RiskKeywords[2];
    var h := TierMatches(tk0.tier, tk0.keywords, t);
    var m := TierMatches(tk1.tier, tk1.keywords, t);
    var l := TierMatches(tk2.tier, tk2.keywords, t);
    TierMatchesDistinct(tk0.tier, tk0.keywords, t);
    TierMatchesDistinct(tk1.tier, tk1.keywords, t);
    TierMatchesDistinct(tk2.tier, tk2.keywords, t);
    assert TableMatches(RiskKeywords, t) == h + m + l by {
      assert RiskKeywords[..2][..1][..0] == [];
      assert TableMatches(RiskKeywords[..1], t) == h;
      assert TableMatches(RiskKeywords[..2], t) == h + m;
    }
    DistinctAppend(h, m);
    DistinctAppend(h + m, l);
  }

  lemma {:induction false} WeightSumAppend(a: seq<Match>, b: seq<Match>)
    ensures WeightSum(a + b) == WeightSum(a) + WeightSum(b)
    decreases |b|
  {
    if b == [] {
      assert a + b == a;
    } else {
      assert (a + b)[..|a + b| - 1] == a + b[..|b| - 1];
      WeightSumAppend(a, b[..|b| - 1]);
    }
  }

  /** Every match adds a positive weight, so a non-empty match list scores. */
  lemma {:induction false} WeightSumPositive(ms: seq<Match>)
    ensures WeightSum(ms) == 0 <==> ms == []
    ensures WeightSum(ms) <= 40 * |ms|
    decreases |ms|
  {
    if ms != [] {
      WeightSumPositive(ms[..|ms| - 1]);
    }
  }

  // ---------------------------------------------------------------------------
  // The notice-period heuristic (app.py:114-123)
  //   re.search(r'\b(\d{1,2})\s*(day|days|month|months)\b', t)
  // ---------------------------------------------------------------------------

  datatype Unit = Day | Days | Month | Months

  /** `\b` at position `p`: a word character on exactly one side. */
  predicate WordBoundary(t: string, p: nat)
    requires p <= |t|
  {
    (p > 0 && IsWordChar(t[p - 1])) != (p < |t| && IsWordChar(t[p]))
  }

  predicate HasAt(t: string, j: nat, w: string)
  {
    j + |w| <= |t| && t[j..j + |w|] == w
  }

  /** The word each alternative of `(day|days|month|months)` spells. */
  function UnitWord(u: Unit): string
  {
    match u
    case Day => "day"
    case Days => "days"
    case Month => "month"
    case Months => "months"
  }

  /** The alternative `u` followed by `\b` matches at `j`. */
  predicate UnitMatches(t: string, j: nat, u: Unit)
  {
    HasAt(t, j, UnitWord(u)) && WordBoundary(t, j + |UnitWord(u)|)
  }

  /** The alternation `(day|days|month|months)\b` at `j`, tried in that order. */
  function UnitAt(t: string, j: nat): Option<Unit>
  {
    if UnitMatches(t, j, Day) then Some(Day)
    else if UnitMatches(t, j, Days) then Some(Days)
    else if UnitMatches(t, j, Month) then Some(Month)
    else if UnitMatches(t, j, Months) then Some(Months)
    else None
  }

  /** The pattern matched from position `i`, with its number and unit. The
      digit run must be one or two long: with three or more digits neither
      choice of `\d{1,2}` is followed by `\s*` and a letter. The greedy `\s*`
      succeeds only at the end of the whitespace run, since every unit starts
      with a letter. */
  function NoticeAt(t: string, i: nat): Option<(nat, Unit)>
    requires i <= |t|
  {
    if i < |t| && IsDigit(t[i]) && WordBoundary(t, i) then
      var e := SkipDigits(t, i);
      if e - i > 2 then None
      else
        match UnitAt(t, SkipSpace(t, e))
        case None => None
        case Some(u) => Some((DigitsValue(t[i..e]), u))
    else None
  }

  /** The unit alternation succeeds exactly when one of its alternatives,
      with the word boundary after it, matches; the unit it reports matches. */
  lemma UnitAtSpec(t: string, j: nat)
    ensures UnitAt(t, j).Some? ==> UnitMatches(t, j, UnitAt(t, j).value)
    ensures UnitAt(t, j).None? <==> forall u :: !UnitMatches(t, j, u)
  {
    if UnitAt(t, j).None? {
      forall u ensures !UnitMatches(t, j, u) {
        assert u == Day || u == Days || u == Month || u == Months;
      }
    }
  }

  /** The notice pattern matches at `i` with unit `u`: a word boundary, a run
      of one or two digits, optional whitespace, then the word of `u` and a
      word boundary. */
  predicate NoticeMatches(t: string, i: nat, u: Unit)
    requires i <= |t|
  {
    i < |t| && IsDigit(t[i]) && WordBoundary(t, i) && SkipDigits(t, i) - i <= 2
    && UnitMatches(t, SkipSpace(t, SkipDigits(t, i)), u)
  }

  /** `NoticeAt` finds a hit exactly when the pattern matches with some unit;
      the hit's unit matches, and its number is the decimal value of the
      digit run, below 100. */
  lemma NoticeAtSpec(t: string, i: nat)
    requires i <= |t|
    ensures NoticeAt(t, i).Some? ==>
      NoticeMatches(t, i, NoticeAt(t, i).value.1)
      && 1 <= SkipDigits(t, i) - i
      && NoticeAt(t, i).value.0 == DigitsValue(t[i..SkipDigits(t, i)])
      && NoticeAt(t, i).value.0 < 100
    ensures NoticeAt(t, i).None? <==> forall u :: !NoticeMatches(t, i, u)
  {
    var found := i < |t| && IsDigit(t[i]) && WordBoundary(t, i) && SkipDigits(t, i) - i <= 2;
    if found {
      UnitAtSpec(t, SkipSpace(t, SkipDigits(t, i)));
    }
    if NoticeAt(t, i).Some? {
      assert NoticeMatches(t, i, NoticeAt(t, i).value.1);
    } else {
      forall u ensures !NoticeMatches(t, i, u) {
        if found {
          assert !UnitMatches(t, SkipSpace(t, SkipDigits(t, i)), u);
        }
      }
    }
  }

  datatype NoticeHit = NoticeHit(pos: nat, number: nat, unit: Unit)

  /** `re.search`: the leftmost position at or after `i` where the pattern matches. */
  function FirstNotice(t: string, i: nat): (r: Option<NoticeHit>)
    requires i <= |t|
    ensures r.Some? ==>
      (i <= r.value.pos < |t|
       && NoticeAt(t, r.value.pos) == Some((r.value.number, r.value.unit))
       && forall q :: i <= q < r.value.pos ==> NoticeAt(t, q).None?)
    ensures r.None? ==> forall q :: i <= q <= |t| ==> NoticeAt(t, q).None?
    decreases |t| - i
  {
    if i == |t| then None
    else match NoticeAt(t, i)
      case Some((n, u)) => Some(NoticeHit(i, n, u))
      case None => FirstNotice(t, i + 1)
  }

  /** The bonus of app.py:119-121: the first hit (and only the first) gives a
      short notice when its unit is day or days and its number at most 15. */
  function ShortNoticeDays(t: string): (r: Option<nat>)
    ensures r.Some? ==> r.value <= 15
  {
    match FirstNotice(t, 0)
    case None => None
    case Some(hit) => if (hit.unit == Day || hit.unit == Days) && hit.number <= 15 then Some(hit.number) else None
  }

  /** `f"short_notice_{num}_days"`. */
  function ShortNoticeLabel(n: nat): string
    requires n < 100
  {
    "short_notice_" + Dec2(n) + "_days"
  }

  /** Only the first number-and-unit hit is examined: once the leftmost hit is
      known, later ones never change the bonus. */
  lemma FirstHitDecides(t: string, p: nat, n: nat, u: Unit)
    requires p <= |t| && NoticeAt(t, p) == Some((n, u))
    requires forall q :: 0 <= q < p ==> NoticeAt(t, q).None?
    ensures ShortNoticeDays(t) == if (u == Day || u == Days) && n <= 15 then Some(n) else None
  {
  }

  // ---------------------------------------------------------------------------
  // The score of one clause
  // ---------------------------------------------------------------------------

  /** The match list `score_clause(text)` returns. */
  function ClauseMatches(text: string): seq<Match>
  {
    var t := Lower(text);
    TableMatches(RiskKeywords, t)
      + match ShortNoticeDays(t)
        case None => []
        case Some(n) => [Match(Medium, ShortNoticeLabel(n))]
  }

  /** The score `score_clause(text)` returns. */
  function ClauseScore(text: string): (r: int)
    ensures 0 <= r <= 100
  {
    var t := Lower(text);
    var total := WeightSum(TableMatches(RiskKeywords, t)) + (if ShortNoticeDays(t).Some? then 10 else 0);
    if total < 100 then total else 100
  }

  /** A clause scores above zero exactly when something matched. */
  lemma ScorePositiveIffMatched(text: string)
    ensures ClauseScore(text) > 0 <==> ClauseMatches(text) != []
  {
    WeightSumPositive(TableMatches(RiskKeywords, Lower(text)));
  }

  /** A short notice adds 10 to the keyword weights and its pseudo-match comes
      last in the list, after every keyword match. */
  lemma ShortNoticeSpec(text: string)
    ensures var t := Lower(text);
      var kw := TableMatches(RiskKeywords, t);
      match ShortNoticeDays(t)
      case None =>
        ClauseMatches(text) == kw
        && ClauseScore(text) == if WeightSum(kw) < 100 then WeightSum(kw) else 100
      case Some(n) =>
        n <= 15 && |ClauseMatches(text)| == |kw| + 1
        && ClauseMatches(text)[|kw|] == Match(Medium, ShortNoticeLabel(n))
        && ClauseScore(text) == if WeightSum(kw) + 10 < 100 then WeightSum(kw) + 10 else 100
  {}

  /** The inner loop of `score_clause` (app.py:110-113): the keywords of one
      tier, in declaration order; every keyword found in `t` adds the tier's
      weight and one entry. */
  method ScanTier(level: Tier, kws: seq<string>, t: string) returns (score: nat, matched: seq<Match>)
    ensures matched == TierMatches(level, kws, t)
    ensures score == WeightSum(matched)
  {
    score := 0;
    matched := [];
    for j := 0 to |kws|
      invariant matched == TierMatches(level, kws[..j], t)
      invariant score == WeightSum(matched)
    {
      assert kws[..j + 1][..j] == kws[..j];
      if Contains(t, kws[j]) {
        WeightSumAppend(matched, [Match(level, kws[j])]);
        score := score + Weight(level);
        matched := matched + [Match(level, kws[j])];
      }
    }
    assert kws[..|kws|] == kws;
  }

  /** The outer loop of `score_clause` (app.py:109): the tiers in table order. */
  method ScanKeywords(table: seq<TierKeywords>, t: string) returns (score: nat, matched: seq<Match>)
    ensures matched == TableMatches(table, t)
    ensures score == WeightSum(matched)
  {
    score := 0;
    matched := [];
    for i := 0 to |table|
      invariant matched == TableMatches(table[..i], t)
      invariant score == WeightSum(matched)
    {
      assert table[..i + 1][..i] == table[..i];
      var tierScore, tierMatched := ScanTier(table[i].tier, table[i].keywords, t);
      WeightSumAppend(matched, tierMatched);
      score := score + tierScore;
      matched := matched + tierMatched;
    }
    assert table[..|table|] == table;
  }

  /** `score_clause` (app.py:105-125). */
  method ScoreClause(text: string) returns (score: int, matched: seq<Match>)
    ensures score == ClauseScore(text) && matched == ClauseMatches(text)
    ensures 0 <= score <= 100
    ensures score > 0 <==> matched != []
  {
    var t := Lower(text);
    score, matched := ScanKeywords(RiskKeywords, t);
    var m := FirstNotice(t, 0);
    if m.Some? {
      var num := m.value.number;
      var unit := m.value.unit;
      if (unit == Day || unit == Days) && num <= 15 {
        score := score + 10;
        matched := matched + [Match(Medium, ShortNoticeLabel(num))];
      }
    }
    score := if score < 100 then score else 100;
    ScorePositiveIffMatched(text);
  }

  // ---------------------------------------------------------------------------
  // Facts the explanation step relies on
  // ---------------------------------------------------------------------------

  lemma {:induction false} TierEntriesSpec(tier: Tier, kws: seq<string>, k: string)
    ensures Match(tier, k) in TierEntries(tier, kws) <==> k in kws
    decreases |kws|
  {
    if kws != [] {
      TierEntriesSpec(tier, kws[..|kws| - 1], k);
      assert kws == kws[..|kws| - 1] + [kws[|kws| - 1]];
    }
  }

  lemma {:induction false} TableEntriesHas(table: seq<TierKeywords>, i: nat, k: string)
    requires i < |table| && k in table[i].keywords
    ensures Match(table[i].tier, k) in TableEntries(table)
    decreases |table|
  {
    var n := |table| - 1;
    if i < n {
      TableEntriesHas(table[..n], i, k);
    } else {
      TierEntriesSpec(table[n].tier, table[n].keywords, k);
    }
  }

  /** A clause mentioning "indemnif" has the high-tier match for it. */
  lemma IndemnifMatched(text: string)
    requires Contains(Lower(text), "indemnif")
    ensures Match(High, "indemnif") in ClauseMatches(text)
  {
    assert RiskKeywords[0].keywords[0] == "indemnif";
    TableEntriesHas(RiskKeywords, 0, "indemnif");
    TableMatchesSpec(RiskKeywords, Lower(text));
  }

  /** The pseudo-keyword of a short notice is already lower-case and starts
      with "short_notice". */
  lemma ShortNoticeLabelSpec(n: nat)
    requires n < 100
    ensures Lower(ShortNoticeLabel(n)) == ShortNoticeLabel(n)
    ensures |ShortNoticeLabel(n)| >= 12 && ShortNoticeLabel(n)[..12] == "short_notice"
  {
    var tag := ShortNoticeLabel(n);
    forall i | 0 <= i < |tag|
      ensures !IsUpper(tag[i])
    {
      if i >= 13 && i < 13 + |Dec2(n)| {
        assert tag[i] == Dec2(n)[i - 13];
      }
    }
    LowerNoUpper(tag);
  }

  /** With a short notice, the last match is its pseudo-keyword. */
  lemma ShortNoticePseudoMatch(text: string) returns (last: nat)
    requires ShortNoticeDays(Lower(text)).Some?
    ensures last < |ClauseMatches(text)|
    ensures ClauseMatches(text)[last] == Match(Medium, ShortNoticeLabel(ShortNoticeDays(Lower(text)).value))
  {
    ShortNoticeSpec(text);
    last := |TableMatches(RiskKeywords, Lower(text))|;
  }

  // ---------------------------------------------------------------------------
  // Concrete consequences of matching literally and of looking at the first hit
  // ---------------------------------------------------------------------------

  /** The table entry "auto-?renew" does not match the text "auto-renew". */
  lemma AutoRenewEntryIsLiteral()
    ensures Match(High, "auto-?renew") !in ClauseMatches("auto-renew")
  {
    var t := Lower("auto-renew");
    TableMatchesSpec(RiskKeywords, t);
    assert !Contains(t, "auto-?renew");
  }

  const MixedNotice := "12 months, 10 days"

  /** The leftmost hit of `MixedNotice` is "12 months", at position 0. */
  lemma MixedNoticeFirstHit()
    ensures NoticeAt(MixedNotice, 0) == Some((12, Months))
  {
    var t := MixedNotice;
    assert SkipDigits(t, 2) == 2;
    assert SkipDigits(t, 0) == 2;
    assert SkipSpace(t, 2) == 3;
    MixedNoticeUnit();
    assert t[0..2] == "12";
  }

  lemma MixedNoticeUnit()
    ensures UnitAt(MixedNotice, 3) == Some(Months)
  {
    var t := MixedNotice;
    assert |t| == 18;
    assert t[3] == 'm' && t[4] == 'o' && t[5] == 'n' && t[6] == 't' && t[7] == 'h' && t[8] == 's' && t[9] == ',';
    assert t[3..6][0] != "day"[0];
    assert t[3..7][0] != "days"[0];
    assert t[3..8] == "month";
    assert !WordBoundary(t, 8);
    assert t[3..9] == "months";
    assert WordBoundary(t, 9);
  }

  /** In "12 months, 10 days" the first hit is "12 months", so the later
      ten-day notice earns no bonus. */
  lemma OnlyFirstHitCounts()
    ensures ShortNoticeDays(MixedNotice) == None
  {
    MixedNoticeFirstHit();
    FirstHitDecides(MixedNotice, 0, 12, Months);
  }
}

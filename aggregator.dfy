/** `analyze_clauses` (app.py:127-134) and the overall contract score
    (app.py:342-348, 423): which clauses are flagged, in which order, and the
    single number the report leads with. */
module Aggregator {
  import opened Scorer

  /** One entry of the flagged list: the clause's position in the
      segmentation, its text, its score and its matches. */
  datatype FlaggedClause = FlaggedClause(index: nat, clause: string, score: int, matches: seq<Match>)

  // ---------------------------------------------------------------------------
  // Flagging (app.py:129-132)
  // ---------------------------------------------------------------------------

  /** The list the loop of `analyze_clauses` builds: every clause with a
      positive score, in segmentation order. */
  function FlagAll(clauses: seq<string>): seq<FlaggedClause>
  {
    if clauses == [] then []
    else
      var n := |clauses| - 1;
      var c := clauses[n];
      FlagAll(clauses[..n])
        + (if ClauseScore(c) > 0 then [FlaggedClause(n, c, ClauseScore(c), ClauseMatches(c))] else [])
  }

  /** The entry is the scorer's verdict on the clause it points at. */
  predicate FaithfulEntry(clauses: seq<string>, f: FlaggedClause)
  {
    f.index < |clauses| && f.clause == clauses[f.index]
    && f.score == ClauseScore(f.clause) && f.matches == ClauseMatches(f.clause)
    && 0 < f.score <= 100
  }

  /** Some entry of `fs` points at clause `i`. */
  predicate Flags(fs: seq<FlaggedClause>, i: nat)
  {
    exists f :: f in fs && f.index == i
  }

  predicate IndicesIncreasing(fs: seq<FlaggedClause>)
  {
    forall i, j :: 0 <= i < j < |fs| ==> fs[i].index < fs[j].index
  }

  /** The entry added for the last clause, if it scores. */
  function FlagLast(clauses: seq<string>): seq<FlaggedClause>
    requires clauses != []
  {
    var n := |clauses| - 1;
    var c := clauses[n];
    if ClauseScore(c) > 0 then [FlaggedClause(n, c, ClauseScore(c), ClauseMatches(c))] else []
  }

  lemma FlagAllUnfold(clauses: seq<string>)
    requires clauses != []
    ensures FlagAll(clauses) == FlagAll(clauses[..|clauses| - 1]) + FlagLast(clauses)
  {}

  /** Every flagged entry is the scorer's verdict on the clause it points at. */
  lemma {:induction false} FlagAllFaithful(clauses: seq<string>)
    ensures forall f :: f in FlagAll(clauses) ==> FaithfulEntry(clauses, f)
    decreases |clauses|
  {
    if clauses != [] {
      var prefix := clauses[..|clauses| - 1];
      FlagAllFaithful(prefix);
      FlagAllUnfold(clauses);
      forall f | f in FlagAll(clauses)
        ensures FaithfulEntry(clauses, f)
      {
        if f in FlagAll(prefix) {
          assert FaithfulEntry(prefix, f);
          assert prefix[f.index] == clauses[f.index];
        }
      }
    }
  }

  /** Entries point below the number of clauses seen, in increasing order. */
  lemma {:induction false} FlagAllIncreasing(clauses: seq<string>)
    ensures IndicesIncreasing(FlagAll(clauses))
    ensures forall f :: f in FlagAll(clauses) ==> f.index < |clauses|
    decreases |clauses|
  {
    if clauses != [] {
      var prefix := clauses[..|clauses| - 1];
      FlagAllIncreasing(prefix);
      FlagAllUnfold(clauses);
      var all: seq<FlaggedClause> := FlagAll(clauses);
      var fs := FlagAll(prefix);
      forall i, j | 0 <= i < j < |all|
        ensures all[i].index < all[j].index
      {
        if j >= |fs| {
          assert all[i] in fs;
        }
      }
    }
  }

  lemma FlagsAppend(fs: seq<FlaggedClause>, gs: seq<FlaggedClause>, i: nat)
    ensures Flags(fs + gs, i) <==> Flags(fs, i) || Flags(gs, i)
  {
    if Flags(fs + gs, i) {
      var f :| f in fs + gs && f.index == i;
      assert f in fs || f in gs;
    }
    if Flags(fs, i) {
      var f :| f in fs && f.index == i;
      assert f in fs + gs;
    }
    if Flags(gs, i) {
      var f :| f in gs && f.index == i;
      assert f in fs + gs;
    }
  }

  /** The entry for the last clause flags only that clause, and does so
      exactly when it scores. */
  lemma FlagLastFlags(clauses: seq<string>, i: nat)
    requires clauses != []
    ensures Flags(FlagLast(clauses), i) <==> i == |clauses| - 1 && ClauseScore(clauses[i]) > 0
  {
    var last := FlagLast(clauses);
    if i == |clauses| - 1 && ClauseScore(clauses[i]) > 0 {
      assert last[0] in last;
    }
  }

  /** A clause is flagged exactly when it scores above zero. */
  lemma {:induction false} FlagAllCovers(clauses: seq<string>)
    ensures forall i :: 0 <= i < |clauses| ==>
      (ClauseScore(clauses[i]) > 0 <==> Flags(FlagAll(clauses), i))
    decreases |clauses|
  {
    if clauses != [] {
      var n := |clauses| - 1;
      var prefix := clauses[..n];
      FlagAllCovers(prefix);
      FlagAllIncreasing(prefix);
      FlagAllUnfold(clauses);
      forall i | 0 <= i < |clauses|
        ensures ClauseScore(clauses[i]) > 0 <==> Flags(FlagAll(clauses), i)
      {
        FlagsAppend(FlagAll(prefix), FlagLast(clauses), i);
        FlagLastFlags(clauses, i);
        if i < n {
          assert prefix[i] == clauses[i];
        }
      }
    }
  }

  /** Entries with increasing indices below `n` number at most `n`. */
  lemma {:induction false} IncreasingBound(fs: seq<FlaggedClause>, n: nat)
    requires IndicesIncreasing(fs)
    requires forall f :: f in fs ==> f.index < n
    ensures |fs| <= n
    decreases |fs|
  {
    if fs != [] {
      var last := fs[|fs| - 1];
      var prefix := fs[..|fs| - 1];
      forall f | f in prefix
        ensures f.index < last.index
      {
        var i :| 0 <= i < |prefix| && prefix[i] == f;
        assert fs[i] == f;
      }
      IncreasingBound(prefix, last.index);
    }
  }

  /** At most one entry per clause. */
  lemma FlaggedCountBound(clauses: seq<string>)
    ensures |SortDesc(FlagAll(clauses))| == |FlagAll(clauses)| <= |clauses|
  {
    FlagAllIncreasing(clauses);
    IncreasingBound(FlagAll(clauses), |clauses|);
    SortDescPerm(FlagAll(clauses));
    assert |multiset(SortDesc(FlagAll(clauses)))| == |multiset(FlagAll(clauses))|;
  }

  // ---------------------------------------------------------------------------
  // Ranking: `sorted(flagged, key=score, reverse=True)` (app.py:133)
  // ---------------------------------------------------------------------------

  /** Python's sort is stable, also with `reverse=True`: `a` precedes `b` when
      it scores higher, or scores the same and came first. */
  predicate Before(a: FlaggedClause, b: FlaggedClause)
  {
    a.score > b.score || (a.score == b.score && a.index < b.index)
  }

  predicate Ranked(fs: seq<FlaggedClause>)
  {
    forall i, j :: 0 <= i < j < |fs| ==> Before(fs[i], fs[j])
  }

  /** Places `x` in front of the first entry it does not score below. */
  function Insert(x: FlaggedClause, ys: seq<FlaggedClause>): seq<FlaggedClause>
  {
    if ys == [] || x.score >= ys[0].score then [x] + ys
    else [ys[0]] + Insert(x, ys[1..])
  }

  /** The stable descending sort, by insertion from the back. */
  function SortDesc(xs: seq<FlaggedClause>): seq<FlaggedClause>
  {
    if xs == [] then [] else Insert(xs[0], SortDesc(xs[1..]))
  }

  lemma {:induction false} InsertPerm(x: FlaggedClause, ys: seq<FlaggedClause>)
    ensures multiset(Insert(x, ys)) == multiset{x} + multiset(ys)
    decreases |ys|
  {
    if ys != [] && x.score < ys[0].score {
      InsertPerm(x, ys[1..]);
      assert ys == [ys[0]] + ys[1..];
    }
  }

  lemma RankedCons(h: FlaggedClause, rest: seq<FlaggedClause>)
    requires Ranked(rest)
    requires forall z :: z in rest ==> Before(h, z)
    ensures Ranked([h] + rest)
  {
    var r := [h] + rest;
    forall i, j | 0 <= i < j < |r|
      ensures Before(r[i], r[j])
    {
      if i == 0 {
        assert r[j] == rest[j - 1];
      } else {
        assert r[i] == rest[i - 1] && r[j] == rest[j - 1];
      }
    }
  }

  lemma {:induction false} InsertRanked(x: FlaggedClause, ys: seq<FlaggedClause>)
    requires Ranked(ys)
    requires forall z :: z in ys ==> x.index < z.index
    ensures Ranked(Insert(x, ys))
    decreases |ys|
  {
    if ys == [] || x.score >= ys[0].score {
      forall z | z in ys
        ensures Before(x, z)
      {
        var j :| 0 <= j < |ys| && ys[j] == z;
        if j > 0 {
          assert Before(ys[0], ys[j]);
        }
      }
      RankedCons(x, ys);
    } else {
      var rest := ys[1..];
      assert Ranked(rest) by {
        forall i, j | 0 <= i < j < |rest|
          ensures Before(rest[i], rest[j])
        {
          assert rest[i] == ys[i + 1] && rest[j] == ys[j + 1];
        }
      }
      InsertRanked(x, rest);
      InsertPerm(x, rest);
      forall z | z in Insert(x, rest)
        ensures Before(ys[0], z)
      {
        assert z in multiset(Insert(x, rest));
        if z != x {
          assert z in multiset(rest);
          var j :| 0 <= j < |rest| && rest[j] == z;
          assert ys[j + 1] == z;
        }
      }
      RankedCons(ys[0], Insert(x, rest));
    }
  }

  /** The sort is a permutation. */
  lemma {:induction false} SortDescPerm(xs: seq<FlaggedClause>)
    ensures multiset(SortDesc(xs)) == multiset(xs)
    decreases |xs|
  {
    if xs != [] {
      SortDescPerm(xs[1..]);
      InsertPerm(xs[0], SortDesc(xs[1..]));
      assert xs == [xs[0]] + xs[1..];
    }
  }

  /** On entries in increasing index order (the flagged list is one), the sort
      orders by score, highest first, and keeps ties in index order. */
  lemma {:induction false} SortDescRanked(xs: seq<FlaggedClause>)
    requires IndicesIncreasing(xs)
    ensures Ranked(SortDesc(xs))
    decreases |xs|
  {
    if xs != [] {
      var tail := xs[1..];
      assert IndicesIncreasing(tail) by {
        forall i, j | 0 <= i < j < |tail|
          ensures tail[i].index < tail[j].index
        {
          assert tail[i] == xs[i + 1] && tail[j] == xs[j + 1];
        }
      }
      SortDescRanked(tail);
      SortDescPerm(tail);
      forall z | z in SortDesc(tail)
        ensures xs[0].index < z.index
      {
        assert z in multiset(SortDesc(tail));
        var j :| 0 <= j < |tail| && tail[j] == z;
        assert xs[j + 1] == z;
      }
      InsertRanked(xs[0], SortDesc(tail));
    }
  }

  // ---------------------------------------------------------------------------
  // `analyze_clauses`
  // ---------------------------------------------------------------------------

  /** `analyze_clauses` (app.py:127-134): scores every clause, keeps those
      scoring above zero and ranks them highest score first, ties in clause
      order. */
  method AnalyzeClauses(clauses: seq<string>) returns (flagged: seq<FlaggedClause>)
    ensures flagged == SortDesc(FlagAll(clauses))
    ensures multiset(flagged) == multiset(FlagAll(clauses))
    ensures Ranked(flagged)
    ensures forall f :: f in flagged ==> FaithfulEntry(clauses, f)
    ensures forall i :: 0 <= i < |clauses| ==>
      (ClauseScore(clauses[i]) > 0 <==> Flags(flagged, i))
  {
    var found := [];
    for idx := 0 to |clauses|
      invariant found == FlagAll(clauses[..idx])
    {
      assert clauses[..idx + 1][..idx] == clauses[..idx];
      var c := clauses[idx];
      var s, matched := ScoreClause(c);
      if s > 0 {
        found := found + [FlaggedClause(idx, c, s, matched)];
      }
    }
    assert clauses[..|clauses|] == clauses;
    flagged := SortDesc(found);
    FlagAllFaithful(clauses);
    FlagAllIncreasing(clauses);
    FlagAllCovers(clauses);
    SortDescPerm(found);
    SortDescRanked(found);
    forall i | 0 <= i < |clauses|
      ensures (Flags(flagged, i)) <==> (Flags(found, i))
    {
      if f :| f in flagged && f.index == i {
        assert f in multiset(flagged);
      }
      if f :| f in found && f.index == i {
        assert f in multiset(found);
        assert f in flagged;
      }
    }
    forall f | f in flagged
      ensures FaithfulEntry(clauses, f)
    {
      assert f in multiset(found);
    }
  }

  // ---------------------------------------------------------------------------
  // The overall score (app.py:342-348)
  // ---------------------------------------------------------------------------

  function ScoreSum(fs: seq<FlaggedClause>): int
  {
    if fs == [] then 0 else ScoreSum(fs[..|fs| - 1]) + fs[|fs| - 1].score
  }

  /** `int(x)` for a quotient: truncation toward zero. */
  function TruncDiv(a: int, b: int): (q: int)
    requires b > 0
    ensures a >= 0 ==> q * b <= a < (q + 1) * b
    ensures a < 0 ==> -q * b <= -a < (-q + 1) * b
  {
    if a >= 0 then a / b else -((-a) / b)
  }

  /** The overall score: the mean flagged score times the flagged fraction,
      truncated, capped at 100; 0 when nothing is flagged. The product
      `(S / F) * (F / N)` is computed here as the exact `S / N`. */
  function OverallScore(flagged: seq<FlaggedClause>, numClauses: nat): (r: int)
    ensures flagged == [] ==> r == 0
    ensures r <= 100
    ensures ScoreSum(flagged) >= 0 ==> r >= 0
  {
    if flagged == [] then 0
    else
      var overall := TruncDiv(ScoreSum(flagged), if numClauses > 1 then numClauses else 1);
      if overall < 100 then overall else 100
  }

  /** The score of every clause, flagged or not, added up. */
  function DocumentScoreSum(clauses: seq<string>): int
  {
    if clauses == [] then 0 else DocumentScoreSum(clauses[..|clauses| - 1]) + ClauseScore(clauses[|clauses| - 1])
  }

  lemma {:induction false} ScoreSumAppend(a: seq<FlaggedClause>, b: seq<FlaggedClause>)
    ensures ScoreSum(a + b) == ScoreSum(a) + ScoreSum(b)
    decreases |b|
  {
    if b == [] {
      assert a + b == a;
    } else {
      assert (a + b)[..|a + b| - 1] == a + b[..|b| - 1];
      ScoreSumAppend(a, b[..|b| - 1]);
    }
  }

  lemma {:induction false} ScoreSumInsert(x: FlaggedClause, ys: seq<FlaggedClause>)
    ensures ScoreSum(Insert(x, ys)) == x.score + ScoreSum(ys)
    decreases |ys|
  {
    if ys == [] || x.score >= ys[0].score {
      ScoreSumAppend([x], ys);
    } else {
      ScoreSumInsert(x, ys[1..]);
      ScoreSumAppend([ys[0]], Insert(x, ys[1..]));
      ScoreSumAppend([ys[0]], ys[1..]);
      assert ys == [ys[0]] + ys[1..];
    }
  }

  /** Ranking does not change the total. */
  lemma {:induction false} ScoreSumSort(xs: seq<FlaggedClause>)
    ensures ScoreSum(SortDesc(xs)) == ScoreSum(xs)
    decreases |xs|
  {
    if xs != [] {
      ScoreSumSort(xs[1..]);
      ScoreSumInsert(xs[0], SortDesc(xs[1..]));
      ScoreSumAppend([xs[0]], xs[1..]);
      assert xs == [xs[0]] + xs[1..];
    }
  }

  /** Unflagged clauses score 0, so the flagged total is the document total. */
  lemma {:induction false} FlagAllScoreSum(clauses: seq<string>)
    ensures ScoreSum(FlagAll(clauses)) == DocumentScoreSum(clauses)
    decreases |clauses|
  {
    if clauses != [] {
      var n := |clauses| - 1;
      FlagAllScoreSum(clauses[..n]);
      var c := clauses[n];
      var extra := if ClauseScore(c) > 0 then [FlaggedClause(n, c, ClauseScore(c), ClauseMatches(c))] else [];
      ScoreSumAppend(FlagAll(clauses[..n]), extra);
      assert ScoreSum(extra) == ClauseScore(c) by {
        if ClauseScore(c) > 0 {
          assert extra[..0] == [];
        }
      }
    }
  }

  lemma {:induction false} DocumentScoreSumBounds(clauses: seq<string>)
    ensures 0 <= DocumentScoreSum(clauses) <= 100 * |clauses|
    decreases |clauses|
  {
    if clauses != [] {
      DocumentScoreSumBounds(clauses[..|clauses| - 1]);
    }
  }

  lemma MulMono(a: int, b: int, n: int)
    requires a <= b && n >= 0
    ensures a * n <= b * n
  {}

  /** Truncated division of a total of at most `100 * n` stays within 100. */
  lemma MeanBound(total: int, n: int)
    requires n >= 1 && 0 <= total <= 100 * n
    ensures 0 <= TruncDiv(total, n) <= 100
  {
    var q := TruncDiv(total, n);
    if q > 100 {
      MulMono(101, q, n);
    }
    if q < 0 {
      MulMono(q + 1, 0, n);
    }
  }

  /** The ranked flagged list scores the document total. */
  lemma RankedTotal(clauses: seq<string>)
    ensures ScoreSum(SortDesc(FlagAll(clauses))) == DocumentScoreSum(clauses)
    ensures 0 <= DocumentScoreSum(clauses) <= 100 * |clauses|
  {
    FlagAllScoreSum(clauses);
    ScoreSumSort(FlagAll(clauses));
    DocumentScoreSumBounds(clauses);
  }

  /** The overall score of a list whose total is at most 100 per clause:
      between 0 and 100, 0 for an empty list, and, with at least one clause,
      the truncated quotient of the total by the number of clauses (the cap
      never bites). */
  lemma OverallSpec(fs: seq<FlaggedClause>, n: nat)
    requires 0 <= ScoreSum(fs) <= 100 * n
    ensures 0 <= OverallScore(fs, n) <= 100
    ensures fs == [] ==> OverallScore(fs, n) == 0
    ensures n >= 1 ==> OverallScore(fs, n) == TruncDiv(ScoreSum(fs), n)
  {
    if fs != [] {
      MeanBound(ScoreSum(fs), if n > 1 then n else 1);
    }
  }

  lemma {:induction false} ScoreSumAtMost(fs: seq<FlaggedClause>, m: int)
    requires forall f :: f in fs ==> f.score <= m
    ensures ScoreSum(fs) <= |fs| * m
    decreases |fs|
  {
    if fs != [] {
      var prefix := fs[..|fs| - 1];
      assert forall f :: f in prefix ==> f in fs;
      ScoreSumAtMost(prefix, m);
      assert fs[|fs| - 1] in fs;
      assert (|fs| - 1) * m + m == |fs| * m;
    }
  }

  /** A total of at most `m` per entry, over no more entries than clauses,
      has a truncated mean of at most `m`. */
  lemma QuotientAtMost(total: int, f: int, n: int, m: int)
    requires 1 <= f <= n && 0 <= total <= f * m
    ensures TruncDiv(total, n) <= m
  {
    var q := TruncDiv(total, n);
    assert 0 <= m by {
      if m < 0 {
        MulMono(0, f, m);
      }
    }
    MulMono(f, n, m);
    assert f * m <= n * m;
    if q > m {
      MulMono(m + 1, q, n);
    }
  }

  /** The overall score never exceeds the largest flagged score: if every
      flagged score is at most `m`, so is the overall score, as long as there
      are no more flagged entries than clauses. */
  lemma OverallAtMostLargest(fs: seq<FlaggedClause>, n: nat, m: int)
    requires |fs| <= n && 0 <= ScoreSum(fs)
    requires forall f :: f in fs ==> f.score <= m
    ensures fs != [] ==> OverallScore(fs, n) <= m
  {
    if fs != [] {
      ScoreSumAtMost(fs, m);
      QuotientAtMost(ScoreSum(fs), |fs|, n, m);
    }
  }
}

/** The clause segmenter `simple_clause_split` (app.py:56-86): raw contract text
    to an ordered list of trimmed clause strings. */
module Segmenter {
  import opened Text

  // ---------------------------------------------------------------------------
  // Line-ending normalisation (app.py:57)
  // ---------------------------------------------------------------------------

  /** `s.replace('\r\n', '\n')`: every CR LF pair, scanned left to right, becomes LF. */
  function ReplaceCrLf(s: string): string
  {
    if s == [] then []
    else if |s| >= 2 && s[0] == '\r' && s[1] == '\n' then "\n" + ReplaceCrLf(s[2..])
    else [s[0]] + ReplaceCrLf(s[1..])
  }

  /** `s.replace('\r', '\n')`. */
  function ReplaceCr(s: string): (r: string)
    ensures |r| == |s|
    ensures forall i :: 0 <= i < |s| ==> r[i] == (if s[i] == '\r' then '\n' else s[i])
  {
    if s == [] then [] else [if s[0] == '\r' then '\n' else s[0]] + ReplaceCr(s[1..])
  }

  function Normalize(s: string): string
  {
    ReplaceCr(ReplaceCrLf(s))
  }

  lemma {:induction false} ReplaceCrLfNonWs(s: string)
    ensures NonWs(ReplaceCrLf(s)) == NonWs(s)
    decreases |s|
  {
    if s == [] {
    } else if |s| >= 2 && s[0] == '\r' && s[1] == '\n' {
      ReplaceCrLfNonWs(s[2..]);
      assert s == s[..2] + s[2..];
      NonWsConcat(s[..2], s[2..]);
      NonWsConcat("\n", ReplaceCrLf(s[2..]));
      NonWsAllSpace(s[..2]);
      NonWsAllSpace("\n");
    } else {
      ReplaceCrLfNonWs(s[1..]);
      assert ([s[0]] + ReplaceCrLf(s[1..]))[1..] == ReplaceCrLf(s[1..]);
    }
  }

  lemma {:induction false} ReplaceCrNonWs(s: string)
    ensures NonWs(ReplaceCr(s)) == NonWs(s)
    decreases |s|
  {
    if s != [] {
      ReplaceCrNonWs(s[1..]);
      assert ReplaceCr(s)[1..] == ReplaceCr(s[1..]);
    }
  }

  /** Normalisation leaves no CR behind and changes whitespace only. */
  lemma NormalizeSpec(s: string)
    ensures forall i :: 0 <= i < |Normalize(s)| ==> Normalize(s)[i] != '\r'
    ensures NonWs(Normalize(s)) == NonWs(s)
  {
    ReplaceCrLfNonWs(s);
    ReplaceCrNonWs(ReplaceCrLf(s));
  }

  // ---------------------------------------------------------------------------
  // The clause-heading lookahead (app.py:62)
  //   (?=\n\s*(?:\d+\s*[.)]\s+|[A-Z][A-Za-z0-9\s]{1,60}:))
  // ---------------------------------------------------------------------------

  /** The class `[A-Za-z0-9\s]` of a label heading. */
  predicate IsLabelChar(c: char) {
    IsUpper(c) || IsLowerLetter(c) || IsDigit(c) || IsSpace(c)
  }

  function SkipLabelChars(s: string, i: nat): (j: nat)
    requires i <= |s|
    ensures i <= j <= |s|
    ensures forall k :: i <= k < j ==> IsLabelChar(s[k])
    ensures j == |s| || !IsLabelChar(s[j])
    decreases |s| - i
  {
    if i == |s| || !IsLabelChar(s[i]) then i else SkipLabelChars(s, i + 1)
  }

  /** `\d+\s*[.)]\s+` matches at `k`. Backtracking into `\d+` or `\s*` cannot
      help, since neither `[.)]` nor a digit is whitespace, so the digit and
      space runs are taken whole. */
  predicate NumberedAt(s: string, k: nat)
    requires k <= |s|
  {
    k < |s| && IsDigit(s[k]) &&
    var f := SkipSpace(s, SkipDigits(s, k));
    f + 1 < |s| && (s[f] == '.' || s[f] == ')') && IsSpace(s[f + 1])
  }

  /** `[A-Z][A-Za-z0-9\s]{1,60}:` matches at `k`. Since `:` is outside the
      class, a match exists exactly when the maximal run of class characters
      after the capital has length 1 to 60 and is followed by `:`. */
  predicate LabelAt(s: string, k: nat)
    requires k <= |s|
  {
    k < |s| && IsUpper(s[k]) &&
    var e := SkipLabelChars(s, k + 1);
    1 <= e - (k + 1) <= 60 && e < |s| && s[e] == ':'
  }

  /** The lookahead holds at position `p`: a newline, then whitespace (which
      may hold further newlines), then a numbered or a label heading. The
      greedy `\s*` can only succeed at the end of the whitespace run, because
      both headings start with a non-space character. */
  predicate IsCut(s: string, p: nat)
    requires p < |s|
  {
    s[p] == '\n' && (NumberedAt(s, SkipSpace(s, p + 1)) || LabelAt(s, SkipSpace(s, p + 1)))
  }

  /** The pieces of `s[start..]` when it is cut at every position `>= i`
      where the lookahead holds; the current piece began at `start`. */
  function PiecesFrom(s: string, start: nat, i: nat): seq<string>
    requires start <= i <= |s|
    decreases |s| - i
  {
    if i == |s| then [s[start..]]
    else if IsCut(s, i) then [s[start..i]] + PiecesFrom(s, i, i + 1)
    else PiecesFrom(s, start, i + 1)
  }

  /** `re.split(lookahead, s)`: a zero-width match at 0 gives a leading "". */
  function LookaheadSplit(s: string): seq<string>
  {
    PiecesFrom(s, 0, 0)
  }

  lemma {:induction false} ConcatAllCons(x: string, xs: seq<string>)
    ensures ConcatAll([x] + xs) == x + ConcatAll(xs)
  {
    ConcatAllAppend([x], xs);
    assert [x][..0] == [];
    assert ConcatAll([x]) == x;
  }

  lemma {:induction false} PiecesConcat(s: string, start: nat, i: nat)
    requires start <= i <= |s|
    ensures ConcatAll(PiecesFrom(s, start, i)) == s[start..]
    decreases |s| - i
  {
    if i == |s| {
      assert [s[start..]][..0] == [];
      assert ConcatAll([s[start..]]) == ConcatAll([]) + s[start..];
    } else if IsCut(s, i) {
      var rest := PiecesFrom(s, i, i + 1);
      assert PiecesFrom(s, start, i) == [s[start..i]] + rest;
      PiecesConcat(s, i, i + 1);
      ConcatAllCons(s[start..i], rest);
      assert ConcatAll(rest) == s[i..];
      assert s[start..] == s[start..i] + s[i..];
    } else {
      assert PiecesFrom(s, start, i) == PiecesFrom(s, start, i + 1);
      PiecesConcat(s, start, i + 1);
    }
  }

  /** The first piece of `PiecesFrom(s, start, i)` is a slice of `s` that
      begins at `start` and reaches at least to `i`. */
  lemma {:induction false} PiecesFirst(s: string, start: nat, i: nat)
    requires start <= i <= |s|
    ensures var ps := PiecesFrom(s, start, i);
      |ps| >= 1 && start + |ps[0]| <= |s| && |ps[0]| >= i - start && ps[0] == s[start..start + |ps[0]|]
    decreases |s| - i
  {
    if i < |s| && !IsCut(s, i) {
      PiecesFirst(s, start, i + 1);
    }
  }

  /** Every piece after the first starts at a cut, that is, with the newline
      that the heading follows. */
  lemma {:induction false} PiecesStartAtCuts(s: string, start: nat, i: nat)
    requires start <= i <= |s|
    ensures forall k :: 1 <= k < |PiecesFrom(s, start, i)| ==>
      PiecesFrom(s, start, i)[k] != [] && PiecesFrom(s, start, i)[k][0] == '\n'
    decreases |s| - i
  {
    if i < |s| {
      if IsCut(s, i) {
        var rest := PiecesFrom(s, i, i + 1);
        PiecesStartAtCuts(s, i, i + 1);
        PiecesFirst(s, i, i + 1);
        assert rest[0][0] == s[i];
        var ps := [s[start..i]] + rest;
        assert forall k :: 1 <= k < |ps| ==> ps[k] == rest[k - 1];
      } else {
        assert PiecesFrom(s, start, i) == PiecesFrom(s, start, i + 1);
        PiecesStartAtCuts(s, start, i + 1);
      }
    }
  }

  /** Where the parts of `ps` after the first begin, when the first begins at
      position `base`. */
  function PartStarts(base: nat, ps: seq<string>): seq<nat>
    decreases |ps|
  {
    if |ps| <= 1 then [] else [base + |ps[0]|] + PartStarts(base + |ps[0]|, ps[1..])
  }

  /** Part `k + 1` begins after the characters of parts `0` to `k`. */
  lemma {:induction false} PartStartsSpec(base: nat, ps: seq<string>)
    ensures |PartStarts(base, ps)| == if ps == [] then 0 else |ps| - 1
    ensures forall k :: 0 <= k < |PartStarts(base, ps)| ==>
      PartStarts(base, ps)[k] == base + |ConcatAll(ps[..k + 1])|
    decreases |ps|
  {
    if |ps| > 1 {
      var x, rest := ps[0], ps[1..];
      var tail := PartStarts(base + |x|, rest);
      assert PartStarts(base, ps) == [base + |x|] + tail;
      PartStartsSpec(base + |x|, rest);
      forall k | 0 <= k < |PartStarts(base, ps)|
        ensures PartStarts(base, ps)[k] == base + |ConcatAll(ps[..k + 1])|
      {
        PrefixCons(ps, k);
        if k > 0 {
          assert PartStarts(base, ps)[k] == tail[k - 1];
        }
      }
    }
  }

  lemma PrefixCons(ps: seq<string>, k: nat)
    requires k < |ps|
    ensures |ConcatAll(ps[..k + 1])| == |ps[0]| + |ConcatAll(ps[1..][..k])|
  {
    assert ps[..k + 1] == [ps[0]] + ps[1..][..k];
    ConcatAllCons(ps[0], ps[1..][..k]);
  }

  /** The cut positions at or after `i`, listed in `qs`. */
  predicate CutsFrom(s: string, i: nat, qs: seq<nat>)
  {
    (forall q :: q in qs ==> i <= q < |s| && IsCut(s, q)) &&
    (forall p :: i <= p < |s| && IsCut(s, p) ==> p in qs)
  }

  lemma CutsFromCut(s: string, i: nat, qs: seq<nat>)
    requires i < |s| && IsCut(s, i) && CutsFrom(s, i + 1, qs)
    ensures CutsFrom(s, i, [i] + qs)
  {
  }

  lemma CutsFromSkip(s: string, i: nat, qs: seq<nat>)
    requires i < |s| && !IsCut(s, i) && CutsFrom(s, i + 1, qs)
    ensures CutsFrom(s, i, qs)
  {
  }

  /** The pieces after the first begin exactly at the cuts at or after `i`:
      each such piece begins at a cut, and each cut begins a piece. */
  lemma {:induction false} PiecesCuts(s: string, start: nat, i: nat)
    requires start <= i <= |s|
    ensures CutsFrom(s, i, PartStarts(start, PiecesFrom(s, start, i)))
    decreases |s| - i, 1
  {
    if i == |s| {
      assert |PiecesFrom(s, start, i)| == 1;
    } else if IsCut(s, i) {
      PiecesCutsAtCut(s, start, i);
    } else {
      assert PiecesFrom(s, start, i) == PiecesFrom(s, start, i + 1);
      PiecesCuts(s, start, i + 1);
      CutsFromSkip(s, i, PartStarts(start, PiecesFrom(s, start, i + 1)));
    }
  }

  /** The step of `PiecesCuts` at a cut. */
  lemma {:induction false} PiecesCutsAtCut(s: string, start: nat, i: nat)
    requires start <= i < |s| && IsCut(s, i)
    ensures CutsFrom(s, i, PartStarts(start, PiecesFrom(s, start, i)))
    decreases |s| - i, 0
  {
    var rest := PiecesFrom(s, i, i + 1);
    assert PartStarts(start, PiecesFrom(s, start, i)) == [i] + PartStarts(i, rest) by {
      assert PiecesFrom(s, start, i) == [s[start..i]] + rest;
      PiecesFirst(s, i, i + 1);
    }
    assert CutsFrom(s, i + 1, PartStarts(i, rest)) by {
      PiecesCuts(s, i, i + 1);
    }
    CutsFromCut(s, i, PartStarts(i, rest));
  }

  /** The lookahead split loses nothing: its parts concatenate back to the
      input. It splits exactly at the cuts: every part but the first begins
      with the newline of a position where the heading lookahead holds, and
      every such position begins a part. */
  lemma LookaheadSplitSpec(s: string)
    ensures ConcatAll(LookaheadSplit(s)) == s
    ensures forall k :: 1 <= k < |LookaheadSplit(s)| ==>
      LookaheadSplit(s)[k] != [] && LookaheadSplit(s)[k][0] == '\n'
    ensures forall q :: q in PartStarts(0, LookaheadSplit(s)) ==> q < |s| && IsCut(s, q)
    ensures forall p :: 0 <= p < |s| && IsCut(s, p) ==> p in PartStarts(0, LookaheadSplit(s))
  {
    PiecesConcat(s, 0, 0);
    PiecesStartAtCuts(s, 0, 0);
    assert CutsFrom(s, 0, PartStarts(0, LookaheadSplit(s))) by {
      PiecesCuts(s, 0, 0);
    }
  }

  // ---------------------------------------------------------------------------
  // Cleaning a part into its trimmed non-blank lines (app.py:66)
  // ---------------------------------------------------------------------------

  /** The lines of `s[start..]`, split at every line-break character at or
      after `i`. Unlike `str.splitlines()` this yields an empty last line and an
      empty line inside CR LF; both are blank, and every caller drops blank lines. */
  function LinesFrom(s: string, start: nat, i: nat): seq<string>
    requires start <= i <= |s|
    decreases |s| - i
  {
    if i == |s| then [s[start..]]
    else if IsLineBreak(s[i]) then [s[start..i]] + LinesFrom(s, i + 1, i + 1)
    else LinesFrom(s, start, i + 1)
  }

  function Lines(s: string): seq<string>
  {
    LinesFrom(s, 0, 0)
  }

  predicate NoLineBreak(s: string) {
    forall j :: 0 <= j < |s| ==> !IsLineBreak(s[j])
  }

  /** Cutting whitespace out of the middle of `s[start..]` keeps its
      non-whitespace characters. */
  lemma SpaceGap(s: string, start: nat, i: nat, e: nat)
    requires start <= i <= e <= |s|
    requires AllSpace(s[i..e])
    ensures NonWs(s[start..]) == NonWs(s[start..i]) + NonWs(s[e..])
  {
    var a, b, c := s[start..i], s[i..e], s[e..];
    assert s[start..] == a + (b + c);
    NonWsConcat(a, b + c);
    NonWsConcat(b, c);
    NonWsAllSpace(b);
  }

  lemma {:induction false} LinesFromNonWs(s: string, start: nat, i: nat)
    requires start <= i <= |s|
    ensures NonWs(ConcatAll(LinesFrom(s, start, i))) == NonWs(s[start..])
    decreases |s| - i
  {
    if i == |s| {
      assert [s[start..]][..0] == [];
      assert ConcatAll([s[start..]]) == s[start..];
    } else if IsLineBreak(s[i]) {
      var rest := LinesFrom(s, i + 1, i + 1);
      assert LinesFrom(s, start, i) == [s[start..i]] + rest;
      LinesFromNonWs(s, i + 1, i + 1);
      ConcatAllCons(s[start..i], rest);
      LineBreakIsSpace(s[i]);
      assert AllSpace(s[i..i + 1]);
      SpaceGap(s, start, i, i + 1);
      NonWsConcat(s[start..i], ConcatAll(rest));
    } else {
      LinesFromNonWs(s, start, i + 1);
    }
  }

  lemma {:induction false} LinesFromNoLineBreak(s: string, start: nat, i: nat)
    requires start <= i <= |s|
    requires NoLineBreak(s[start..i])
    ensures forall l :: l in LinesFrom(s, start, i) ==> NoLineBreak(l)
    decreases |s| - i
  {
    if i == |s| {
      assert LinesFrom(s, start, i) == [s[start..]];
    } else if IsLineBreak(s[i]) {
      var rest := LinesFrom(s, i + 1, i + 1);
      assert LinesFrom(s, start, i) == [s[start..i]] + rest;
      LinesFromNoLineBreak(s, i + 1, i + 1);
    } else {
      assert s[start..i + 1] == s[start..i] + [s[i]];
      LinesFromNoLineBreak(s, start, i + 1);
    }
  }

  /** `[x.strip() for x in xs if x.strip()]`. */
  function StripNonBlank(xs: seq<string>): (r: seq<string>)
    ensures forall c :: c in r ==> c != [] && Trimmed(c)
  {
    if xs == [] then []
    else
      var x := xs[|xs| - 1];
      StripSpec(x);
      StripNonBlank(xs[..|xs| - 1]) + (if Strip(x) != [] then [Strip(x)] else [])
  }

  lemma {:induction false} StripNonBlankNonWs(xs: seq<string>)
    ensures NonWs(ConcatAll(StripNonBlank(xs))) == NonWs(ConcatAll(xs))
    decreases |xs|
  {
    if xs != [] {
      var xs', x := xs[..|xs| - 1], xs[|xs| - 1];
      StripNonBlankNonWs(xs');
      var tail := if Strip(x) != [] then [Strip(x)] else [];
      ConcatAllAppend(StripNonBlank(xs'), tail);
      assert tail != [] ==> tail[..0] == [] && ConcatAll(tail) == Strip(x);
      assert ConcatAll(tail) == Strip(x);
      NonWsConcat(ConcatAll(StripNonBlank(xs')), Strip(x));
      NonWsConcat(ConcatAll(xs'), x);
      StripNonWs(x);
    }
  }

  lemma {:induction false} StripNonBlankNoLineBreak(xs: seq<string>)
    requires forall l :: l in xs ==> NoLineBreak(l)
    ensures forall c :: c in StripNonBlank(xs) ==> NoLineBreak(c)
    decreases |xs|
  {
    if xs != [] {
      var xs', x := xs[..|xs| - 1], xs[|xs| - 1];
      assert forall l :: l in xs' ==> l in xs;
      StripNonBlankNoLineBreak(xs');
      assert x in xs;
      var a := SkipSpace(x, 0);
      if a < |x| {
        var b := TrimEnd(x, |x|);
        assert forall j :: 0 <= j < |Strip(x)| ==> Strip(x)[j] == x[a + j];
      }
    }
  }

  /** `"\n".join(...)` of the trimmed non-blank lines of a part. */
  function CleanLines(p: string): string
  {
    Join("\n", StripNonBlank(Lines(p)))
  }

  /** No two newlines in a row: the joined lines contain no blank line. */
  predicate NoDoubleNewline(s: string) {
    forall i :: 0 <= i < |s| - 1 ==> !(s[i] == '\n' && s[i + 1] == '\n')
  }

  lemma {:induction false} JoinShape(xs: seq<string>)
    requires forall c :: c in xs ==> c != [] && Trimmed(c) && NoLineBreak(c)
    ensures var r := Join("\n", xs);
      (xs == [] <==> r == []) && Trimmed(r) && NoDoubleNewline(r)
      && (xs != [] ==> r[0] == xs[0][0])
    decreases |xs|
  {
    if |xs| > 1 {
      var x := xs[0];
      var rest := Join("\n", xs[1..]);
      assert forall c :: c in xs[1..] ==> c in xs;
      JoinShape(xs[1..]);
      var r := x + "\n" + rest;
      assert r == Join("\n", xs);
      assert x in xs;
      assert !IsSpace(x[0]) && !IsLineBreak(x[|x| - 1]);
      forall i | 0 <= i < |r| - 1
        ensures !(r[i] == '\n' && r[i + 1] == '\n')
      {
        if i < |x| {
          assert r[i] == x[i];
          assert !IsLineBreak(x[i]);
        } else if i > |x| {
          assert r[i] == rest[i - |x| - 1] && r[i + 1] == rest[i - |x|];
        } else {
          assert r[i + 1] == rest[0] == xs[1][0];
          assert xs[1] in xs;
        }
      }
    } else if |xs| == 1 {
      assert xs[0] in xs;
      assert forall i :: 0 <= i < |xs[0]| ==> !IsLineBreak(xs[0][i]);
    }
  }

  /** What cleaning a part promises: it keeps the part's non-whitespace
      characters in order, it is trimmed, and it has no blank line. */
  lemma CleanLinesSpec(p: string)
    ensures NonWs(CleanLines(p)) == NonWs(p)
    ensures Trimmed(CleanLines(p))
    ensures NoDoubleNewline(CleanLines(p))
  {
    assert p[0..0] == [] && p[0..] == p;
    LinesFromNonWs(p, 0, 0);
    LinesFromNoLineBreak(p, 0, 0);
    StripNonBlankNoLineBreak(Lines(p));
    JoinShape(StripNonBlank(Lines(p)));
    forall c | c in "\n" ensures IsSpace(c) {}
    JoinNonWs("\n", StripNonBlank(Lines(p)));
    StripNonBlankNonWs(Lines(p));
  }

  // ---------------------------------------------------------------------------
  // The paragraph sub-split `re.split(r'\n{2,}', p_clean)` (app.py:69)
  // ---------------------------------------------------------------------------

  function NewlineRunEnd(s: string, i: nat): (j: nat)
    requires i <= |s|
    ensures i <= j <= |s|
    ensures forall k :: i <= k < j ==> s[k] == '\n'
    decreases |s| - i
  {
    if i == |s| || s[i] != '\n' then i else NewlineRunEnd(s, i + 1)
  }

  /** The pieces of `s[start..]` cut at every run of two or more newlines found
      at or after `i`, leftmost first, each run consumed whole. */
  function ParagraphsFrom(s: string, start: nat, i: nat): seq<string>
    requires start <= i <= |s|
    decreases |s| - i
  {
    if i + 1 >= |s| then [s[start..]]
    else if s[i] == '\n' && s[i + 1] == '\n' then
      var e := NewlineRunEnd(s, i);
      [s[start..i]] + ParagraphsFrom(s, e, e)
    else ParagraphsFrom(s, start, i + 1)
  }

  function ParagraphSplit(s: string): seq<string>
  {
    ParagraphsFrom(s, 0, 0)
  }

  lemma {:induction false} ParagraphsFromNoRun(s: string, start: nat, i: nat)
    requires start <= i <= |s|
    requires NoDoubleNewline(s)
    ensures ParagraphsFrom(s, start, i) == [s[start..]]
    decreases |s| - i
  {
    if i + 1 < |s| {
      ParagraphsFromNoRun(s, start, i + 1);
    }
  }

  /** What one part contributes to the clause list: nothing when it is blank,
      otherwise the trimmed non-blank pieces of its paragraph sub-split. */
  function Contribution(p: string): seq<string>
  {
    var c := CleanLines(p);
    if c == [] then [] else StripNonBlank(ParagraphSplit(c))
  }

  /** The paragraph sub-split never fires, because cleaning has already removed
      every blank line: a non-blank part contributes exactly one clause, its
      trimmed non-blank lines joined by newlines. */
  lemma ContributionIsCleanLines(p: string)
    ensures Contribution(p) == if CleanLines(p) == [] then [] else [CleanLines(p)]
  {
    var c := CleanLines(p);
    CleanLinesSpec(p);
    if c != [] {
      ParagraphsFromNoRun(c, 0, 0);
      assert c[0..] == c;
      assert ParagraphSplit(c) == [c];
      StripTrimmed(c);
      assert [c][..0] == [];
      assert StripNonBlank([c]) == StripNonBlank([]) + [Strip(c)];
    }
  }

  /** The clause list the first loop builds from the parts (app.py:64-70). */
  function Structural(parts: seq<string>): seq<string>
  {
    if parts == [] then []
    else Structural(parts[..|parts| - 1]) + Contribution(parts[|parts| - 1])
  }

  /** The structural clauses hold exactly the non-whitespace characters of the
      parts, in order, and every one of them is non-empty and trimmed. */
  lemma {:induction false} StructuralSpec(parts: seq<string>)
    ensures NonWs(ConcatAll(Structural(parts))) == NonWs(ConcatAll(parts))
    ensures forall c :: c in Structural(parts) ==> c != [] && Trimmed(c)
    decreases |parts|
  {
    if parts != [] {
      var ps, p := parts[..|parts| - 1], parts[|parts| - 1];
      StructuralSpec(ps);
      ContributionIsCleanLines(p);
      CleanLinesSpec(p);
      var c := CleanLines(p);
      ConcatAllAppend(Structural(ps), Contribution(p));
      if c == [] {
        assert ConcatAll(Contribution(p)) == [];
      } else {
        assert [c][..0] == [];
        assert ConcatAll(Contribution(p)) == c;
      }
      NonWsConcat(ConcatAll(Structural(ps)), ConcatAll(Contribution(p)));
      NonWsConcat(ConcatAll(ps), p);
    }
  }

  // ---------------------------------------------------------------------------
  // The short-fragment policy (app.py:72-80)
  // ---------------------------------------------------------------------------

  predicate IsShoutChar(c: char) {
    IsUpper(c) || IsDigit(c) || c == ' ' || c == '&'
  }

  predicate AllShout(s: string) {
    forall i :: 0 <= i < |s| ==> IsShoutChar(s[i])
  }

  /** `re.match(r'^[A-Z0-9 &]{3,}$', c)`; `$` also matches just before a
      final newline. */
  predicate IsShoutLabel(c: string) {
    (|c| >= 3 && AllShout(c)) || (|c| >= 4 && c[|c| - 1] == '\n' && AllShout(c[..|c| - 1]))
  }

  /** A fragment shorter than 10 characters survives only as a shouting label. */
  predicate Keep(c: string) {
    !(|c| < 10) || IsShoutLabel(c)
  }

  /** The list the second loop builds (app.py:72-80). */
  function KeepFragments(cs: seq<string>): seq<string>
  {
    if cs == [] then []
    else KeepFragments(cs[..|cs| - 1]) + (if Keep(cs[|cs| - 1]) then [cs[|cs| - 1]] else [])
  }

  /** The fragment filter keeps exactly the clauses that pass the policy, in
      their original order. */
  lemma {:induction false} KeepFragmentsSpec(cs: seq<string>)
    ensures IsSubseq(KeepFragments(cs), cs)
    ensures forall c :: c in KeepFragments(cs) <==> c in cs && Keep(c)
    ensures forall c :: multiset(KeepFragments(cs))[c] == if Keep(c) then multiset(cs)[c] else 0
    decreases |cs|
  {
    KeepFragmentsCount(cs);
    if cs == [] {
    } else {
      var cs', c := cs[..|cs| - 1], cs[|cs| - 1];
      KeepFragmentsSpec(cs');
      assert cs == cs' + [c];
      if Keep(c) {
        SubseqRefl([c]);
        SubseqAppend(KeepFragments(cs'), cs', [c], [c]);
      } else {
        SubseqAppend(KeepFragments(cs'), cs', [], [c]);
        assert KeepFragments(cs') + [] == KeepFragments(cs');
      }
    }
  }

  /** Every occurrence of a clause that passes the policy survives, and no
      occurrence of one that fails it. */
  lemma {:induction false} KeepFragmentsCount(cs: seq<string>)
    ensures forall c :: multiset(KeepFragments(cs))[c] == if Keep(c) then multiset(cs)[c] else 0
    decreases |cs|
  {
    if cs != [] {
      var cs', x := cs[..|cs| - 1], cs[|cs| - 1];
      KeepFragmentsCount(cs');
      assert cs == cs' + [x];
      assert multiset(cs) == multiset(cs') + multiset{x};
    }
  }

  // ---------------------------------------------------------------------------
  // The sentence fallback (app.py:82-84)
  // ---------------------------------------------------------------------------

  predicate IsSentenceEnd(c: char) {
    c == '.' || c == '?' || c == '!'
  }

  /** Whether a sentence break lies in `p` between its characters `j - 1` and
      `j`: `.`, `?` or `!` followed by whitespace. */
  predicate BreakAt(p: string, j: int)
  {
    0 < j < |p| && IsSentenceEnd(p[j - 1]) && IsSpace(p[j])
  }

  /** `re.split(r'(?<=[.?!])\s+', s)` on `s[start..]`, searching from `i`: a
      whitespace run preceded by `.`, `?` or `!` is consumed whole. */
  function SentencesFrom(s: string, start: nat, i: nat): seq<string>
    requires start <= i <= |s|
    decreases |s| - i
  {
    if i == |s| then [s[start..]]
    else if BreakAt(s, i) then
      var e := SkipSpace(s, i);
      [s[start..i]] + SentencesFrom(s, e, e)
    else SentencesFrom(s, start, i + 1)
  }

  lemma {:induction false} SentencesFromNonWs(s: string, start: nat, i: nat)
    requires start <= i <= |s|
    ensures NonWs(ConcatAll(SentencesFrom(s, start, i))) == NonWs(s[start..])
    decreases |s| - i
  {
    if i == |s| {
      assert [s[start..]][..0] == [];
      assert ConcatAll([s[start..]]) == s[start..];
    } else if BreakAt(s, i) {
      var e := SkipSpace(s, i);
      var rest := SentencesFrom(s, e, e);
      assert SentencesFrom(s, start, i) == [s[start..i]] + rest;
      SentencesFromNonWs(s, e, e);
      ConcatAllCons(s[start..i], rest);
      assert AllSpace(s[i..e]);
      SpaceGap(s, start, i, e);
      NonWsConcat(s[start..i], ConcatAll(rest));
    } else {
      SentencesFromNonWs(s, start, i + 1);
    }
  }

  /** `[x.strip() for x in xs if len(x.strip()) > 5]`. */
  function LongSentences(xs: seq<string>): (r: seq<string>)
  {
    if xs == [] then []
    else
      var x := xs[|xs| - 1];
      LongSentences(xs[..|xs| - 1]) + (if |Strip(x)| > 5 then [Strip(x)] else [])
  }

  /** The sentences kept are the stripped pieces, in order, that are longer
      than five characters: all of those and nothing else. */
  lemma {:induction false} LongSentencesOrder(xs: seq<string>)
    ensures IsSubseq(LongSentences(xs), MapSeq(Strip, xs))
    ensures forall c :: c in LongSentences(xs) <==> c in MapSeq(Strip, xs) && |c| > 5
    decreases |xs|
  {
    if xs != [] {
      var xs', x := xs[..|xs| - 1], xs[|xs| - 1];
      LongSentencesOrder(xs');
      assert MapSeq(Strip, xs) == MapSeq(Strip, xs') + [Strip(x)];
      if |Strip(x)| > 5 {
        assert LongSentences(xs) == LongSentences(xs') + [Strip(x)];
        SubseqRefl([Strip(x)]);
        SubseqAppend(LongSentences(xs'), MapSeq(Strip, xs'), [Strip(x)], [Strip(x)]);
      } else {
        assert LongSentences(xs) == LongSentences(xs');
        SubseqAppend(LongSentences(xs'), MapSeq(Strip, xs'), [], [Strip(x)]);
        assert LongSentences(xs') + [] == LongSentences(xs');
      }
    }
  }

  /** The kept sentences are trimmed, longer than five characters, and carry
      only non-whitespace characters of the pieces, in order. */
  lemma {:induction false} LongSentencesContent(xs: seq<string>)
    ensures forall c :: c in LongSentences(xs) ==> |c| > 5 && Trimmed(c)
    ensures IsSubseq(NonWs(ConcatAll(LongSentences(xs))), NonWs(ConcatAll(xs)))
    decreases |xs|
  {
    if xs == [] {
      SubseqRefl(NonWs(ConcatAll(xs)));
    } else {
      var xs', x := xs[..|xs| - 1], xs[|xs| - 1];
      LongSentencesContent(xs');
      StripSpec(x);
      StripNonWs(x);
      var tail := if |Strip(x)| > 5 then [Strip(x)] else [];
      var part := if |Strip(x)| > 5 then Strip(x) else [];
      ConcatAllAppend(LongSentences(xs'), tail);
      assert tail != [] ==> tail[..0] == [];
      assert ConcatAll(tail) == part;
      NonWsConcat(ConcatAll(LongSentences(xs')), part);
      NonWsConcat(ConcatAll(xs'), x);
      if |Strip(x)| > 5 {
        SubseqRefl(NonWs(x));
        SubseqAppend(NonWs(ConcatAll(LongSentences(xs'))), NonWs(ConcatAll(xs')), NonWs(x), NonWs(x));
      } else {
        assert NonWs(part) == [];
        SubseqAppend(NonWs(ConcatAll(LongSentences(xs'))), NonWs(ConcatAll(xs')), [], NonWs(x));
        assert NonWs(ConcatAll(LongSentences(xs'))) + [] == NonWs(ConcatAll(LongSentences(xs')));
      }
    }
  }

  /** Every occurrence of a stripped piece longer than five characters
      survives, and no occurrence of a shorter one. */
  lemma {:induction false} LongSentencesCount(xs: seq<string>)
    ensures forall c :: multiset(LongSentences(xs))[c] == if |c| > 5 then multiset(MapSeq(Strip, xs))[c] else 0
    decreases |xs|
  {
    if xs != [] {
      var xs', x := xs[..|xs| - 1], xs[|xs| - 1];
      LongSentencesCount(xs');
      assert MapSeq(Strip, xs) == MapSeq(Strip, xs') + [Strip(x)];
      assert multiset(MapSeq(Strip, xs)) == multiset(MapSeq(Strip, xs')) + multiset{Strip(x)};
    }
  }

  lemma LongSentencesSpec(xs: seq<string>)
    ensures forall c :: c in LongSentences(xs) ==> |c| > 5 && Trimmed(c)
    ensures IsSubseq(LongSentences(xs), MapSeq(Strip, xs))
    ensures forall c :: c in LongSentences(xs) <==> c in MapSeq(Strip, xs) && |c| > 5
    ensures forall c :: multiset(LongSentences(xs))[c] == if |c| > 5 then multiset(MapSeq(Strip, xs))[c] else 0
    ensures IsSubseq(NonWs(ConcatAll(LongSentences(xs))), NonWs(ConcatAll(xs)))
  {
    LongSentencesOrder(xs);
    LongSentencesCount(xs);
    LongSentencesContent(xs);
  }

  /** The pieces `re.split(r'(?<=[.?!])\s+', t)` returns. */
  function SentencePieces(t: string): seq<string>
  {
    SentencesFrom(t, 0, 0)
  }

  /** A piece that ends a sentence: non-empty, with `.`, `?` or `!` last. */
  predicate EndsSentence(p: string)
  {
    p != [] && IsSentenceEnd(p[|p| - 1])
  }

  /** A piece that begins past the whitespace run before it. */
  predicate StartsPastSpace(p: string)
  {
    p == [] || !IsSpace(p[0])
  }

  predicate NoInnerBreak(p: string)
  {
    forall j :: 0 < j < |p| ==> !BreakAt(p, j)
  }

  /** Where the pieces end: every piece but the last ends a sentence, every
      piece after the first starts past the whitespace run, and no piece holds
      a sentence break inside it. */
  predicate SentenceShaped(ps: seq<string>)
  {
    |ps| >= 1 &&
    (forall k :: 0 <= k < |ps| - 1 ==> EndsSentence(ps[k])) &&
    (forall k :: 1 <= k < |ps| ==> StartsPastSpace(ps[k])) &&
    (forall k :: 0 <= k < |ps| ==> NoInnerBreak(ps[k]))
  }

  lemma SentenceShapedCons(p: string, rest: seq<string>)
    requires EndsSentence(p) && NoInnerBreak(p)
    requires SentenceShaped(rest) && StartsPastSpace(rest[0])
    ensures SentenceShaped([p] + rest)
  {
    var ps := [p] + rest;
    assert forall k :: 1 <= k < |ps| ==> ps[k] == rest[k - 1];
  }

  /** A slice with no break between its characters holds no break. */
  lemma NoBreakInSlice(s: string, start: nat, i: nat)
    requires start <= i <= |s|
    requires forall j :: start < j < i ==> !BreakAt(s, j)
    ensures NoInnerBreak(s[start..i])
  {
    var p := s[start..i];
    forall j | 0 < j < |p| ensures !BreakAt(p, j) {
      assert p[j - 1] == s[start + j - 1] && p[j] == s[start + j];
      assert !BreakAt(s, start + j);
    }
  }

  lemma {:induction false} SentencesFromShape(s: string, start: nat, i: nat)
    requires start <= i <= |s|
    requires start == 0 || IsSpace(s[start - 1])
    requires forall j :: start < j < i ==> !BreakAt(s, j)
    ensures SentenceShaped(SentencesFrom(s, start, i))
    ensures SentencesFrom(s, start, i)[0] <= s[start..]
    decreases |s| - i, 1
  {
    if i == |s| {
      assert SentencesFrom(s, start, i) == [s[start..]];
      assert NoInnerBreak(s[start..]) by {
        NoBreakInSlice(s, start, i);
        assert s[start..i] == s[start..];
      }
    } else if BreakAt(s, i) {
      SentencesCutShape(s, start, i);
    } else {
      assert SentencesFrom(s, start, i) == SentencesFrom(s, start, i + 1);
      assert forall j :: start < j < i + 1 ==> !BreakAt(s, j);
      SentencesFromShape(s, start, i + 1);
    }
  }

  /** The step of `SentencesFromShape` at a sentence break. */
  lemma {:induction false} SentencesCutShape(s: string, start: nat, i: nat)
    requires start <= i < |s| && BreakAt(s, i)
    requires start == 0 || IsSpace(s[start - 1])
    requires forall j :: start < j < i ==> !BreakAt(s, j)
    ensures SentenceShaped(SentencesFrom(s, start, i))
    ensures SentencesFrom(s, start, i)[0] <= s[start..]
    decreases |s| - i, 0
  {
    var e := SkipSpace(s, i);
    var p := s[start..i];
    var rest := SentencesFrom(s, e, e);
    assert SentencesFrom(s, start, i) == [p] + rest;
    assert EndsSentence(p) && NoInnerBreak(p) by {
      assert start < i;
      NoBreakInSlice(s, start, i);
    }
    assert SentenceShaped(rest) && StartsPastSpace(rest[0]) by {
      assert e > i && IsSpace(s[e - 1]);
      SentencesFromShape(s, e, e);
      assert rest[0] != [] ==> rest[0][0] == s[e..][0];
    }
    SentenceShapedCons(p, rest);
  }

  /** The sentence-break positions of `s` at or after `i`, in increasing order. */
  function BreaksFrom(s: string, i: nat): seq<nat>
    requires i <= |s|
    decreases |s| - i
  {
    if i == |s| then []
    else (if BreakAt(s, i) then [i] else []) + BreaksFrom(s, i + 1)
  }

  /** Every position of `s` where a sentence break lies. */
  function Breaks(s: string): seq<nat>
  {
    BreaksFrom(s, 0)
  }

  lemma {:induction false} BreaksFromSpec(s: string, i: nat)
    requires i <= |s|
    ensures forall q :: q in BreaksFrom(s, i) <==> i <= q && BreakAt(s, q)
    decreases |s| - i
  {
    if i < |s| {
      BreaksFromSpec(s, i + 1);
    }
  }

  /** No break lies inside the whitespace run after position `i`. */
  lemma {:induction false} BreaksSkipSpace(s: string, i: nat, j: nat)
    requires i < |s| && i < j <= SkipSpace(s, i)
    ensures BreaksFrom(s, j) == BreaksFrom(s, SkipSpace(s, i))
    decreases SkipSpace(s, i) - j
  {
    if j < SkipSpace(s, i) {
      assert IsSpace(s[j - 1]) && !BreakAt(s, j);
      BreaksSkipSpace(s, i, j + 1);
    }
  }

  /** `ps` are the slices of `s` from `a` on, cut at the ascending positions
      `bs`: each piece ends at the next position of `bs` (the last one at the
      end of `s`), and the piece after it begins once the whitespace run there
      is skipped. */
  predicate SlicesAt(s: string, a: nat, bs: seq<nat>, ps: seq<string>)
    decreases |ps|
  {
    a <= |s| && |ps| == |bs| + 1 &&
    if bs == [] then ps[0] == s[a..]
    else a <= bs[0] <= |s| && ps[0] == s[a..bs[0]] && SlicesAt(s, SkipSpace(s, bs[0]), bs[1..], ps[1..])
  }

  lemma {:induction false} SentencesSlices(s: string, start: nat, i: nat)
    requires start <= i <= |s|
    ensures SlicesAt(s, start, BreaksFrom(s, i), SentencesFrom(s, start, i))
    decreases |s| - i
  {
    if i < |s| {
      if BreakAt(s, i) {
        var e := SkipSpace(s, i);
        var bs, ps := BreaksFrom(s, i), SentencesFrom(s, start, i);
        SentencesSlices(s, e, e);
        BreaksSkipSpace(s, i, i + 1);
        assert bs == [i] + BreaksFrom(s, e);
        assert ps == [s[start..i]] + SentencesFrom(s, e, e);
        assert bs[1..] == BreaksFrom(s, e) && ps[1..] == SentencesFrom(s, e, e);
      } else {
        SentencesSlices(s, start, i + 1);
        assert BreaksFrom(s, i) == BreaksFrom(s, i + 1);
      }
    }
  }

  /** The sentence split cuts `t` at exactly its sentence breaks: the pieces
      are the slices of `t` between consecutive breaks, with the whitespace
      after each break dropped, and every break of `t` ends a piece. */
  lemma SentencePiecesSlices(t: string)
    ensures SlicesAt(t, 0, Breaks(t), SentencePieces(t))
    ensures forall q :: q in Breaks(t) <==> BreakAt(t, q)
  {
    SentencesSlices(t, 0, 0);
    BreaksFromSpec(t, 0);
  }

  function Fallback(t: string): seq<string>
  {
    LongSentences(SentencePieces(t))
  }

  /** The sentence split carries every non-whitespace character of `t`, in
      order; its pieces are the slices of `t` between the positions where `.`,
      `?` or `!` is followed by whitespace, and it cuts at every such position
      and no other; and the fallback keeps exactly the stripped pieces longer
      than five characters, in order and with every repetition. */
  lemma FallbackSpec(t: string)
    ensures NonWs(ConcatAll(SentencePieces(t))) == NonWs(t)
    ensures SentenceShaped(SentencePieces(t))
    ensures SlicesAt(t, 0, Breaks(t), SentencePieces(t))
    ensures forall q :: q in Breaks(t) <==> BreakAt(t, q)
    ensures forall c :: c in Fallback(t) ==> |c| > 5 && Trimmed(c)
    ensures IsSubseq(Fallback(t), MapSeq(Strip, SentencePieces(t)))
    ensures forall c :: c in Fallback(t) <==> c in MapSeq(Strip, SentencePieces(t)) && |c| > 5
    ensures forall c :: multiset(Fallback(t))[c] == if |c| > 5 then multiset(MapSeq(Strip, SentencePieces(t)))[c] else 0
    ensures IsSubseq(NonWs(ConcatAll(Fallback(t))), NonWs(t))
  {
    LongSentencesSpec(SentencePieces(t));
    SentencesFromNonWs(t, 0, 0);
    SentencesFromShape(t, 0, 0);
    SentencePiecesSlices(t);
    assert t[0..] == t;
  }

  // ---------------------------------------------------------------------------
  // The whole segmenter
  // ---------------------------------------------------------------------------

  /** The structural clauses of normalised, stripped, non-empty text. */
  function StructuralClauses(t: string): seq<string>
  {
    Structural(LookaheadSplit("\n" + t))
  }

  /** What `simple_clause_split(text)` returns. */
  function Segment(text: string): seq<string>
  {
    var t := Strip(Normalize(text));
    if t == [] then []
    else
      var final := KeepFragments(StructuralClauses(t));
      if |final| < 3 then Fallback(t) else final
  }

  lemma {:induction false} NonWsEmptyAllSpace(s: string)
    requires NonWs(s) == []
    ensures AllSpace(s)
    decreases |s|
  {
    if s != [] {
      assert s == [s[0]] + s[1..];
      NonWsConcat([s[0]], s[1..]);
      assert NonWs([s[0]]) == [];
      NonWsEmptyAllSpace(s[1..]);
      assert forall i :: 1 <= i < |s| ==> s[i] == s[1..][i - 1];
    }
  }

  /** The structural clauses of `t` hold exactly the non-whitespace characters
      of `text`, in order. */
  lemma StructuralCoverage(text: string)
    ensures var t := Strip(Normalize(text));
      NonWs(ConcatAll(StructuralClauses(t))) == NonWs(text)
  {
    var t := Strip(Normalize(text));
    StructuralSpec(LookaheadSplit("\n" + t));
    LookaheadSplitSpec("\n" + t);
    NonWsConcat("\n", t);
    NonWsAllSpace("\n");
    StripNonWs(Normalize(text));
    NormalizeSpec(text);
  }

  /** Blank text gives no clauses. */
  lemma SegmentBlank(text: string)
    requires AllSpace(text)
    ensures Segment(text) == []
  {
    NonWsAllSpace(text);
    NormalizeSpec(text);
    NonWsEmptyAllSpace(Normalize(text));
    StripSpec(Normalize(text));
  }

  /** Every clause the segmenter returns is non-empty and trimmed, and the
      non-whitespace characters of the clauses, read in order, are the input's
      with only dropped fragments or sentences missing. */
  lemma SegmentSpec(text: string)
    ensures forall c :: c in Segment(text) ==> c != [] && Trimmed(c)
    ensures IsSubseq(NonWs(ConcatAll(Segment(text))), NonWs(text))
  {
    var t := Strip(Normalize(text));
    if t == [] {
      SubseqEmpty(NonWs(text));
    } else {
      var cs := StructuralClauses(t);
      var final := KeepFragments(cs);
      StructuralSpec(LookaheadSplit("\n" + t));
      KeepFragmentsSpec(cs);
      NormalizeSpec(text);
      StripNonWs(Normalize(text));
      if |final| < 3 {
        assert (forall c :: c in Fallback(t) ==> |c| > 5 && Trimmed(c))
          && IsSubseq(NonWs(ConcatAll(Fallback(t))), NonWs(t)) by {
          FallbackSpec(t);
        }
      } else {
        StructuralCoverage(text);
        SubseqConcatAll(final, cs);
        SubseqNonWs(ConcatAll(final), ConcatAll(cs));
      }
    }
  }

  /** When the structural split yields three or more surviving clauses, they
      are the result: each passes the fragment policy, every structural clause
      that passes it is kept, and their order is the text's. Otherwise the
      result is the sentence fallback, whose sentences are all longer than five
      characters. */
  lemma SegmentCases(text: string)
    requires Strip(Normalize(text)) != []
    ensures var t := Strip(Normalize(text));
      var cs := StructuralClauses(t);
      var final := KeepFragments(cs);
      (|final| >= 3 ==>
        Segment(text) == final && IsSubseq(final, cs)
        && (forall c :: c in final <==> c in cs && Keep(c))
        && (forall c :: multiset(final)[c] == if Keep(c) then multiset(cs)[c] else 0))
      && (|final| < 3 ==>
        Segment(text) == Fallback(t) && forall c :: c in Segment(text) ==> |c| > 5)
  {
    var t := Strip(Normalize(text));
    KeepFragmentsSpec(StructuralClauses(t));
    assert forall c :: c in Fallback(t) ==> |c| > 5 by {
      FallbackSpec(t);
    }
  }

  /** The first loop of `simple_clause_split` (app.py:64-70): each part is
      cleaned, blank parts are skipped, the rest are sub-split and appended. */
  method CollectClauses(parts: seq<string>) returns (clauses: seq<string>)
    ensures clauses == Structural(parts)
  {
    clauses := [];
    var k := 0;
    while k < |parts|
      invariant 0 <= k <= |parts|
      invariant clauses == Structural(parts[..k])
    {
      var pClean := CleanLines(parts[k]);
      assert parts[..k + 1][..k] == parts[..k];
      if pClean != [] {
        var subs := StripNonBlank(ParagraphSplit(pClean));
        clauses := clauses + subs;
      }
      k := k + 1;
    }
    assert parts[..k] == parts;
  }

  /** The second loop of `simple_clause_split` (app.py:72-80): fragments
      shorter than 10 characters survive only as shouting labels. */
  method DropShortFragments(clauses: seq<string>) returns (final: seq<string>)
    ensures final == KeepFragments(clauses)
  {
    final := [];
    var j := 0;
    while j < |clauses|
      invariant 0 <= j <= |clauses|
      invariant final == KeepFragments(clauses[..j])
    {
      var c := clauses[j];
      assert clauses[..j + 1][..j] == clauses[..j];
      if |c| < 10 {
        if IsShoutLabel(c) {
          final := final + [c];
        }
      } else {
        final := final + [c];
      }
      j := j + 1;
    }
    assert clauses[..j] == clauses;
  }

  /** `simple_clause_split` (app.py:56-86). */
  method SimpleClauseSplit(text: string) returns (clauses: seq<string>)
    ensures clauses == Segment(text)
    ensures forall c :: c in clauses ==> c != [] && Trimmed(c)
    ensures AllSpace(text) ==> clauses == []
    ensures IsSubseq(NonWs(ConcatAll(clauses)), NonWs(text))
  {
    SegmentSpec(text);
    if AllSpace(text) {
      SegmentBlank(text);
    }
    var t := Strip(Normalize(text));
    if t == [] {
      return [];
    }
    var padded := "\n" + t;
    var parts := LookaheadSplit(padded);
    var structural := CollectClauses(parts);
    var final := DropShortFragments(structural);
    if |final| < 3 {
      clauses := Fallback(t);
    } else {
      clauses := final;
    }
  }
}

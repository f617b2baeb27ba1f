/** Character classes and string operations of the Python runtime that the
    analysis pipeline relies on (`str.strip`, `str.lower`, `in`,
    `str.splitlines`, the regex classes `\s`, `\d`, `\w`), restricted to ASCII. */
module Text {

  datatype Option<T> = None | Some(value: T)

  /** Python's `str.isspace()` and the regex class `\s` on ASCII characters. */
  predicate IsSpace(c: char) {
    c == ' ' || c == '\t' || c == '\n' || c == '\r'
    || c == '\U{000B}' || c == '\U{000C}' || ('\U{001C}' <= c <= '\U{001F}')
  }

  /** The ASCII characters at which `str.splitlines()` ends a line. */
  predicate IsLineBreak(c: char) {
    c == '\n' || c == '\r' || c == '\U{000B}' || c == '\U{000C}' || ('\U{001C}' <= c <= '\U{001E}')
  }

  predicate IsDigit(c: char) { '0' <= c <= '9' }
  predicate IsUpper(c: char) { 'A' <= c <= 'Z' }
  predicate IsLowerLetter(c: char) { 'a' <= c <= 'z' }

  /** The regex class `\w`: letters, digits and underscore. */
  predicate IsWordChar(c: char) { IsDigit(c) || IsUpper(c) || IsLowerLetter(c) || c == '_' }

  lemma LineBreakIsSpace(c: char)
    ensures IsLineBreak(c) ==> IsSpace(c)
  {}

  function LowerChar(c: char): char {
    if IsUpper(c) then (c as int + 32) as char else c
  }

  /** `str.lower()`: maps every upper-case letter to its lower-case letter. */
  function Lower(s: string): (r: string)
    ensures |r| == |s|
    ensures forall i :: 0 <= i < |s| ==> r[i] == LowerChar(s[i])
  {
    if s == [] then [] else [LowerChar(s[0])] + Lower(s[1..])
  }

  /** A string without upper-case letters is its own lower-case form. */
  lemma LowerNoUpper(s: string)
    requires forall i :: 0 <= i < |s| ==> !IsUpper(s[i])
    ensures Lower(s) == s
  {}

  /** The first index at or after `i` that does not hold whitespace. */
  function SkipSpace(s: string, i: nat): (j: nat)
    requires i <= |s|
    ensures i <= j <= |s|
    ensures forall k :: i <= k < j ==> IsSpace(s[k])
    ensures j == |s| || !IsSpace(s[j])
    decreases |s| - i
  {
    if i == |s| || !IsSpace(s[i]) then i else SkipSpace(s, i + 1)
  }

  /** The first index at or after `i` that does not hold a decimal digit. */
  function SkipDigits(s: string, i: nat): (j: nat)
    requires i <= |s|
    ensures i <= j <= |s|
    ensures forall k :: i <= k < j ==> IsDigit(s[k])
    ensures j == |s| || !IsDigit(s[j])
    decreases |s| - i
  {
    if i == |s| || !IsDigit(s[i]) then i else SkipDigits(s, i + 1)
  }

  /** The end of `s[..j]` once its trailing whitespace is cut off. */
  function TrimEnd(s: string, j: nat): (e: nat)
    requires j <= |s|
    ensures e <= j
    ensures forall k :: e <= k < j ==> IsSpace(s[k])
    ensures e == 0 || !IsSpace(s[e - 1])
  {
    if j == 0 || !IsSpace(s[j - 1]) then j else TrimEnd(s, j - 1)
  }

  /** `str.strip()`: leading and trailing whitespace removed. */
  function Strip(s: string): (r: string)
  {
    var a := SkipSpace(s, 0);
    if a == |s| then [] else s[a..TrimEnd(s, |s|)]
  }

  /** The string has no whitespace at either end (it is a `str.strip()` fixed point). */
  predicate Trimmed(s: string) {
    s == [] || (!IsSpace(s[0]) && !IsSpace(s[|s| - 1]))
  }

  predicate AllSpace(s: string) {
    forall i :: 0 <= i < |s| ==> IsSpace(s[i])
  }

  /** What strip does: it is empty exactly for blank input, it removes only
      whitespace from the ends, and it leaves a trimmed string. */
  lemma StripSpec(s: string)
    ensures Strip(s) == [] <==> AllSpace(s)
    ensures Trimmed(Strip(s))
  {
    var a := SkipSpace(s, 0);
    if a < |s| {
      assert !IsSpace(s[a]);
      assert a < TrimEnd(s, |s|);
    }
  }

  lemma StripTrimmed(s: string)
    requires Trimmed(s)
    ensures Strip(s) == s
  {
    if s != [] {
      assert SkipSpace(s, 0) == 0;
      assert TrimEnd(s, |s|) == |s|;
    }
  }

  /** Non-whitespace characters of `s`, in order. */
  function NonWs(s: string): string
  {
    if s == [] then [] else (if IsSpace(s[0]) then [] else [s[0]]) + NonWs(s[1..])
  }

  lemma {:induction false} NonWsConcat(a: string, b: string)
    ensures NonWs(a + b) == NonWs(a) + NonWs(b)
  {
    if a == [] {
      assert a + b == b;
    } else {
      assert (a + b)[1..] == a[1..] + b;
      NonWsConcat(a[1..], b);
    }
  }

  lemma {:induction false} NonWsAllSpace(s: string)
    requires AllSpace(s)
    ensures NonWs(s) == []
  {
    if s != [] {
      NonWsAllSpace(s[1..]);
    }
  }

  /** Stripping removes whitespace only. */
  lemma StripNonWs(s: string)
    ensures NonWs(Strip(s)) == NonWs(s)
  {
    var a := SkipSpace(s, 0);
    if a == |s| {
      NonWsAllSpace(s);
    } else {
      var b := TrimEnd(s, |s|);
      assert a < b by {
        assert !IsSpace(s[a]);
      }
      assert NonWs(s[..a]) == [] by {
        assert AllSpace(s[..a]);
        NonWsAllSpace(s[..a]);
      }
      assert NonWs(s[b..]) == [] by {
        assert AllSpace(s[b..]);
        NonWsAllSpace(s[b..]);
      }
      assert s == (s[..a] + s[a..b]) + s[b..];
      NonWsConcat(s[..a] + s[a..b], s[b..]);
      NonWsConcat(s[..a], s[a..b]);
    }
  }

  /** Python's `sub in s` (and `re.search(re.escape(sub), s)`): a literal substring test. */
  predicate Contains(s: string, sub: string) {
    exists i :: 0 <= i <= |s| - |sub| && sub <= s[i..]
  }

  lemma ContainsAt(s: string, sub: string, i: nat)
    requires i + |sub| <= |s| && s[i..i + |sub|] == sub
    ensures Contains(s, sub)
  {
    assert sub <= s[i..];
  }

  /** A slice of a slice is a slice. */
  lemma SliceOfSlice(a: string, b: string, i: nat, c: string, j: nat)
    requires i + |b| <= |a| && a[i..i + |b|] == b
    requires j + |c| <= |b| && b[j..j + |c|] == c
    ensures a[i + j..i + j + |c|] == c
  {
    forall k | 0 <= k < |c|
      ensures a[i + j + k] == c[k]
    {
      assert c[k] == b[j + k];
      assert b[j + k] == a[i + (j + k)];
    }
  }

  /** The substring relation is transitive. */
  lemma ContainsTrans(a: string, b: string, c: string)
    requires Contains(a, b) && Contains(b, c)
    ensures Contains(a, c)
  {
    var i :| 0 <= i <= |a| - |b| && b <= a[i..];
    var j :| 0 <= j <= |b| - |c| && c <= b[j..];
    assert a[i..i + |b|] == b;
    assert b[j..j + |c|] == c;
    assert a[i + j..i + j + |c|] == c by {
      SliceOfSlice(a, b, i, c, j);
    }
    ContainsAt(a, c, i + j);
  }

  /** Concatenation of a sequence of strings (`"".join`). */
  function ConcatAll(xs: seq<string>): string
  {
    if xs == [] then [] else ConcatAll(xs[..|xs| - 1]) + xs[|xs| - 1]
  }

  lemma {:induction false} ConcatAllAppend(xs: seq<string>, ys: seq<string>)
    ensures ConcatAll(xs + ys) == ConcatAll(xs) + ConcatAll(ys)
    decreases |ys|
  {
    if ys == [] {
      assert xs + ys == xs;
    } else {
      var n := |ys| - 1;
      var zs := xs + ys;
      assert zs[..|zs| - 1] == xs + ys[..n];
      assert zs[|zs| - 1] == ys[n];
      ConcatAllAppend(xs, ys[..n]);
      calc {
        ConcatAll(zs);
        ConcatAll(xs + ys[..n]) + ys[n];
        (ConcatAll(xs) + ConcatAll(ys[..n])) + ys[n];
        ConcatAll(xs) + (ConcatAll(ys[..n]) + ys[n]);
        ConcatAll(xs) + ConcatAll(ys);
      }
    }
  }

  /** `sep.join(xs)`. */
  function Join(sep: string, xs: seq<string>): string
  {
    if xs == [] then [] else if |xs| == 1 then xs[0] else xs[0] + sep + Join(sep, xs[1..])
  }

  /** Joining with a whitespace separator adds no non-whitespace characters. */
  lemma {:induction false} JoinNonWs(sep: string, xs: seq<string>)
    requires AllSpace(sep)
    ensures NonWs(Join(sep, xs)) == NonWs(ConcatAll(xs))
    decreases |xs|
  {
    if |xs| == 1 {
      assert xs[..0] == [];
      assert ConcatAll(xs) == ConcatAll(xs[..0]) + xs[0];
      assert ConcatAll(xs) == xs[0];
      assert Join(sep, xs) == xs[0];
    } else if |xs| > 1 {
      JoinNonWs(sep, xs[1..]);
      assert xs == [xs[0]] + xs[1..];
      ConcatAllAppend([xs[0]], xs[1..]);
      assert [xs[0]][..0] == [];
      assert ConcatAll([xs[0]]) == xs[0];
      NonWsConcat(xs[0] + sep, Join(sep, xs[1..]));
      NonWsConcat(xs[0], sep);
      NonWsAllSpace(sep);
      NonWsConcat(xs[0], ConcatAll(xs[1..]));
    }
  }

  /** No element of `xs` occurs twice. */
  predicate Distinct<T(==)>(xs: seq<T>)
  {
    forall i, j :: 0 <= i < j < |xs| ==> xs[i] != xs[j]
  }

  /** `xs` is a subsequence of `ys`: `ys` with some elements left out. */
  predicate IsSubseq<T(==)>(xs: seq<T>, ys: seq<T>)
    decreases |ys|
  {
    if xs == [] then true
    else if ys == [] then false
    else
      (xs[|xs| - 1] == ys[|ys| - 1] && IsSubseq(xs[..|xs| - 1], ys[..|ys| - 1]))
      || IsSubseq(xs, ys[..|ys| - 1])
  }

  lemma {:induction false} SubseqRefl<T>(xs: seq<T>)
    ensures IsSubseq(xs, xs)
    decreases |xs|
  {
    if xs != [] {
      SubseqRefl(xs[..|xs| - 1]);
    }
  }

  lemma {:induction false} SubseqEmpty<T>(ys: seq<T>)
    ensures IsSubseq([], ys)
  {}

  /** Subsequences can be appended side by side. */
  lemma {:induction false} SubseqAppend<T>(a: seq<T>, b: seq<T>, c: seq<T>, d: seq<T>)
    requires IsSubseq(a, b) && IsSubseq(c, d)
    ensures IsSubseq(a + c, b + d)
    decreases |d|
  {
    if c == [] {
      assert a + c == a;
      SubseqExtendRight(a, b, d);
    } else {
      assert d != [];
      var c', d' := c[..|c| - 1], d[..|d| - 1];
      assert (a + c)[..|a + c| - 1] == a + c';
      assert (b + d)[..|b + d| - 1] == b + d';
      if c[|c| - 1] == d[|d| - 1] && IsSubseq(c', d') {
        SubseqAppend(a, b, c', d');
      } else {
        SubseqAppend(a, b, c, d');
      }
    }
  }

  lemma {:induction false} SubseqExtendRight<T>(a: seq<T>, b: seq<T>, d: seq<T>)
    requires IsSubseq(a, b)
    ensures IsSubseq(a, b + d)
    decreases |d|
  {
    if d == [] {
      assert b + d == b;
    } else if a != [] {
      assert (b + d)[..|b + d| - 1] == b + d[..|d| - 1];
      SubseqExtendRight(a, b, d[..|d| - 1]);
    }
  }

  /** A subsequence of strings gives a subsequence of their characters. */
  lemma {:induction false} SubseqConcatAll(xs: seq<string>, ys: seq<string>)
    requires IsSubseq(xs, ys)
    ensures IsSubseq(ConcatAll(xs), ConcatAll(ys))
    decreases |ys|
  {
    if xs == [] {
      SubseqEmpty(ConcatAll(ys));
    } else {
      var xs', ys' := xs[..|xs| - 1], ys[..|ys| - 1];
      var y := ys[|ys| - 1];
      if xs[|xs| - 1] == y && IsSubseq(xs', ys') {
        SubseqConcatAll(xs', ys');
        SubseqRefl(y);
        SubseqAppend(ConcatAll(xs'), ConcatAll(ys'), y, y);
      } else {
        SubseqConcatAll(xs, ys');
        SubseqEmpty(y);
        SubseqAppend(ConcatAll(xs), ConcatAll(ys'), [], y);
        assert ConcatAll(xs) + [] == ConcatAll(xs);
      }
    }
  }

  /** Dropping whitespace keeps the subsequence relation. */
  lemma {:induction false} SubseqNonWs(a: string, b: string)
    requires IsSubseq(a, b)
    ensures IsSubseq(NonWs(a), NonWs(b))
    decreases |b|
  {
    if a == [] {
      SubseqEmpty(NonWs(b));
    } else {
      var a', b' := a[..|a| - 1], b[..|b| - 1];
      var y := b[|b| - 1];
      assert a == a' + [a[|a| - 1]];
      assert b == b' + [y];
      NonWsConcat(b', [y]);
      if a[|a| - 1] == y && IsSubseq(a', b') {
        SubseqNonWs(a', b');
        NonWsConcat(a', [y]);
        SubseqRefl(NonWs([y]));
        SubseqAppend(NonWs(a'), NonWs(b'), NonWs([y]), NonWs([y]));
      } else {
        SubseqNonWs(a, b');
        SubseqEmpty(NonWs([y]));
        SubseqAppend(NonWs(a), NonWs(b'), [], NonWs([y]));
        assert NonWs(a) + [] == NonWs(a);
      }
    }
  }

  /** `f` applied to every element, in order. */
  function MapSeq<A, B>(f: A -> B, xs: seq<A>): seq<B>
  {
    if xs == [] then [] else MapSeq(f, xs[..|xs| - 1]) + [f(xs[|xs| - 1])]
  }

  lemma {:induction false} MapSeqSpec<A, B>(f: A -> B, xs: seq<A>)
    ensures |MapSeq(f, xs)| == |xs|
    ensures forall i :: 0 <= i < |xs| ==> MapSeq(f, xs)[i] == f(xs[i])
    decreases |xs|
  {
    if xs != [] {
      var prefix := xs[..|xs| - 1];
      MapSeqSpec(f, prefix);
      forall i | 0 <= i < |prefix|
        ensures MapSeq(f, xs)[i] == f(xs[i])
      {
        assert prefix[i] == xs[i];
      }
    }
  }

  /** The decimal digits of a number below one hundred, as Python's `str(int)` prints them. */
  function Dec2(n: nat): (r: string)
    requires n < 100
    ensures 1 <= |r| <= 2 && forall i :: 0 <= i < |r| ==> IsDigit(r[i])
  {
    if n < 10 then [('0' as int + n) as char]
    else [('0' as int + n / 10) as char, ('0' as int + n % 10) as char]
  }

  /** The value of a string of one or two decimal digits (`int(...)`). */
  function DigitsValue(s: string): (n: nat)
    requires 1 <= |s| <= 2 && forall i :: 0 <= i < |s| ==> IsDigit(s[i])
    ensures n < 100
  {
    assert IsDigit(s[0]);
    if |s| == 1 then s[0] as int - '0' as int
    else assert IsDigit(s[1]); 10 * (s[0] as int - '0' as int) + (s[1] as int - '0' as int)
  }
}

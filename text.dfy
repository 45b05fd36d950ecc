/**
 * The Python string primitives the three pipelines are built from:
 * the whitespace of str.isspace (which is also what str.strip removes and
 * what the regex class \s matches), the line breaks of str.splitlines,
 * str.find, str.strip / lstrip / rstrip and str.join.
 */
module Text {
  import opened Wrappers

  /** Python's str.isspace characters. */
  predicate IsSpace(c: char) {
    || c == ' ' || ('\t' <= c <= '\r') || ('\U{1C}' <= c <= '\U{1F}')
    || c == '\U{85}' || c == '\U{A0}' || c == '\U{1680}'
    || ('\U{2000}' <= c <= '\U{200A}') || c == '\U{2028}' || c == '\U{2029}'
    || c == '\U{202F}' || c == '\U{205F}' || c == '\U{3000}'
  }

  /** Characters at which str.splitlines ends a line ("\r\n" is one break). */
  predicate IsLineBreak(c: char) {
    || ('\n' <= c <= '\r') || ('\U{1C}' <= c <= '\U{1E}')
    || c == '\U{85}' || c == '\U{2028}' || c == '\U{2029}'
  }

  predicate AllSpace(s: string) {
    forall i :: 0 <= i < |s| ==> IsSpace(s[i])
  }

  predicate NoLineBreak(s: string) {
    forall i :: 0 <= i < |s| ==> !IsLineBreak(s[i])
  }

  /** A line is blank when str.strip() leaves nothing of it (see Strip). */
  predicate IsBlank(s: string) {
    AllSpace(s)
  }

  predicate EndsWith(s: string, suffix: string) {
    |suffix| <= |s| && s[|s| - |suffix|..] == suffix
  }

  predicate StartsWith(s: string, prefix: string) {
    |prefix| <= |s| && s[..|prefix|] == prefix
  }

  /** `pat` occurs in `s` starting at index `i`. */
  predicate OccursAt(s: string, pat: string, i: int) {
    0 <= i && i + |pat| <= |s| && s[i..i + |pat|] == pat
  }

  /** The first occurrence of `pat` in `s` at or after `i`: Python's s.find(pat, i). */
  function FindFrom(s: string, pat: string, i: nat): (r: Option<nat>)
    ensures r.Some? ==> i <= r.value && OccursAt(s, pat, r.value)
    ensures forall j :: i <= j && (r.None? || j < r.value) ==> !OccursAt(s, pat, j)
    decreases |s| - i
  {
    if i + |pat| > |s| then None
    else if s[i..i + |pat|] == pat then Some(i)
    else FindFrom(s, pat, i + 1)
  }

  /** Python's `pat in s`. */
  predicate Contains(s: string, pat: string) {
    FindFrom(s, pat, 0).Some?
  }

  lemma ContainsAt(s: string, pat: string, i: int)
    requires OccursAt(s, pat, i)
    ensures Contains(s, pat)
  {
  }

  /** Length of the longest prefix of `s` whose characters satisfy `p`. */
  function PrefixLen(s: string, p: char -> bool): (n: nat)
    ensures n <= |s|
    ensures forall i :: 0 <= i < n ==> p(s[i])
    ensures n < |s| ==> !p(s[n])
  {
    if s == [] || !p(s[0]) then 0 else 1 + PrefixLen(s[1..], p)
  }

  /** Length of the longest suffix of `s` whose characters satisfy `p`. */
  function SuffixLen(s: string, p: char -> bool): (n: nat)
    ensures n <= |s|
    ensures forall i :: |s| - n <= i < |s| ==> p(s[i])
    ensures n < |s| ==> !p(s[|s| - n - 1])
  {
    if s == [] || !p(s[|s| - 1]) then 0 else 1 + SuffixLen(s[..|s| - 1], p)
  }

  /** str.lstrip(): the suffix of `s` that starts at its first non-space character. */
  function LStrip(s: string): (r: string)
    ensures |r| <= |s|
    ensures r == s[|s| - |r|..]
    ensures AllSpace(s[..|s| - |r|])
    ensures r == [] || !IsSpace(r[0])
  {
    s[PrefixLen(s, IsSpace)..]
  }

  /** str.rstrip(): the prefix of `s` that ends at its last non-space character. */
  function RStrip(s: string): (r: string)
    ensures |r| <= |s|
    ensures r == s[..|r|]
    ensures AllSpace(s[|r|..])
    ensures r == [] || !IsSpace(r[|r| - 1])
  {
    s[..|s| - SuffixLen(s, IsSpace)]
  }

  /** str.rstrip() leaves nothing exactly when `s` is all whitespace. */
  lemma RStripEmpty(s: string)
    ensures RStrip(s) == [] <==> AllSpace(s)
  {
    var r := RStrip(s);
    if r == [] {
      assert s[|r|..] == s;
    } else {
      assert s[|r| - 1] == r[|r| - 1];
    }
  }

  /** str.strip(). */
  function Strip(s: string): (r: string)
    ensures |r| <= |s|
  {
    RStrip(LStrip(s))
  }

  /** str.strip() leaves no whitespace at either end, and leaves nothing exactly when `s` is all whitespace. */
  lemma StripShape(s: string)
    ensures var r := Strip(s);
            && (r == [] || (!IsSpace(r[0]) && !IsSpace(r[|r| - 1])))
            && (r == [] <==> AllSpace(s))
  {
    var l := LStrip(s);
    var r := RStrip(l);
    assert s == s[..|s| - |l|] + l;
    assert l == r + l[|r|..];
    AllSpaceConcat(s[..|s| - |l|], l);
    AllSpaceConcat(r, l[|r|..]);
  }

  /**
   * str.strip() cuts whitespace only: what it keeps is the slice that starts
   * after the leading whitespace, and everything around that slice is whitespace.
   */
  lemma StripSlice(s: string, a: nat, r: string)
    requires a == PrefixLen(s, IsSpace) && r == Strip(s)
    ensures a + |r| <= |s| && r == s[a..a + |r|]
    ensures AllSpace(s[..a]) && AllSpace(s[a + |r|..])
  {
    LeadingSpace(s);
    StripIsTail(s);
    StripTail(s, a, r);
  }

  lemma StripIsTail(s: string)
    ensures Strip(s) == RStrip(s[PrefixLen(s, IsSpace)..])
  {
  }

  /** What str.rstrip() keeps of the suffix from `a` is a slice of `s`, with whitespace after it. */
  lemma StripTail(s: string, a: nat, r: string)
    requires a <= |s| && r == RStrip(s[a..])
    ensures a + |r| <= |s| && r == s[a..a + |r|] && AllSpace(s[a + |r|..])
  {
    var l := s[a..];
    assert l[..|r|] == s[a..a + |r|];
    assert l[|r|..] == s[a + |r|..];
  }

  /** The run `PrefixLen` measures is whitespace. */
  lemma LeadingSpace(s: string)
    ensures AllSpace(s[..PrefixLen(s, IsSpace)])
  {
    var a := PrefixLen(s, IsSpace);
    forall i | 0 <= i < a
      ensures IsSpace(s[..a][i])
    {
      assert s[..a][i] == s[i];
    }
  }

  /** A string without whitespace at either end is left as it is by str.strip(). */
  lemma StripTrimmed(s: string)
    requires s == [] || (!IsSpace(s[0]) && !IsSpace(s[|s| - 1]))
    ensures Strip(s) == s
  {
  }

  /** Whitespace in front of a string does not change what str.strip() keeps. */
  lemma {:induction false} StripAfterSpaces(a: string, b: string)
    requires AllSpace(a)
    ensures Strip(a + b) == Strip(b)
  {
    PrefixLenAfter(a, b, IsSpace);
    assert (a + b)[|a| + PrefixLen(b, IsSpace)..] == b[PrefixLen(b, IsSpace)..];
  }

  lemma {:induction false} PrefixLenAfter(a: string, b: string, p: char -> bool)
    requires forall i :: 0 <= i < |a| ==> p(a[i])
    ensures PrefixLen(a + b, p) == |a| + PrefixLen(b, p)
  {
    if a == [] {
      assert a + b == b;
    } else {
      assert (a + b)[0] == a[0] && p(a[0]);
      assert (a + b)[1..] == a[1..] + b;
      PrefixLenAfter(a[1..], b, p);
    }
  }

  /** str.join: `parts` separated by `sep`. */
  function Join(parts: seq<string>, sep: string): string {
    if parts == [] then []
    else if |parts| == 1 then parts[0]
    else parts[0] + sep + Join(parts[1..], sep)
  }

  lemma JoinPair(a: string, b: string, sep: string)
    ensures Join([a] + [b], sep) == a + sep + b
  {
    assert ([a] + [b])[1..] == [b];
  }

  /** Index of the first line break at or after `i`, or |s| when there is none. */
  function LineEnd(s: string, i: nat): (k: nat)
    requires i <= |s|
    ensures i <= k <= |s|
    ensures k < |s| ==> IsLineBreak(s[k])
    ensures forall j :: i <= j < k ==> !IsLineBreak(s[j])
    decreases |s| - i
  {
    if i == |s| || IsLineBreak(s[i]) then i else LineEnd(s, i + 1)
  }

  /** Width of the line break at `k`: two for "\r\n", one otherwise. */
  function BreakWidth(s: string, k: nat): (w: nat)
    requires k < |s|
    ensures 1 <= w <= 2 && k + w <= |s|
  {
    if s[k] == '\r' && k + 1 < |s| && s[k + 1] == '\n' then 2 else 1
  }

  /** str.splitlines(): the lines of `s` without their breaks; no empty line after a final break. */
  function SplitLines(s: string): (lines: seq<string>)
    ensures forall i :: 0 <= i < |lines| ==> NoLineBreak(lines[i])
    ensures lines == [] <==> s == []
    decreases |s|
  {
    if s == [] then []
    else
      var k := LineEnd(s, 0);
      if k == |s| then [s]
      else [s[..k]] + SplitLines(s[k + BreakWidth(s, k)..])
  }

  /** Every line of `lines` is all whitespace. */
  predicate AllLinesSpace(lines: seq<string>) {
    forall i :: 0 <= i < |lines| ==> AllSpace(lines[i])
  }

  /** A string is all whitespace exactly when each of its lines is. */
  lemma {:induction false} AllSpaceByLines(s: string)
    ensures AllSpace(s) <==> AllLinesSpace(SplitLines(s))
    decreases |s|
  {
    if s != [] {
      var k := LineEnd(s, 0);
      if k < |s| {
        var w := BreakWidth(s, k);
        var rest := s[k + w..];
        AllSpaceByLines(rest);
        BreakIsSpace(s, k);
        AllSpaceAround(s, k, k + w);
        AllLinesSpaceCons(s[..k], SplitLines(rest));
      } else {
        AllLinesSpaceCons(s, []);
        assert [s] + [] == [s];
      }
    }
  }

  lemma BreakIsSpace(s: string, k: nat)
    requires k < |s| && IsLineBreak(s[k])
    ensures AllSpace(s[k..k + BreakWidth(s, k)])
  {
  }

  lemma AllSpaceAround(s: string, i: nat, j: nat)
    requires i <= j <= |s| && AllSpace(s[i..j])
    ensures AllSpace(s) <==> AllSpace(s[..i]) && AllSpace(s[j..])
  {
    assert s == s[..i] + s[i..j] + s[j..];
    AllSpaceConcat(s[..i], s[i..j]);
    AllSpaceConcat(s[..i] + s[i..j], s[j..]);
  }

  lemma AllLinesSpaceCons(line: string, lines: seq<string>)
    ensures AllLinesSpace([line] + lines) <==> AllSpace(line) && AllLinesSpace(lines)
  {
    var all := [line] + lines;
    if AllLinesSpace(all) {
      assert all[0] == line;
      forall i | 0 <= i < |lines| ensures AllSpace(lines[i]) {
        assert all[i + 1] == lines[i];
      }
    }
    if AllSpace(line) && AllLinesSpace(lines) {
      forall i | 0 <= i < |all| ensures AllSpace(all[i]) {
        if i > 0 { assert all[i] == lines[i - 1]; }
      }
    }
  }

  lemma AllSpaceConcat(a: string, b: string)
    ensures AllSpace(a + b) <==> AllSpace(a) && AllSpace(b)
  {
    if AllSpace(a) && AllSpace(b) {
      forall i | 0 <= i < |a + b| ensures IsSpace((a + b)[i]) {
        if i >= |a| { assert (a + b)[i] == b[i - |a|]; }
      }
    }
    if AllSpace(a + b) {
      forall i | 0 <= i < |a| ensures IsSpace(a[i]) {
        assert (a + b)[i] == a[i];
      }
      forall i | 0 <= i < |b| ensures IsSpace(b[i]) {
        assert (a + b)[|a| + i] == b[i];
      }
    }
  }

  /** Joining break-free lines with "\n" and splitting again gives the lines back, unless the last is empty. */
  lemma {:induction false} SplitJoin(lines: seq<string>)
    requires forall i :: 0 <= i < |lines| ==> NoLineBreak(lines[i])
    requires lines == [] || lines[|lines| - 1] != []
    ensures SplitLines(Join(lines, "\n")) == lines
  {
    if |lines| == 1 {
      assert LineEnd(lines[0], 0) == |lines[0]|;
    } else if |lines| > 1 {
      var s := Join(lines, "\n");
      var rest := Join(lines[1..], "\n");
      assert s == lines[0] + "\n" + rest;
      FirstLineOf(lines[0], rest);
      SplitJoin(lines[1..]);
      assert lines == [lines[0]] + lines[1..];
    }
  }

  /** The same with a final "\n": now a last empty line survives too. */
  lemma {:induction false} SplitJoinNewline(lines: seq<string>)
    requires forall i :: 0 <= i < |lines| ==> NoLineBreak(lines[i])
    requires lines != []
    ensures SplitLines(Join(lines, "\n") + "\n") == lines
  {
    var s := Join(lines, "\n") + "\n";
    if |lines| == 1 {
      FirstLineOf(lines[0], "");
      assert s == lines[0] + "\n" + "";
      assert [lines[0]] + SplitLines("") == lines;
    } else {
      var rest := Join(lines[1..], "\n") + "\n";
      assert s == lines[0] + "\n" + rest;
      FirstLineOf(lines[0], rest);
      SplitJoinNewline(lines[1..]);
      assert lines == [lines[0]] + lines[1..];
    }
  }

  /** The first line of `line + "\n" + rest` is `line`; the remaining lines are those of `rest`. */
  lemma FirstLineOf(line: string, rest: string)
    requires NoLineBreak(line)
    ensures SplitLines(line + "\n" + rest) == [line] + SplitLines(rest)
  {
    var s := line + "\n" + rest;
    assert forall j :: 0 <= j < |line| ==> s[j] == line[j];
    assert s[|line|] == '\n';
    assert LineEnd(s, 0) == |line|;
    assert BreakWidth(s, |line|) == 1;
    assert s[..|line|] == line;
    assert s[|line| + 1..] == rest;
  }

  /** `n` spaces. */
  function Spaces(n: nat): (r: string)
    ensures |r| == n && forall i :: 0 <= i < n ==> r[i] == ' '
  {
    if n == 0 then [] else [' '] + Spaces(n - 1)
  }

  /** The last character of a join is the last character of its last, non-empty part. */
  lemma {:induction false} JoinLastChar(parts: seq<string>, sep: string)
    requires parts != [] && parts[|parts| - 1] != []
    ensures var j := Join(parts, sep); |j| > 0 && j[|j| - 1] == parts[|parts| - 1][|parts[|parts| - 1]| - 1]
  {
    if |parts| > 1 {
      JoinLastChar(parts[1..], sep);
    }
  }

  lemma RStripVisibleEnd(s: string)
    requires s != [] && !IsSpace(s[|s| - 1])
    ensures RStrip(s) == s
  {
  }

  /** What str.rstrip() does to a concatenation. */
  lemma {:induction false} RStripConcat(a: string, b: string)
    ensures RStrip(a + b) == if AllSpace(b) then RStrip(a) else a + RStrip(b)
  {
    if AllSpace(b) {
      var ra := RStrip(a);
      var ta := a[|ra|..];
      assert a == ra + ta by { RStripIsPrefix(a); SplitAt(a, |ra|); }
      assert AllSpace(ta + b) by { AllSpaceConcat(ta, b); }
      ConcatAssoc(ra, ta, b);
      RStripOfVisible(ra, ta + b);
    } else {
      var rb := RStrip(b);
      var tb := b[|rb|..];
      assert b == rb + tb by { RStripIsPrefix(b); SplitAt(b, |rb|); }
      assert rb != [] by { RStripEmpty(b); }
      ConcatAssoc(a, rb, tb);
      assert (a + rb)[|a + rb| - 1] == rb[|rb| - 1];
      RStripOfVisible(a + rb, tb);
    }
  }

  /** Whitespace appended after a visible end is exactly what str.rstrip() removes. */
  lemma RStripOfVisible(p: string, q: string)
    requires AllSpace(q)
    requires p == [] || !IsSpace(p[|p| - 1])
    ensures RStrip(p + q) == p
  {
    assert (p + q)[..|p|] == p;
    assert (p + q)[|p|..] == q;
    RStripUnique(p + q, p);
  }

  /** str.rstrip() is the only prefix that leaves only whitespace behind and ends visibly. */
  lemma RStripUnique(s: string, p: string)
    requires |p| <= |s| && s[..|p|] == p && AllSpace(s[|p|..])
    requires p == [] || !IsSpace(p[|p| - 1])
    ensures RStrip(s) == p
  {
    var r := RStrip(s);
    if |r| < |p| {
    } else if |r| > |p| {
    }
  }

  /** Stripping keeps an occurrence of a pattern that begins and ends with visible characters. */
  lemma StripKeepsVisible(s: string, pat: string)
    requires Contains(s, pat)
    requires pat != [] && !IsSpace(pat[0]) && !IsSpace(pat[|pat| - 1])
    ensures Contains(Strip(s), pat)
  {
    var k := FindFrom(s, pat, 0).value;
    var lead := PrefixLen(s, IsSpace);
    StripIsTail(s);
    OccursAfterLead(s, pat, k, lead);
    RStripKeepsOccurrence(s[lead..], pat, k - lead);
    ContainsAt(Strip(s), pat, k - lead);
  }

  /** Dropping leading whitespace keeps an occurrence that starts visibly. */
  lemma OccursAfterLead(s: string, pat: string, k: nat, lead: nat)
    requires OccursAt(s, pat, k) && pat != [] && !IsSpace(pat[0])
    requires lead == PrefixLen(s, IsSpace)
    ensures lead <= k && OccursAt(s[lead..], pat, k - lead)
  {
    assert s[k] == pat[0];
    assert s[lead..][k - lead..k - lead + |pat|] == s[k..k + |pat|];
  }

  /** str.rstrip() keeps an occurrence that ends visibly. */
  lemma RStripKeepsOccurrence(l: string, pat: string, i: nat)
    requires OccursAt(l, pat, i) && pat != [] && !IsSpace(pat[|pat| - 1])
    ensures OccursAt(RStrip(l), pat, i)
  {
    var r := RStrip(l);
    assert l[i + |pat| - 1] == pat[|pat| - 1];
    RStripCovers(l, i + |pat| - 1);
    RStripIsPrefix(l);
    assert r[i..i + |pat|] == l[i..i + |pat|];
  }

  /** str.rstrip() keeps every visible character. */
  lemma RStripCovers(l: string, j: nat)
    requires j < |l| && !IsSpace(l[j])
    ensures j < |RStrip(l)|
  {
    var n := SuffixLen(l, IsSpace);
    assert j < |l| - n;
  }

  /** str.rstrip() returns a prefix. */
  lemma RStripIsPrefix(l: string)
    ensures RStrip(l) == l[..|RStrip(l)|]
  {
  }

  /** A final "\n" after text that does not end in a line break adds no line. */
  lemma {:induction false} SplitLinesTrailingNewline(s: string)
    requires s != [] && !IsLineBreak(s[|s| - 1])
    ensures SplitLines(s + "\n") == SplitLines(s)
    decreases |s|
  {
    var k := LineEnd(s, 0);
    if k == |s| {
      assert SplitLines(s + "\n") == [s] by {
        FirstLineOf(s, "");
        assert s + "\n" + "" == s + "\n";
      }
      assert SplitLines(s) == [s];
    } else {
      var w := BreakWidth(s, k);
      var rest := s[k + w..];
      BreakBeforeEnd(s);
      assert rest[|rest| - 1] == s[|s| - 1];
      SplitAfterFirstBreak(s, "\n", k, w);
      SplitLinesTrailingNewline(rest);
      SplitLinesAt(s, k, w, s[..k], rest);
    }
  }

  /** Appending after a text whose first line break is inside it leaves that first line alone. */
  lemma SplitAfterFirstBreak(s: string, u: string, k: nat, w: nat)
    requires s != [] && k == LineEnd(s, 0) && k < |s| && w == BreakWidth(s, k) && k + w < |s|
    ensures SplitLines(s + u) == [s[..k]] + SplitLines(s[k + w..] + u)
  {
    var t := s + u;
    assert k == LineEnd(t, 0) && k < |t| by {
      ConcatPrefix(s, u, |s|);
      LineEndOfPrefix(s, t, 0);
    }
    assert w == BreakWidth(t, k) by {
      IndexLeft(s, u, k);
      IndexLeft(s, u, k + 1);
    }
    assert t[..k] == s[..k] by {
      ConcatPrefix(s, u, k);
    }
    assert t[k + w..] == s[k + w..] + u by {
      ConcatDrop(s, u, k + w);
    }
    SplitLinesAt(t, k, w, s[..k], s[k + w..] + u);
  }

  /** The first line break of `s` is also the first of any text that starts with `s`. */
  lemma {:induction false} LineEndOfPrefix(s: string, t: string, i: nat)
    requires i <= |s| <= |t| && t[..|s|] == s && LineEnd(s, i) < |s|
    ensures LineEnd(t, i) == LineEnd(s, i)
    decreases |s| - i
  {
    assert t[i] == s[i];
    if !IsLineBreak(s[i]) {
      LineEndOfPrefix(s, t, i + 1);
    }
  }

  /** `t` is non-empty and its last character is `c`. */
  predicate EndsWithChar(t: string, c: char) {
    t != [] && t[|t| - 1] == c
  }

  /** When text does not end in a line break, its last line is non-empty and ends with the text's last character. */
  lemma {:induction false} LastLineOfText(s: string)
    requires s != [] && !IsLineBreak(s[|s| - 1])
    ensures SplitLines(s) != []
    ensures EndsWithChar(SplitLines(s)[|SplitLines(s)| - 1], s[|s| - 1])
    decreases |s|
  {
    var k := LineEnd(s, 0);
    if k < |s| {
      var w := BreakWidth(s, k);
      BreakBeforeEnd(s);
      var rest := s[k + w..];
      assert rest[|rest| - 1] == s[|s| - 1];
      LastLineOfText(rest);
      var tail := SplitLines(rest);
      SplitLinesAt(s, k, w, s[..k], s[k + w..]);
      LastLineStep(s[..k], tail, s[|s| - 1]);
    } else {
      assert SplitLines(s) == [s];
    }
  }

  /** str.splitlines() of text whose first line `line` ends at `k` with a break of width `w` before `rest`. */
  lemma SplitLinesAt(s: string, k: nat, w: nat, line: string, rest: string)
    requires s != [] && k == LineEnd(s, 0) && k < |s| && w == BreakWidth(s, k)
    requires line == s[..k] && rest == s[k + w..]
    ensures SplitLines(s) == [line] + SplitLines(rest)
  {
  }

  lemma LastLineStep(x: string, tail: seq<string>, c: char)
    requires tail != [] && EndsWithChar(tail[|tail| - 1], c)
    ensures EndsWithChar(([x] + tail)[|[x] + tail| - 1], c)
  {
    assert ([x] + tail)[|tail|] == tail[|tail| - 1];
  }

  /** In text that does not end in a line break, the first line break and its width end before the text does. */
  lemma BreakBeforeEnd(s: string)
    requires s != [] && !IsLineBreak(s[|s| - 1]) && LineEnd(s, 0) < |s|
    ensures LineEnd(s, 0) + BreakWidth(s, LineEnd(s, 0)) < |s|
  {
    var k := LineEnd(s, 0);
    assert IsLineBreak(s[k]);
    if BreakWidth(s, k) == 2 {
      assert IsLineBreak(s[k + 1]);
    }
  }

  /** Lines joined with "\n" are all whitespace exactly when every line is. */
  lemma {:induction false} AllSpaceJoin(lines: seq<string>)
    ensures AllSpace(Join(lines, "\n")) <==> AllLinesSpace(lines)
  {
    if |lines| == 1 {
      AllLinesSpaceCons(lines[0], []);
      assert lines == [lines[0]] + [];
    } else if |lines| > 1 {
      AllSpaceJoin(lines[1..]);
      AllSpaceConcat(lines[0], "\n");
      AllSpaceConcat(lines[0] + "\n", Join(lines[1..], "\n"));
      AllLinesSpaceCons(lines[0], lines[1..]);
      assert lines == [lines[0]] + lines[1..];
    }
  }
  /** Python's `s.split(c)` for a one-character separator. */
  function SplitOn(s: string, c: char): (parts: seq<string>)
    ensures |parts| >= 1
    ensures forall i :: 0 <= i < |parts| ==> c !in parts[i]
    ensures Join(parts, [c]) == s
    decreases |s|
  {
    if s == [] then [[]]
    else
      var rest := SplitOn(s[1..], c);
      if s[0] == c then
        assert s == [c] + s[1..];
        [[]] + rest
      else
        JoinHead(s[0], rest, [c]);
        assert s == [s[0]] + s[1..];
        [[s[0]] + rest[0]] + rest[1..]
  }

  /** A part without the separator splits as itself. */
  lemma {:induction false} SplitOnPlain(p: string, c: char)
    requires c !in p
    ensures SplitOn(p, c) == [p]
    decreases |p|
  {
    if p != [] {
      SplitOnPlain(p[1..], c);
      assert p == [p[0]] + p[1..];
    }
  }

  /** Splitting stops at the first separator after a separator-free part. */
  lemma {:induction false} SplitOnFirst(p: string, c: char, rest: string)
    requires c !in p
    ensures SplitOn(p + [c] + rest, c) == [p] + SplitOn(rest, c)
    decreases |p|
  {
    var s := p + [c] + rest;
    if p == [] {
      assert s[1..] == rest;
    } else {
      var tail := SplitOn(s[1..], c);
      assert tail == [p[1..]] + SplitOn(rest, c) by {
        assert s[1..] == p[1..] + [c] + rest;
        SplitOnFirst(p[1..], c, rest);
      }
      assert s[0] == p[0] != c;
      assert [s[0]] + tail[0] == p;
      assert tail[1..] == SplitOn(rest, c);
    }
  }

  /** `sep.join(parts).split(sep)` gives the parts back when none contains the separator. */
  lemma {:induction false} SplitOnJoin(parts: seq<string>, c: char)
    requires parts != []
    requires forall i :: 0 <= i < |parts| ==> c !in parts[i]
    ensures SplitOn(Join(parts, [c]), c) == parts
    decreases |parts|
  {
    if |parts| == 1 {
      SplitOnPlain(parts[0], c);
    } else {
      SplitOnJoin(parts[1..], c);
      SplitOnFirst(parts[0], c, Join(parts[1..], [c]));
      assert parts == [parts[0]] + parts[1..];
    }
  }

  /** Putting a character in front of the first part puts it in front of the joined text. */
  lemma JoinHead(x: char, parts: seq<string>, sep: string)
    requires parts != []
    ensures Join([[x] + parts[0]] + parts[1..], sep) == [x] + Join(parts, sep)
  {
    var q := [[x] + parts[0]] + parts[1..];
    assert q[1..] == parts[1..];
  }

  /** Joining all parts is joining all but the last, the separator, then the last. */
  lemma {:induction false} JoinSnoc(parts: seq<string>, sep: string)
    requires |parts| >= 2
    ensures Join(parts, sep) == Join(parts[..|parts| - 1], sep) + sep + parts[|parts| - 1]
  {
    if |parts| > 2 {
      JoinSnoc(parts[1..], sep);
      assert parts[1..][..|parts| - 2] == parts[..|parts| - 1][1..];
    }
  }

  /** A non-empty sequence is its front followed by its last element. */
  lemma InitLast<T>(s: seq<T>)
    requires s != []
    ensures s == s[..|s| - 1] + [s[|s| - 1]]
  {
  }

  /** A sequence is its three slices around two cut points, put back together. */
  lemma SliceThree<T>(s: seq<T>, i: nat, j: nat)
    requires i <= j <= |s|
    ensures s == s[..i] + (s[i..j] + s[j..])
  {
  }

  lemma Regroup<T>(a: seq<T>, b: seq<T>, c: seq<T>, d: seq<T>)
    ensures a + (b + c) + d == a + b + (c + d)
  {
  }

  lemma ConcatPrefix<T>(a: seq<T>, b: seq<T>, k: nat)
    requires k <= |a|
    ensures (a + b)[..k] == a[..k]
  {
  }

  lemma ConcatDrop<T>(a: seq<T>, b: seq<T>, k: nat)
    requires k <= |a|
    ensures (a + b)[k..] == a[k..] + b
  {
  }


  lemma SplitAt<T>(s: seq<T>, n: nat)
    requires n <= |s|
    ensures s == s[..n] + s[n..]
  {
  }

  /** Concatenation is associative (stated once, for any element type). */
  lemma ConcatAssoc<T>(a: seq<T>, b: seq<T>, c: seq<T>)
    ensures (a + b) + c == a + (b + c)
  {
  }

  /** Indexing into the left part of a concatenation. */
  lemma IndexLeft<T>(a: seq<T>, b: seq<T>, k: nat)
    requires k < |a|
    ensures (a + b)[k] == a[k]
  {
  }
}

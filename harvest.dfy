/**
 * The regex harvester's post-processing (data/scripts/harvest_statements.py):
 * whitespace normalisation of a statement, the module name of a Mathlib
 * file, the records built from the declaration matches of one file with the
 * `sorry` guard, the path filter and the final sort by id.
 *
 * The declaration regex is not modelled: each file comes with the matches it
 * yields, as (start, end, keyword, name, statement text) over its text.
 */
module Harvest {
  import opened Wrappers
  import opened Text
  import opened Paths
  import opened StableSort

  // ---------------------------------------------------------------------------
  // clean_stmt
  // ---------------------------------------------------------------------------

  /** The non-whitespace characters of `s`, in order. */
  function Visible(s: string): (r: string)
    ensures |r| <= |s|
  {
    if s == [] then [] else (if IsSpace(s[0]) then [] else [s[0]]) + Visible(s[1..])
  }

  /**
   * Whitespace normal form: every whitespace character is a plain space and
   * the one after it, if any, is not whitespace.
   */
  predicate Normal(s: string) {
    forall i :: 0 <= i < |s| && IsSpace(s[i]) ==> s[i] == ' ' && (i + 1 < |s| ==> !IsSpace(s[i + 1]))
  }

  /** `re.sub(r'\s+', ' ', s)`: each maximal run of whitespace becomes one space. */
  function Collapse(s: string): (r: string)
    ensures r == [] <==> s == []
    ensures r != [] ==> r[0] == if IsSpace(s[0]) then ' ' else s[0]
    decreases |s|
  {
    if s == [] then []
    else if IsSpace(s[0]) then [' '] + Collapse(s[PrefixLen(s, IsSpace)..])
    else [s[0]] + Collapse(s[1..])
  }

  /** `clean_stmt`: collapse whitespace runs, then strip both ends. */
  function CleanStmt(s: string): (r: string)
    ensures r == [] || (!IsSpace(r[0]) && !IsSpace(r[|r| - 1]))
  {
    Strip(Collapse(s))
  }

  /** Whitespace in front contributes nothing to `Visible`. */
  lemma {:induction false} VisibleSkip(s: string, n: nat)
    requires n <= |s| && AllSpace(s[..n])
    ensures Visible(s) == Visible(s[n..])
    decreases n
  {
    if n > 0 {
      assert IsSpace(s[..n][0]);
      assert s[1..][..n - 1] == s[1..n];
      VisibleSkip(s[1..], n - 1);
      assert s[1..][n - 1..] == s[n..];
    }
  }

  lemma {:induction false} VisibleConcat(a: string, b: string)
    ensures Visible(a + b) == Visible(a) + Visible(b)
    decreases |a|
  {
    if a != [] {
      VisibleConcat(a[1..], b);
      var h := if IsSpace(a[0]) then [] else [a[0]];
      assert (a + b)[0] == a[0];
      assert (a + b)[1..] == a[1..] + b;
      assert Visible(a + b) == h + Visible(a[1..] + b);
      ConcatAssoc(h, Visible(a[1..]), Visible(b));
    } else {
      assert a + b == b;
    }
  }

  /** A string has no visible character exactly when it is all whitespace. */
  lemma {:induction false} VisibleEmpty(s: string)
    ensures Visible(s) == [] <==> AllSpace(s)
    decreases |s|
  {
    if s != [] {
      VisibleEmpty(s[1..]);
      assert AllSpace(s) <==> IsSpace(s[0]) && AllSpace(s[1..]) by {
        assert s == [s[0]] + s[1..];
        AllSpaceConcat([s[0]], s[1..]);
      }
    }
  }

  /** Collapsing keeps every non-whitespace character, in order. */
  lemma {:induction false} CollapseVisible(s: string)
    ensures Visible(Collapse(s)) == Visible(s)
    decreases |s|
  {
    if s != [] {
      if IsSpace(s[0]) {
        var n := PrefixLen(s, IsSpace);
        CollapseVisible(s[n..]);
        VisibleSkip(s, n);
        assert ([' '] + Collapse(s[n..]))[1..] == Collapse(s[n..]);
      } else {
        CollapseVisible(s[1..]);
        assert ([s[0]] + Collapse(s[1..]))[1..] == Collapse(s[1..]);
      }
    }
  }

  /** Collapsing yields the whitespace normal form. */
  lemma {:induction false} CollapseNormal(s: string)
    ensures Normal(Collapse(s))
    decreases |s|
  {
    if s != [] {
      var r := Collapse(s);
      if IsSpace(s[0]) {
        var n := PrefixLen(s, IsSpace);
        var tail := Collapse(s[n..]);
        CollapseNormal(s[n..]);
        assert r == [' '] + tail;
        forall i | 0 <= i < |r| && IsSpace(r[i])
          ensures r[i] == ' ' && (i + 1 < |r| ==> !IsSpace(r[i + 1]))
        {
          if i > 0 {
            assert r[i] == tail[i - 1];
          } else if 1 < |r| {
            assert r[1] == tail[0];
          }
        }
      } else {
        var tail := Collapse(s[1..]);
        CollapseNormal(s[1..]);
        assert r == [s[0]] + tail;
        forall i | 0 <= i < |r| && IsSpace(r[i])
          ensures r[i] == ' ' && (i + 1 < |r| ==> !IsSpace(r[i + 1]))
        {
          assert i > 0;
          assert r[i] == tail[i - 1];
        }
      }
    }
  }

  /** A string already in normal form is its own collapse. */
  lemma {:induction false} CollapseOfNormal(s: string)
    requires Normal(s)
    ensures Collapse(s) == s
    decreases |s|
  {
    if s != [] {
      if IsSpace(s[0]) {
        assert PrefixLen(s, IsSpace) == 1;
        assert Normal(s[1..]) by {
          forall i | 0 <= i < |s[1..]| && IsSpace(s[1..][i])
            ensures s[1..][i] == ' ' && (i + 1 < |s[1..]| ==> !IsSpace(s[1..][i + 1]))
          {
            assert s[1..][i] == s[i + 1];
          }
        }
        CollapseOfNormal(s[1..]);
        assert s == [' '] + s[1..];
      } else {
        assert Normal(s[1..]) by {
          forall i | 0 <= i < |s[1..]| && IsSpace(s[1..][i])
            ensures s[1..][i] == ' ' && (i + 1 < |s[1..]| ==> !IsSpace(s[1..][i + 1]))
          {
            assert s[1..][i] == s[i + 1];
          }
        }
        CollapseOfNormal(s[1..]);
        assert s == [s[0]] + s[1..];
      }
    }
  }

  /** A slice of a normal-form string is in normal form. */
  lemma NormalSliceAt(s: string, a: nat, r: string)
    requires Normal(s) && a + |r| <= |s| && r == s[a..a + |r|]
    ensures Normal(r)
  {
    NormalSlice(s, a, a + |r|);
  }

  lemma NormalSlice(s: string, a: nat, b: nat)
    requires Normal(s) && a <= b <= |s|
    ensures Normal(s[a..b])
  {
    var t := s[a..b];
    forall i | 0 <= i < |t| && IsSpace(t[i])
      ensures t[i] == ' ' && (i + 1 < |t| ==> !IsSpace(t[i + 1]))
    {
      assert t[i] == s[a + i];
      if i + 1 < |t| {
        assert t[i + 1] == s[a + i + 1];
      }
    }
  }

  /** str.strip() of a normal-form string stays in normal form. */
  lemma StripNormal(c: string)
    requires Normal(c)
    ensures Normal(Strip(c))
  {
    var a := PrefixLen(c, IsSpace);
    var r := Strip(c);
    StripSlice(c, a, r);
    NormalSliceAt(c, a, r);
  }

  /** str.strip() removes whitespace only. */
  lemma StripVisible(c: string)
    ensures Visible(Strip(c)) == Visible(c)
  {
    var a := PrefixLen(c, IsSpace);
    var r := Strip(c);
    var j := a + |r|;
    assert j <= |c| && r == c[a..j] && AllSpace(c[..a]) && AllSpace(c[j..]) by {
      StripSlice(c, a, r);
    }
    var pre := c[..a];
    var post := c[j..];
    SliceThree(c, a, j);
    VisibleConcat(pre, r + post);
    VisibleConcat(r, post);
    VisibleEmpty(pre);
    VisibleEmpty(post);
    assert [] + (Visible(r) + []) == Visible(r);
  }

  /**
   * `clean_stmt` leaves no whitespace at the ends, no whitespace but single
   * spaces inside, and every non-whitespace character of its input in order;
   * it is empty exactly for an all-whitespace input.
   */
  lemma CleanStmtShape(s: string)
    ensures var r := CleanStmt(s);
            && Normal(r) && Visible(r) == Visible(s)
            && (r == [] <==> AllSpace(s))
  {
    var c := Collapse(s);
    CollapseNormal(s);
    StripNormal(c);
    CollapseVisible(s);
    StripVisible(c);
    VisibleEmpty(CleanStmt(s));
    VisibleEmpty(s);
  }

  /** `clean_stmt` is idempotent. */
  lemma CleanStmtIdempotent(s: string)
    ensures CleanStmt(CleanStmt(s)) == CleanStmt(s)
  {
    var r := CleanStmt(s);
    CleanStmtShape(s);
    CollapseOfNormal(r);
    StripTrimmed(r);
  }

  // ---------------------------------------------------------------------------
  // module_from_path
  // ---------------------------------------------------------------------------

  /**
   * `module_from_path`: "Mathlib." followed by the components of the path
   * relative to the Mathlib directory, the last one without its suffix,
   * joined by ".".
   */
  function ModuleFromPath(rel: Path): (r: string)
    requires rel != []
  {
    "Mathlib." + Join(ModuleParts(rel), ".")
  }

  /** The components that name the module: the directories and the file's stem. */
  function ModuleParts(rel: Path): (parts: seq<string>)
    requires rel != []
    ensures |parts| == |rel|
    ensures parts[..|rel| - 1] == rel[..|rel| - 1]
    ensures parts[|rel| - 1] + Suffix(rel[|rel| - 1]) == rel[|rel| - 1]
  {
    rel[..|rel| - 1] + [Stem(rel[|rel| - 1])]
  }

  /**
   * When no directory name and not the file's stem contains a dot, the module
   * name splits at its dots back into "Mathlib" and those components.
   */
  lemma ModuleNameSplits(rel: Path)
    requires rel != []
    requires forall i :: 0 <= i < |rel| - 1 ==> '.' !in rel[i]
    requires '.' !in Stem(rel[|rel| - 1])
    ensures SplitOn(ModuleFromPath(rel), '.') == ["Mathlib"] + ModuleParts(rel)
  {
    var parts := ModuleParts(rel);
    PartsNoDot(rel);
    MathlibNoDot(parts);
    ModuleJoin(rel);
    SplitOnJoin(["Mathlib"] + parts, '.');
  }

  lemma PartsNoDot(rel: Path)
    requires rel != []
    requires forall i :: 0 <= i < |rel| - 1 ==> '.' !in rel[i]
    requires '.' !in Stem(rel[|rel| - 1])
    ensures forall i :: 0 <= i < |ModuleParts(rel)| ==> '.' !in ModuleParts(rel)[i]
  {
    var parts := ModuleParts(rel);
    forall i | 0 <= i < |parts|
      ensures '.' !in parts[i]
    {
      if i < |rel| - 1 {
        assert parts[i] == parts[..|rel| - 1][i];
      }
    }
  }

  lemma MathlibNoDot(parts: seq<string>)
    requires forall i :: 0 <= i < |parts| ==> '.' !in parts[i]
    ensures forall i :: 0 <= i < |["Mathlib"] + parts| ==> '.' !in (["Mathlib"] + parts)[i]
  {
    var all := ["Mathlib"] + parts;
    forall i | 0 <= i < |all|
      ensures '.' !in all[i]
    {
      if i > 0 {
        assert all[i] == parts[i - 1];
      }
    }
  }

  lemma ModuleJoin(rel: Path)
    requires rel != []
    ensures Join(["Mathlib"] + ModuleParts(rel), ".") == ModuleFromPath(rel)
  {
    assert (["Mathlib"] + ModuleParts(rel))[1..] == ModuleParts(rel);
  }

  /** The example of the source's comment: Algebra/Group.lean is Mathlib.Algebra.Group. */
  lemma ModuleOfGroupFile()
    ensures ModuleFromPath(["Algebra", "Group.lean"]) == "Mathlib.Algebra.Group"
  {
    GroupParts();
    GroupJoin();
    assert "Mathlib." + "Algebra.Group" == "Mathlib.Algebra.Group";
  }

  lemma GroupParts()
    ensures ModuleParts(["Algebra", "Group.lean"]) == ["Algebra", "Group"]
  {
    var rel: Path := ["Algebra", "Group.lean"];
    StemOfSuffixed("Group", "lean");
    assert rel[1] == "Group" + "." + "lean";
    assert rel[..1] == ["Algebra"];
  }

  lemma GroupJoin()
    ensures Join(["Algebra", "Group"], ".") == "Algebra.Group"
  {
    JoinPair("Algebra", "Group", ".");
    assert ["Algebra"] + ["Group"] == ["Algebra", "Group"];
  }

  // ---------------------------------------------------------------------------
  // harvest_file
  // ---------------------------------------------------------------------------

  /**
   * One match of the declaration pattern: its span `[start, end)` in the
   * file text, the keyword (`theorem` or `lemma`), the name and the raw
   * statement text.
   */
  datatype DeclMatch = DeclMatch(start: nat, end: nat, keyword: string, name: string, body: string)

  /** Spans of regex matches lie inside the text. */
  predicate ValidMatches(text: string, matches: seq<DeclMatch>) {
    forall i :: 0 <= i < |matches| ==> matches[i].start <= matches[i].end <= |text|
  }

  /** One record of statements.json. */
  datatype Item = Item(id: string, sys: string, mod: string, name: string, kind: string, stmt: string)

  /**
   * The declaration head: from the match start to the first blank line
   * ("\n\n") at or after it, or to the match end when there is none.
   */
  function HeadSpan(text: string, m: DeclMatch): (span: string)
    requires m.start <= m.end <= |text|
    ensures FindFrom(text, "\n\n", m.start).None? ==> span == text[m.start..m.end]
    ensures FindFrom(text, "\n\n", m.start).Some? ==>
              var k := FindFrom(text, "\n\n", m.start).value;
              span == text[m.start..k] && (forall j :: m.start <= j < k ==> !OccursAt(text, "\n\n", j))
  {
    match FindFrom(text, "\n\n", m.start)
    case Some(k) => text[m.start..k]
    case None => text[m.start..m.end]
  }

  /**
   * Regex `\b` at position `p` of `s`: exactly one of the characters on
   * either side is a word character (`isWord` stands for `\w`).
   */
  predicate Boundary(s: string, p: nat, isWord: char -> bool)
    requires p <= |s|
  {
    (p > 0 && isWord(s[p - 1])) != (p < |s| && isWord(s[p]))
  }

  /** `\bsorry\b` matches at index `i` of `s`. */
  predicate SorryAt(s: string, i: nat, isWord: char -> bool) {
    OccursAt(s, "sorry", i) && Boundary(s, i, isWord) && Boundary(s, i + 5, isWord)
  }

  /** `re.search(r'\bsorry\b', s)` succeeds. */
  predicate HasSorry(s: string, isWord: char -> bool) {
    exists i: nat :: i <= |s| && SorryAt(s, i, isWord)
  }

  /**
   * As `s`, `o`, `r` and `y` are word characters, `\bsorry\b` is the word
   * "sorry" with no word character directly before or after it.
   */
  lemma SorryAsWord(s: string, i: nat, isWord: char -> bool)
    requires isWord('s') && isWord('y')
    requires OccursAt(s, "sorry", i)
    ensures SorryAt(s, i, isWord) <==>
              (i == 0 || !isWord(s[i - 1])) && (i + 5 == |s| || !isWord(s[i + 5]))
  {
    assert s[i] == 's' && s[i + 4] == 'y' by {
      assert s[i..i + 5] == "sorry";
    }
  }

  /** The word "sorry" at the end of a head, after a space, triggers the guard. */
  lemma SorryAfterSpace(prefix: string, isWord: char -> bool)
    requires isWord('s') && isWord('y') && !isWord(' ')
    ensures HasSorry(prefix + " sorry", isWord)
  {
    var s := prefix + " sorry";
    var i := |prefix| + 1;
    assert s[i..i + 5] == "sorry";
    assert s[i - 1] == ' ';
    SorryAsWord(s, i, isWord);
  }

  /** "sorry" inside a longer identifier does not trigger the guard. */
  lemma SorryInsideWord(isWord: char -> bool)
    requires isWord('s') && isWord('y') && isWord('_') && isWord('a')
    ensures !HasSorry("sorry_a", isWord)
  {
    var s := "sorry_a";
    forall i: nat | i <= |s| && SorryAt(s, i, isWord)
      ensures false
    {
      assert s[i..i + 5] == "sorry";
      assert i == 0;
      SorryAsWord(s, i, isWord);
    }
  }

  /** Whether the match survives the `sorry` guard. */
  predicate Kept(text: string, m: DeclMatch, isWord: char -> bool)
    requires m.start <= m.end <= |text|
  {
    !HasSorry(HeadSpan(text, m), isWord)
  }

  /** The record built from a match in module `mod`. */
  function ItemOf(mod: string, m: DeclMatch): Item {
    Item("lean:" + mod + "." + m.name, "lean", mod, m.name,
         if m.keyword == "theorem" then "thm" else "lem", CleanStmt(m.body))
  }

  /** The records of one file: one per match, in order, for the matches that are kept. */
  function FileItems(mod: string, text: string, matches: seq<DeclMatch>, isWord: char -> bool): (items: seq<Item>)
    requires ValidMatches(text, matches)
    ensures |items| <= |matches|
  {
    if matches == [] then []
    else
      var m := matches[|matches| - 1];
      FileItems(mod, text, matches[..|matches| - 1], isWord)
        + (if Kept(text, m, isWord) then [ItemOf(mod, m)] else [])
  }

  /** The matches that survive the guard, in order. */
  function KeptMatches(text: string, matches: seq<DeclMatch>, isWord: char -> bool): (r: seq<DeclMatch>)
    requires ValidMatches(text, matches)
    ensures |r| <= |matches|
  {
    if matches == [] then []
    else
      var m := matches[|matches| - 1];
      KeptMatches(text, matches[..|matches| - 1], isWord) + (if Kept(text, m, isWord) then [m] else [])
  }

  /** A file's records are exactly the records of its kept matches, in order. */
  lemma {:induction false} FileItemsOfKept(mod: string, text: string, matches: seq<DeclMatch>, isWord: char -> bool)
    requires ValidMatches(text, matches)
    ensures |FileItems(mod, text, matches, isWord)| == |KeptMatches(text, matches, isWord)|
    ensures forall i :: 0 <= i < |FileItems(mod, text, matches, isWord)| ==>
              FileItems(mod, text, matches, isWord)[i] == ItemOf(mod, KeptMatches(text, matches, isWord)[i])
    decreases |matches|
  {
    if matches != [] {
      var init := matches[..|matches| - 1];
      var m := matches[|matches| - 1];
      var keep := Kept(text, m, isWord);
      SnocUnfold(mod, text, matches, isWord, keep);
      FileItemsOfKept(mod, text, init, isWord);
      ItemsOfSnoc(mod, FileItems(mod, text, init, isWord), KeptMatches(text, init, isWord), m, keep,
                  FileItems(mod, text, matches, isWord), KeptMatches(text, matches, isWord));
    }
  }

  /** One more match adds its record and itself to the file's records and kept matches exactly when it is kept. */
  lemma SnocUnfold(mod: string, text: string, matches: seq<DeclMatch>, isWord: char -> bool, keep: bool)
    requires ValidMatches(text, matches) && matches != []
    requires matches[|matches| - 1].start <= matches[|matches| - 1].end <= |text|
    requires keep == Kept(text, matches[|matches| - 1], isWord)
    ensures ValidMatches(text, matches[..|matches| - 1])
    ensures FileItems(mod, text, matches, isWord)
            == FileItems(mod, text, matches[..|matches| - 1], isWord)
               + (if keep then [ItemOf(mod, matches[|matches| - 1])] else [])
    ensures KeptMatches(text, matches, isWord)
            == KeptMatches(text, matches[..|matches| - 1], isWord) + (if keep then [matches[|matches| - 1]] else [])
  {
  }

  /** Records paired with kept matches stay paired when both gain the same match. */
  lemma ItemsOfSnoc(mod: string, items0: seq<Item>, kept0: seq<DeclMatch>, m: DeclMatch, keep: bool,
                    items: seq<Item>, kept: seq<DeclMatch>)
    requires |items0| == |kept0| && forall i :: 0 <= i < |items0| ==> items0[i] == ItemOf(mod, kept0[i])
    requires items == items0 + (if keep then [ItemOf(mod, m)] else [])
    requires kept == kept0 + (if keep then [m] else [])
    ensures |items| == |kept| && forall i :: 0 <= i < |items| ==> items[i] == ItemOf(mod, kept[i])
  {
    forall i | 0 <= i < |items|
      ensures items[i] == ItemOf(mod, kept[i])
    {
      if i < |items0| {
        assert items[i] == items0[i] && kept[i] == kept0[i];
      }
    }
  }

  /** A match is dropped exactly when `\bsorry\b` occurs in its declaration head. */
  lemma {:induction false} KeptIff(text: string, matches: seq<DeclMatch>, isWord: char -> bool, m: DeclMatch)
    requires ValidMatches(text, matches)
    ensures m in KeptMatches(text, matches, isWord) <==>
              m in matches && m.start <= m.end <= |text| && Kept(text, m, isWord)
    decreases |matches|
  {
    if matches != [] {
      var init := matches[..|matches| - 1];
      var last := matches[|matches| - 1];
      assert ValidMatches(text, init);
      KeptIff(text, init, isWord, m);
      InSnoc(init, last, m);
      InitLast(matches);
      var k0 := KeptMatches(text, init, isWord);
      if Kept(text, last, isWord) {
        InSnoc(k0, last, m);
      } else {
        assert k0 + [] == k0;
      }
    }
  }

  /** Membership in a sequence extended by one element. */
  lemma InSnoc<T>(s: seq<T>, x: T, y: T)
    ensures y in s + [x] <==> y in s || y == x
  {
  }

  /**
   * Every record has id "lean:<module>.<name>", system "lean", kind "thm"
   * exactly for `theorem`, else "lem", and a statement in whitespace normal
   * form carrying the match's non-whitespace text.
   */
  lemma ItemShape(mod: string, m: DeclMatch)
    ensures var it := ItemOf(mod, m);
            && it.id == "lean:" + it.mod + "." + it.name
            && it.sys == "lean" && it.mod == mod && it.name == m.name
            && (it.kind == "thm" <==> m.keyword == "theorem")
            && (it.kind == "thm" || it.kind == "lem")
            && Normal(it.stmt) && Visible(it.stmt) == Visible(m.body)
            && (it.stmt == [] || (!IsSpace(it.stmt[0]) && !IsSpace(it.stmt[|it.stmt| - 1])))
  {
    CleanStmtShape(m.body);
  }

  /** `harvest_file` over a file's text and its declaration matches. */
  method HarvestFile(rel: Path, text: string, matches: seq<DeclMatch>, isWord: char -> bool)
      returns (items: seq<Item>)
    requires rel != []
    requires ValidMatches(text, matches)
    ensures items == FileItems(ModuleFromPath(rel), text, matches, isWord)
  {
    items := [];
    var mod := ModuleFromPath(rel);
    var k := 0;
    while k < |matches|
      invariant 0 <= k <= |matches|
      invariant items == FileItems(mod, text, matches[..k], isWord)
    {
      var m := matches[k];
      var span := HeadSpan(text, m);
      var sorry := HasSorry(span, isWord);
      FileItemsStep(mod, text, matches, k, isWord, items, sorry);
      if sorry {
        k := k + 1;
        continue;
      }
      items := items + [ItemOf(mod, m)];
      k := k + 1;
    }
    assert matches[..k] == matches;
  }

  /** One more match adds its record when it is kept, and nothing otherwise. */
  lemma FileItemsStep(mod: string, text: string, matches: seq<DeclMatch>, k: nat, isWord: char -> bool,
                      items: seq<Item>, sorry: bool)
    requires ValidMatches(text, matches) && k < |matches|
    requires matches[k].start <= matches[k].end <= |text|
    requires items == FileItems(mod, text, matches[..k], isWord)
    requires sorry == HasSorry(HeadSpan(text, matches[k]), isWord)
    ensures FileItems(mod, text, matches[..k + 1], isWord) == if sorry then items else items + [ItemOf(mod, matches[k])]
  {
    FileItemsSnoc(mod, text, matches, k, isWord);
    if sorry {
      assert items + [] == items;
    }
  }

  lemma FileItemsSnoc(mod: string, text: string, matches: seq<DeclMatch>, k: nat, isWord: char -> bool)
    requires ValidMatches(text, matches) && k < |matches|
    ensures ValidMatches(text, matches[..k]) && ValidMatches(text, matches[..k + 1])
    ensures matches[k].start <= matches[k].end <= |text|
    ensures FileItems(mod, text, matches[..k + 1], isWord)
            == FileItems(mod, text, matches[..k], isWord)
               + (if Kept(text, matches[k], isWord) then [ItemOf(mod, matches[k])] else [])
  {
    var s := matches[..k + 1];
    assert s[..k] == matches[..k] && s[k] == matches[k];
  }

  // ---------------------------------------------------------------------------
  // main
  // ---------------------------------------------------------------------------

  /**
   * A `.lean` file found under the Mathlib directory: its path relative to
   * that directory, its text and the declaration matches in that text.
   */
  datatype SourceFile = SourceFile(rel: Path, text: string, matches: seq<DeclMatch>)

  predicate ValidFile(f: SourceFile) {
    f.rel != [] && ValidMatches(f.text, f.matches)
  }

  /** The file's full path as a string: the Mathlib directory, then its components. */
  function FullPath(root: string, rel: Path): string {
    root + "/" + Join(rel, "/")
  }

  /** Files under a `.lake` directory or under a component starting with `_archive` are skipped. */
  predicate Skipped(root: string, f: SourceFile) {
    Contains(FullPath(root, f.rel), "/.lake/")
    || exists i :: 0 <= i < |f.rel| && StartsWith(f.rel[i], "_archive")
  }

  /** Every file's records, concatenated in the order the files are visited. */
  function AllItems(root: string, files: seq<SourceFile>, isWord: char -> bool): (items: seq<Item>)
    requires forall i :: 0 <= i < |files| ==> ValidFile(files[i])
  {
    if files == [] then []
    else
      var f := files[|files| - 1];
      assert ValidFile(f);
      AllItems(root, files[..|files| - 1], isWord)
        + (if Skipped(root, f) then [] else FileItems(ModuleFromPath(f.rel), f.text, f.matches, isWord))
  }

  /** statements.json: the format version and the records. */
  datatype Output = Output(ver: int, statements: seq<Item>)

  /** The sort key. */
  function IdOf(it: Item): string {
    it.id
  }

  /** `main`: harvest every file that is not skipped, then sort all records by id. */
  method HarvestAll(root: string, files: seq<SourceFile>, isWord: char -> bool) returns (out: Output)
    requires forall i :: 0 <= i < |files| ==> ValidFile(files[i])
    ensures out.ver == 1
    ensures out.statements == SortByKey(AllItems(root, files, isWord), IdOf)
  {
    var all: seq<Item> := [];
    var k := 0;
    while k < |files|
      invariant 0 <= k <= |files|
      invariant all == AllItems(root, files[..k], isWord)
    {
      var f := files[k];
      assert files[..k + 1][..k] == files[..k];
      if Skipped(root, f) {
        k := k + 1;
        continue;
      }
      var items := HarvestFile(f.rel, f.text, f.matches, isWord);
      all := all + items;
      k := k + 1;
    }
    assert files[..k] == files;
    all := SortByKey(all, IdOf);
    out := Output(1, all);
  }

  /**
   * The output is sorted by id, holds every harvested record exactly as
   * often as the files produced it (no deduplication), and keeps records
   * with the same id in the order they were harvested.
   */
  lemma HarvestOrdered(root: string, files: seq<SourceFile>, isWord: char -> bool, id: string)
    requires forall i :: 0 <= i < |files| ==> ValidFile(files[i])
    ensures var all := AllItems(root, files, isWord);
            var out := SortByKey(all, IdOf);
            && Sorted(out, IdOf)
            && multiset(out) == multiset(all)
            && WithKey(out, IdOf, id) == WithKey(all, IdOf, id)
  {
    var all := AllItems(root, files, isWord);
    SortSorted(all, IdOf);
    SortPermutes(all, IdOf);
    SortStable(all, IdOf, id);
  }

  /** Every harvested record comes from a kept match of a file that is not skipped. */
  lemma {:induction false} ItemsFromUnskipped(root: string, files: seq<SourceFile>, isWord: char -> bool, x: Item)
    requires forall i :: 0 <= i < |files| ==> ValidFile(files[i])
    requires x in AllItems(root, files, isWord)
    ensures exists i :: 0 <= i < |files| && ProducedBy(root, files[i], isWord, x)
    decreases |files|
  {
    var n := |files| - 1;
    var init := files[..n];
    AllItemsStep(root, files, isWord, x);
    if x in AllItems(root, init, isWord) {
      ItemsFromUnskipped(root, init, isWord, x);
      var i :| 0 <= i < |init| && ProducedBy(root, init[i], isWord, x);
      PrefixAt(files, n, i);
    } else {
      assert ProducedBy(root, files[n], isWord, x);
    }
  }

  /** File `f` is not skipped and produced record `x`. */
  predicate ProducedBy(root: string, f: SourceFile, isWord: char -> bool, x: Item)
    requires ValidFile(f)
  {
    !Skipped(root, f) && x in FileItems(ModuleFromPath(f.rel), f.text, f.matches, isWord)
  }

  /** A record of a list of files comes from the files before the last one, or from the last one. */
  lemma AllItemsStep(root: string, files: seq<SourceFile>, isWord: char -> bool, x: Item)
    requires forall i :: 0 <= i < |files| ==> ValidFile(files[i])
    requires x in AllItems(root, files, isWord)
    ensures files != []
    ensures x in AllItems(root, files[..|files| - 1], isWord) || ProducedBy(root, files[|files| - 1], isWord, x)
  {
  }

  lemma PrefixAt<T>(s: seq<T>, n: nat, i: nat)
    requires i < n <= |s|
    ensures s[..n][i] == s[i]
  {
  }

  /** A skipped file contributes nothing, whatever its contents. */
  lemma SkippedFileAddsNothing(root: string, files: seq<SourceFile>, f: SourceFile, isWord: char -> bool)
    requires forall i :: 0 <= i < |files| ==> ValidFile(files[i])
    requires ValidFile(f) && Skipped(root, f)
    ensures AllItems(root, files + [f], isWord) == AllItems(root, files, isWord)
  {
    assert (files + [f])[..|files|] == files;
  }
}

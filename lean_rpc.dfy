/**
 * The Lean verification bridge: the text handling around one run of the Lean
 * toolchain. `fetch_goal` asks `#check <name>` and scrapes the type from the
 * output; `check_tactic` writes a one-theorem file around a tactic script and
 * classifies the run. The run itself (a subprocess in a temporary directory,
 * with a timeout) is the parameter `run`, which maps the Lean source and a file
 * label to the exit status and the captured output.
 */
module LeanRpc {
  import opened Wrappers
  import opened Text

  const DefaultTimeoutSec: int := 60
  const DefaultTheoremName: string := "__tmp"
  const DefaultImports: seq<string> := ["Mathlib"]

  /** A goal as the bridge reports it; context and hypothesis graph are always empty. */
  datatype LeanState = LeanState(name: string, ppGoal: string, ppCtx: seq<string>, hypGraphEdges: seq<(string, string)>)

  datatype StepResult = StepResult(
    valid: bool,
    newState: Option<LeanState>,
    error: Option<string>,
    stdout: Option<string>,
    stderr: Option<string>)

  /** What one toolchain run reports: exit status zero, captured stdout and stderr. */
  datatype RunOutcome = RunOutcome(ok: bool, out: string, err: string)

  datatype BridgeError =
    | EnvironmentError(message: string)
    | RuntimeError(message: string)
    | ValueError(message: string)

  /** The bridge's configuration: set once when the bridge is made and never changed. */
  datatype LeanRPC = LeanRPC(
    imports: seq<string>,
    extraPrelude: string,
    workdir: Option<string>,
    timeoutSec: int,
    leanCmd: seq<string>)

  /** `shutil.which` found the program: Python tests the returned path for truth. */
  predicate Found(path: Option<string>) {
    path.Some? && path.value != []
  }

  /** The command that runs Lean: `lake env lean` when lake is on PATH, else plain `lean`. */
  function DetectLeanCmd(lake: Option<string>, lean: Option<string>): (r: Result<seq<string>, BridgeError>)
    ensures r.Ok? <==> Found(lake) || Found(lean)
    ensures Found(lake) ==> r == Ok([lake.value, "env", "lean"])
    ensures !Found(lake) && Found(lean) ==> r == Ok([lean.value])
    ensures r.Err? ==> r.error.EnvironmentError?
  {
    if Found(lake) then Ok([lake.value, "env", "lean"])
    else if Found(lean) then Ok([lean.value])
    else Err(EnvironmentError("Neither `lake` nor `lean` was found on PATH. Install Lean 4 / Mathlib toolchain."))
  }

  /**
   * The constructor. `lake` and `lean` are what `shutil.which` returns for the
   * two programs; a missing toolchain makes construction fail.
   */
  function NewLeanRPC(
    imports: Option<seq<string>>, extraPrelude: string, workdir: Option<string>, timeoutSec: int,
    lake: Option<string>, lean: Option<string>): (r: Result<LeanRPC, BridgeError>)
    ensures r.Ok? <==> Found(lake) || Found(lean)
    ensures r.Err? ==> r.error.EnvironmentError?
    ensures r.Ok? ==> r.value.imports != []
    ensures r.Ok? && imports.Some? && imports.value != [] ==> r.value.imports == imports.value
    ensures r.Ok? && (imports.None? || imports.value == []) ==> r.value.imports == DefaultImports
    ensures r.Ok? ==> r.value.extraPrelude == extraPrelude && r.value.timeoutSec == timeoutSec
    ensures r.Ok? ==> (r.value.workdir.Some? <==> workdir.Some? && workdir.value != [])
    ensures r.Ok? && Found(lake) ==> r.value.leanCmd == [lake.value, "env", "lean"]
    ensures r.Ok? && !Found(lake) ==> r.value.leanCmd == [lean.value]
  {
    var imps := if imports.Some? && imports.value != [] then imports.value else DefaultImports;
    var wd := if workdir.Some? && workdir.value != [] then workdir else None;
    match DetectLeanCmd(lake, lean)
    case Ok(cmd) => Ok(LeanRPC(imps, extraPrelude, wd, timeoutSec, cmd))
    case Err(e) => Err(e)
  }

  // ---------- the preamble ----------

  function ImportLines(imports: seq<string>): (lines: seq<string>)
    ensures |lines| == |imports|
    ensures forall i :: 0 <= i < |imports| ==> lines[i] == "import " + imports[i]
  {
    seq(|imports|, i requires 0 <= i < |imports| => "import " + imports[i])
  }

  /** One `import` line per module, then the extra prelude, right-stripped, then one newline. */
  function Preamble(imports: seq<string>, extraPrelude: string): (r: string)
    ensures |r| >= 1 && r[|r| - 1] == '\n'
    ensures |r| >= 2 ==> !IsSpace(r[|r| - 2])
  {
    RStrip(Join(ImportLines(imports), "\n") + "\n" + extraPrelude) + "\n"
  }

  /**
   * When the last module name ends in a visible character, the preamble is the
   * import lines in order, then the stripped prelude on its own line if it has
   * any visible character.
   */
  lemma PreambleLayout(imports: seq<string>, extraPrelude: string)
    requires imports != []
    requires var last := imports[|imports| - 1]; last != [] && !IsSpace(last[|last| - 1])
    ensures Preamble(imports, extraPrelude)
         == Join(ImportLines(imports), "\n") + "\n"
            + (if AllSpace(extraPrelude) then [] else RStrip(extraPrelude) + "\n")
  {
    var lines := ImportLines(imports);
    var last := imports[|imports| - 1];
    JoinLastChar(lines, "\n");
    assert lines[|lines| - 1] == "import " + last;
    RStripAfterVisible(Join(lines, "\n"), extraPrelude);
  }

  lemma RStripAfterVisible(j: string, e: string)
    requires j != [] && !IsSpace(j[|j| - 1])
    ensures RStrip(j + "\n" + e) + "\n" == j + "\n" + (if AllSpace(e) then [] else RStrip(e) + "\n")
  {
    var t := "\n" + e;
    assert j + "\n" + e == j + t;
    assert AllSpace(t) <==> AllSpace(e) by {
      AllSpaceConcat("\n", e);
    }
    if AllSpace(e) {
      assert RStrip(j + t) == j by {
        RStripConcat(j, t);
        RStripVisibleEnd(j);
      }
      assert j + "\n" + [] == j + "\n";
    } else {
      assert RStrip(j + t) == j + RStrip(t) by {
        RStripConcat(j, t);
      }
      assert RStrip(t) == "\n" + RStrip(e) by {
        RStripConcat("\n", e);
      }
      Regroup(j, "\n", RStrip(e), "\n");
    }
  }

  // ---------- re-indenting a tactic script ----------

  predicate IsIndentChar(c: char) {
    c == ' ' || c == '\t'
  }

  /** Length of the leading run of spaces and tabs: `re.match(r"^[ \t]*", ln)`. */
  function Indentation(line: string): (n: nat)
    ensures n <= |line|
    ensures forall i :: 0 <= i < n ==> IsIndentChar(line[i])
    ensures n < |line| ==> !IsIndentChar(line[n])
  {
    PrefixLen(line, IsIndentChar)
  }

  /** The indentations of the non-blank lines, in order (`mins` in the source). */
  function NonBlankIndentations(lines: seq<string>): (r: seq<nat>)
    ensures r == [] <==> forall i :: 0 <= i < |lines| ==> IsBlank(lines[i])
  {
    if lines == [] then []
    else
      var rest := NonBlankIndentations(lines[1..]);
      assert forall i :: 1 <= i < |lines| ==> lines[i] == lines[1..][i - 1];
      if IsBlank(lines[0]) then rest else [Indentation(lines[0])] + rest
  }

  /** `mins` holds the indentation of every non-blank line and nothing else. */
  lemma {:induction false} NonBlankIndentationsMembers(lines: seq<string>)
    ensures var r := NonBlankIndentations(lines);
            && (forall i :: 0 <= i < |lines| && !IsBlank(lines[i]) ==> Indentation(lines[i]) in r)
            && (forall x :: x in r ==> exists i :: 0 <= i < |lines| && !IsBlank(lines[i]) && Indentation(lines[i]) == x)
  {
    if lines != [] {
      var tail := lines[1..];
      NonBlankIndentationsMembers(tail);
      var r := NonBlankIndentations(lines);
      var rest := NonBlankIndentations(tail);
      forall i | 0 <= i < |lines| && !IsBlank(lines[i])
        ensures Indentation(lines[i]) in r
      {
        if i > 0 {
          assert lines[i] == tail[i - 1];
        }
      }
      forall x | x in r
        ensures exists i :: 0 <= i < |lines| && !IsBlank(lines[i]) && Indentation(lines[i]) == x
      {
        if x in rest {
          var j :| 0 <= j < |tail| && !IsBlank(tail[j]) && Indentation(tail[j]) == x;
          assert lines[j + 1] == tail[j];
        }
      }
    }
  }

  function MinOf(xs: seq<nat>): (m: nat)
    requires xs != []
    ensures m in xs
    ensures forall i :: 0 <= i < |xs| ==> m <= xs[i]
  {
    if |xs| == 1 then xs[0]
    else
      var m := MinOf(xs[1..]);
      assert forall i :: 1 <= i < |xs| ==> xs[i] == xs[1..][i - 1];
      if xs[0] <= m then xs[0] else m
  }

  /** Drops the first `cut` characters of every line at least that long; shorter lines stay. */
  function CutLines(lines: seq<string>, cut: nat): (out: seq<string>)
    ensures |out| == |lines|
  {
    seq(|lines|, i requires 0 <= i < |lines| => CutLine(lines[i], cut))
  }

  /** `ln[m:]` for a line of at least `m` characters; a shorter line, which is always blank here, is kept whole. */
  function CutLine(line: string, cut: nat): string {
    if |line| >= cut then line[cut..] else line
  }

  /** `_dedent`: removes the smallest indentation of the non-blank lines from every line. */
  function Dedent(s: string): string {
    var lines := SplitLines(s);
    var mins := NonBlankIndentations(lines);
    if mins == [] then s else Join(CutLines(lines, MinOf(mins)), "\n")
  }

  /** A script without a non-blank line comes back unchanged. */
  lemma DedentAllBlank(s: string)
    requires forall i :: 0 <= i < |SplitLines(s)| ==> IsBlank(SplitLines(s)[i])
    ensures Dedent(s) == s
  {
  }

  /**
   * The shape of dedenting the lines of a script with a non-blank line: the
   * number of lines and every line's stripped text stay, every non-blank line
   * loses exactly the common indentation, and some non-blank line ends up with
   * none.
   */
  lemma DedentShape(lines: seq<string>, cut: nat)
    requires exists i :: 0 <= i < |lines| && !IsBlank(lines[i])
    requires NonBlankIndentations(lines) != [] && cut == MinOf(NonBlankIndentations(lines))
    ensures |CutLines(lines, cut)| == |lines|
    ensures forall i :: 0 <= i < |lines| ==> Strip(CutLines(lines, cut)[i]) == Strip(lines[i])
    ensures forall i :: 0 <= i < |lines| && !IsBlank(lines[i]) ==>
              cut <= Indentation(lines[i]) && lines[i] == lines[i][..cut] + CutLines(lines, cut)[i]
              && Indentation(CutLines(lines, cut)[i]) == Indentation(lines[i]) - cut
    ensures exists i :: 0 <= i < |lines| && !IsBlank(lines[i]) && Indentation(CutLines(lines, cut)[i]) == 0
    ensures forall i :: 0 <= i < |lines| && IsBlank(lines[i]) ==>
              IsBlank(CutLines(lines, cut)[i])
              && (cut <= |lines[i]| ==> CutLines(lines, cut)[i] == lines[i][cut..])
              && (|lines[i]| < cut ==> CutLines(lines, cut)[i] == lines[i])
  {
    var mins := NonBlankIndentations(lines);
    NonBlankIndentationsMembers(lines);
    forall i | 0 <= i < |lines| && !IsBlank(lines[i])
      ensures cut <= Indentation(lines[i])
    {
      assert Indentation(lines[i]) in mins;
    }
    CutLinesShape(lines, cut);
    var out := CutLines(lines, cut);
    var k :| 0 <= k < |lines| && !IsBlank(lines[k]) && Indentation(lines[k]) == cut;
    assert Indentation(out[k]) == 0;
  }

  /** Cutting at most the indentation of every non-blank line, line by line. */
  lemma CutLinesShape(lines: seq<string>, cut: nat)
    requires forall i :: 0 <= i < |lines| && !IsBlank(lines[i]) ==> cut <= Indentation(lines[i])
    ensures forall i :: 0 <= i < |lines| ==> Strip(CutLines(lines, cut)[i]) == Strip(lines[i])
    ensures forall i :: 0 <= i < |lines| && !IsBlank(lines[i]) ==>
              cut <= Indentation(lines[i]) && lines[i] == lines[i][..cut] + CutLines(lines, cut)[i]
              && Indentation(CutLines(lines, cut)[i]) == Indentation(lines[i]) - cut
    ensures forall i :: 0 <= i < |lines| && IsBlank(lines[i]) ==>
              IsBlank(CutLines(lines, cut)[i])
              && (cut <= |lines[i]| ==> CutLines(lines, cut)[i] == lines[i][cut..])
              && (|lines[i]| < cut ==> CutLines(lines, cut)[i] == lines[i])
  {
    var out := CutLines(lines, cut);
    forall i | 0 <= i < |lines|
      ensures Strip(out[i]) == Strip(lines[i])
      ensures !IsBlank(lines[i]) ==> lines[i] == lines[i][..cut] + out[i]
                                     && Indentation(out[i]) == Indentation(lines[i]) - cut
      ensures IsBlank(lines[i]) ==> IsBlank(out[i])
      ensures cut <= |lines[i]| ==> out[i] == lines[i][cut..]
      ensures |lines[i]| < cut ==> out[i] == lines[i]
    {
      CutLineShape(lines[i], cut);
    }
  }

  /** What cutting `cut` characters does to one line whose indentation is at least `cut` when it is not blank. */
  lemma CutLineShape(line: string, cut: nat)
    requires !IsBlank(line) ==> cut <= Indentation(line)
    ensures Strip(CutLine(line, cut)) == Strip(line)
    ensures !IsBlank(line) ==> line == line[..cut] + CutLine(line, cut) && Indentation(CutLine(line, cut)) == Indentation(line) - cut
    ensures IsBlank(line) ==> IsBlank(CutLine(line, cut))
  {
    if |line| >= cut {
      if IsBlank(line) {
        CutBlankLine(line, cut);
      } else {
        CutIndentedLine(line, cut);
      }
    }
  }

  lemma CutBlankLine(line: string, cut: nat)
    requires cut <= |line| && IsBlank(line)
    ensures Strip(line[cut..]) == Strip(line)
    ensures IsBlank(line[cut..])
  {
    assert line == line[..cut] + line[cut..];
    AllSpaceConcat(line[..cut], line[cut..]);
    StripShape(line);
    StripShape(line[cut..]);
  }

  lemma CutIndentedLine(line: string, cut: nat)
    requires cut <= Indentation(line)
    ensures Strip(line[cut..]) == Strip(line) && line == line[..cut] + line[cut..]
    ensures Indentation(line[cut..]) == Indentation(line) - cut
  {
    var pre := line[..cut];
    var o := line[cut..];
    assert line == pre + o;
    assert forall i :: 0 <= i < cut ==> pre[i] == line[i];
    assert AllSpace(pre);
    StripAfterSpaces(pre, o);
    PrefixLenAfter(pre, o, IsIndentChar);
  }

  /** Every non-blank line gets `n` leading spaces; blank lines stay as they are. */
  function IndentLines(lines: seq<string>, n: nat): (out: seq<string>)
    ensures |out| == |lines|
  {
    seq(|lines|, i requires 0 <= i < |lines| => if IsBlank(lines[i]) then lines[i] else Spaces(n) + lines[i])
  }

  /** `_indent`: indents the lines and adds a final "\n" unless `s` is empty or already ends in "\n". */
  function Indent(s: string, n: nat): string {
    Join(IndentLines(SplitLines(s), n), "\n") + (if s != [] && !EndsWith(s, "\n") then "\n" else [])
  }

  /** Indenting keeps every line's stripped text and puts `n` spaces exactly before each non-blank line. */
  lemma IndentLinesShape(lines: seq<string>, n: nat)
    ensures var out := IndentLines(lines, n);
            && (forall i :: 0 <= i < |lines| ==> Strip(out[i]) == Strip(lines[i]))
            && (forall i :: 0 <= i < |lines| && !IsBlank(lines[i]) ==>
                  StartsWith(out[i], Spaces(n)) && out[i][n..] == lines[i]
                  && Indentation(out[i]) == n + Indentation(lines[i]))
            && (forall i :: 0 <= i < |lines| && IsBlank(lines[i]) ==> out[i] == lines[i])
  {
    var out := IndentLines(lines, n);
    forall i | 0 <= i < |lines| && !IsBlank(lines[i])
      ensures Strip(out[i]) == Strip(lines[i]) && StartsWith(out[i], Spaces(n)) && out[i][n..] == lines[i]
      ensures Indentation(out[i]) == n + Indentation(lines[i])
    {
      assert AllSpace(Spaces(n));
      StripAfterSpaces(Spaces(n), lines[i]);
      assert (Spaces(n) + lines[i])[..n] == Spaces(n);
      PrefixLenAfter(Spaces(n), lines[i], IsIndentChar);
    }
  }

  lemma IndentLinesNoBreak(lines: seq<string>, n: nat)
    requires forall i :: 0 <= i < |lines| ==> NoLineBreak(lines[i])
    ensures forall i :: 0 <= i < |lines| ==> NoLineBreak(IndentLines(lines, n)[i])
  {
    forall i | 0 <= i < |lines| ensures NoLineBreak(IndentLines(lines, n)[i]) {
      var o := IndentLines(lines, n)[i];
      if !IsBlank(lines[i]) {
        forall j | 0 <= j < |o| ensures !IsLineBreak(o[j]) {
          if j >= n { assert o[j] == lines[i][j - n]; }
        }
      }
    }
  }

  /**
   * Splitting the indented text gives the indented lines, unless the input's last
   * line is empty (then the added "\n" is absent and that empty line is lost).
   */
  lemma IndentRoundTrip(s: string, n: nat)
    requires var lines := SplitLines(s); lines == [] || lines[|lines| - 1] != []
    ensures SplitLines(Indent(s, n)) == IndentLines(SplitLines(s), n)
  {
    var lines := SplitLines(s);
    var out := IndentLines(lines, n);
    IndentLinesNoBreak(lines, n);
    if s == [] {
      assert out == [];
    } else if !EndsWith(s, "\n") {
      assert Indent(s, n) == Join(out, "\n") + "\n";
      SplitJoinNewline(out);
    } else {
      assert Indent(s, n) == Join(out, "\n");
      IndentLastLine(lines, n);
      SplitJoin(out);
    }
  }

  lemma IndentLastLine(lines: seq<string>, n: nat)
    requires lines != [] && lines[|lines| - 1] != []
    ensures var out := IndentLines(lines, n); out[|out| - 1] != [] && out[|out| - 1][|out[|out| - 1]| - 1] == lines[|lines| - 1][|lines[|lines| - 1]| - 1]
  {
  }

  /** A final "\n" is added exactly when the input is non-empty and does not end in "\n". */
  lemma IndentFinalNewline(s: string, n: nat)
    ensures s != [] && !EndsWith(s, "\n") ==> EndsWith(Indent(s, n), "\n")
    ensures var lines := SplitLines(s);
            EndsWith(s, "\n") && lines[|lines| - 1] != [] ==> !EndsWith(Indent(s, n), "\n")
  {
    var lines := SplitLines(s);
    var j := Join(IndentLines(lines, n), "\n");
    if s != [] && !EndsWith(s, "\n") {
      assert Indent(s, n) == j + "\n";
    }
    if EndsWith(s, "\n") && lines[|lines| - 1] != [] {
      assert Indent(s, n) == j;
      IndentedJoinLastChar(lines, n);
    }
  }

  lemma IndentedJoinLastChar(lines: seq<string>, n: nat)
    requires lines != [] && lines[|lines| - 1] != []
    requires NoLineBreak(lines[|lines| - 1])
    ensures var j := Join(IndentLines(lines, n), "\n"); j != [] && !IsLineBreak(j[|j| - 1])
  {
    var out := IndentLines(lines, n);
    IndentLastLine(lines, n);
    JoinLastChar(out, "\n");
  }

  // ---------- the concise error line ----------

  predicate IsDigit(c: char) {
    '0' <= c <= '9'
  }

  predicate AllDigits(s: string) {
    s != [] && forall i :: 0 <= i < |s| ==> IsDigit(s[i])
  }

  /** The regex `:\d+:\d+: error:` matches at `p`, with its digit runs ending at `q` and `e`. */
  ghost predicate LocatedErrorAt(line: string, p: int, q: int, e: int) {
    && 0 <= p < q < e && e + 8 <= |line|
    && line[p] == ':' && AllDigits(line[p + 1..q])
    && line[q] == ':' && AllDigits(line[q + 1..e])
    && line[e..e + 8] == ": error:"
  }

  /** A line that looks like an error: it contains `error:`. */
  predicate IsErrorLine(line: string) {
    Contains(line, "error:")
  }

  /** The source's second test, the located-error regex, adds nothing to `"error:" in ln`. */
  lemma LocatedErrorIsErrorLine(line: string, p: int, q: int, e: int)
    requires LocatedErrorAt(line, p, q, e)
    ensures IsErrorLine(line)
  {
    assert line[e + 2..e + 8] == "error:";
    ContainsAt(line, "error:", e + 2);
  }

  /** Index of the first line satisfying `p`. */
  function FirstIndex(lines: seq<string>, p: string -> bool): (r: Option<nat>)
    ensures r.Some? ==> r.value < |lines| && p(lines[r.value]) && forall j :: 0 <= j < r.value ==> !p(lines[j])
    ensures r.None? ==> forall j :: 0 <= j < |lines| ==> !p(lines[j])
  {
    if lines == [] then None
    else if p(lines[0]) then Some(0)
    else
      var r := FirstIndex(lines[1..], p);
      assert forall j :: 1 <= j < |lines| ==> lines[j] == lines[1..][j - 1];
      if r.Some? then Some(r.value + 1) else None
  }

  predicate IsNonBlank(line: string) {
    !IsBlank(line)
  }

  /** `_first_lean_error`: the first error line, else the first non-blank line, stripped; else the stripped stream. */
  function FirstLeanError(stream: string): string {
    if stream == [] then []
    else
      var lines := SplitLines(stream);
      match FirstIndex(lines, IsErrorLine)
      case Some(i) => Strip(lines[i])
      case None =>
        match FirstIndex(lines, IsNonBlank)
        case Some(i) => Strip(lines[i])
        case None => Strip(stream)
  }

  /** The concise error is empty exactly when the stream is nothing but whitespace. */
  lemma FirstLeanErrorEmpty(stream: string)
    ensures FirstLeanError(stream) == [] <==> AllSpace(stream)
  {
    var lines := SplitLines(stream);
    AllSpaceByLines(stream);
    if stream != [] {
      var e := FirstIndex(lines, IsErrorLine);
      if e.Some? {
        ErrorLineVisible(lines[e.value]);
        StripShape(lines[e.value]);
      } else {
        var b := FirstIndex(lines, IsNonBlank);
        if b.Some? {
          StripShape(lines[b.value]);
        } else {
          StripShape(stream);
        }
      }
    }
  }

  /** A line containing `error:` is not blank. */
  lemma ErrorLineVisible(line: string)
    requires IsErrorLine(line)
    ensures !AllSpace(line)
  {
    var k := FindFrom(line, "error:", 0).value;
    assert line[k..k + 6][0] == line[k];
  }

  /** When some output line contains `error:`, so does the concise error, and it is that first line stripped. */
  lemma FirstLeanErrorReportsError(stream: string, i: nat)
    requires i < |SplitLines(stream)| && IsErrorLine(SplitLines(stream)[i])
    ensures var lines := SplitLines(stream);
            exists j :: 0 <= j <= i && IsErrorLine(lines[j]) && FirstLeanError(stream) == Strip(lines[j])
    ensures IsErrorLine(FirstLeanError(stream))
  {
    var lines := SplitLines(stream);
    var j := FirstIndex(lines, IsErrorLine).value;
    StripKeepsVisible(lines[j], "error:");
  }

  // ---------- fetch_goal ----------

  /** The file `fetch_goal` compiles. */
  function GoalQuery(rpc: LeanRPC, theoremName: string): string {
    Preamble(rpc.imports, rpc.extraPrelude) + "\n#check " + theoremName + "\n"
  }

  /** Python's `left.strip().endswith(name) or name in left`. */
  predicate NameMatches(left: string, name: string) {
    EndsWith(Strip(left), name) || Contains(left, name)
  }

  /** The first test adds nothing to the second: the name test is just `name in left`. */
  lemma NameMatchesIsContains(left: string, name: string)
    ensures NameMatches(left, name) <==> Contains(left, name)
  {
    if EndsWith(Strip(left), name) {
      var lead := PrefixLen(left, IsSpace);
      var st := Strip(left);
      var l := left[lead..];
      assert st == l[..|st|];
      var at := lead + |st| - |name|;
      assert left[at..at + |name|] == st[|st| - |name|..];
      ContainsAt(left, name, at);
    }
  }

  /** The line contains the separator " : ". */
  predicate HasSeparator(line: string) {
    Contains(line, " : ")
  }

  /** `line.split(" : ", 1)`: the text before and after the first " : ". */
  function SplitSeparator(line: string): (r: Option<(string, string)>)
    ensures r.Some? <==> HasSeparator(line)
    ensures r.Some? ==> line == r.value.0 + " : " + r.value.1 && !Contains(r.value.0, " : ")
  {
    match FindFrom(line, " : ", 0)
    case None => None
    case Some(k) =>
      var left := line[..k];
      assert line == left + " : " + line[k + 3..];
      assert forall j :: 0 <= j && OccursAt(left, " : ", j) ==> OccursAt(line, " : ", j);
      Some((left, line[k + 3..]))
  }

  /** A `#check` line for `name`: it has " : " and the text before the first one mentions `name`. */
  predicate NamesTheorem(line: string, name: string) {
    var parts := SplitSeparator(line);
    parts.Some? && NameMatches(parts.value.0, name)
  }

  /** The stripped text after the first " : ". */
  function TypePart(line: string): string
    requires HasSeparator(line)
  {
    Strip(SplitSeparator(line).value.1)
  }

  /** Index of the last line satisfying `p`, scanning from the end. */
  method ScanBack(lines: seq<string>, p: string -> bool) returns (r: Option<nat>)
    ensures r.Some? ==> r.value < |lines| && p(lines[r.value]) && forall j :: r.value < j < |lines| ==> !p(lines[j])
    ensures r.None? ==> forall j :: 0 <= j < |lines| ==> !p(lines[j])
  {
    var i := |lines|;
    while i > 0
      invariant 0 <= i <= |lines|
      invariant forall j :: i <= j < |lines| ==> !p(lines[j])
    {
      if p(lines[i - 1]) {
        return Some(i - 1);
      }
      i := i - 1;
    }
    return None;
  }

  /** The reversed scan of `fetch_goal`: the type on the last line that names the theorem. */
  method ScanNamedLine(lines: seq<string>, theoremName: string) returns (m: Option<string>)
    ensures m.Some? ==> exists i :: 0 <= i < |lines| && NamesTheorem(lines[i], theoremName)
                                    && (forall j :: i < j < |lines| ==> !NamesTheorem(lines[j], theoremName))
                                    && m.value == TypePart(lines[i])
    ensures m.None? ==> forall j :: 0 <= j < |lines| ==> !NamesTheorem(lines[j], theoremName)
  {
    var k := ScanBack(lines, line => NamesTheorem(line, theoremName));
    if k.Some? {
      m := Some(TypePart(lines[k.value]));
    } else {
      m := None;
    }
  }

  /** The fallback scan of `fetch_goal`: the type on the first line with a " : ". */
  method ScanFirstSeparator(lines: seq<string>) returns (m: Option<string>)
    ensures m.Some? ==> exists i :: 0 <= i < |lines| && HasSeparator(lines[i])
                                    && (forall j :: 0 <= j < i ==> !HasSeparator(lines[j]))
                                    && m.value == TypePart(lines[i])
    ensures m.None? ==> forall j :: 0 <= j < |lines| ==> !HasSeparator(lines[j])
  {
    m := None;
    var j := 0;
    while j < |lines|
      invariant 0 <= j <= |lines|
      invariant forall t :: 0 <= t < j ==> !HasSeparator(lines[t])
    {
      if HasSeparator(lines[j]) {
        m := Some(TypePart(lines[j]));
        return;
      }
      j := j + 1;
    }
  }

  /**
   * `fetch_goal`. A failed run is a RuntimeError. Otherwise the goal is the type
   * on the last output line that names the theorem, else on the first line with
   * a " : ", else the output cannot be parsed (ValueError).
   */
  method FetchGoal(rpc: LeanRPC, theoremName: string, run: (string, string) -> RunOutcome)
    returns (r: Result<LeanState, BridgeError>)
    ensures var o := run(GoalQuery(rpc, theoremName), "check_" + theoremName);
            !o.ok ==> r == Err(RuntimeError("Lean failed while fetching goal for '" + theoremName + "':\n"
                                             + (if o.err != [] then o.err else o.out)))
    ensures var o := run(GoalQuery(rpc, theoremName), "check_" + theoremName);
            var lines := SplitLines(o.out);
            o.ok ==> (r.Err? <==> forall i :: 0 <= i < |lines| ==> !HasSeparator(lines[i]))
    ensures var o := run(GoalQuery(rpc, theoremName), "check_" + theoremName);
            r.Err? && o.ok ==> r.error == ValueError("Could not parse theorem type from Lean output:\n" + o.out)
    ensures r.Ok? ==> r.value.name == theoremName && r.value.ppCtx == [] && r.value.hypGraphEdges == []
    ensures var o := run(GoalQuery(rpc, theoremName), "check_" + theoremName);
            var lines := SplitLines(o.out);
            r.Ok? && (exists i :: 0 <= i < |lines| && NamesTheorem(lines[i], theoremName)) ==>
              exists i :: 0 <= i < |lines| && NamesTheorem(lines[i], theoremName)
                          && (forall j :: i < j < |lines| ==> !NamesTheorem(lines[j], theoremName))
                          && r.value.ppGoal == TypePart(lines[i])
    ensures var o := run(GoalQuery(rpc, theoremName), "check_" + theoremName);
            var lines := SplitLines(o.out);
            r.Ok? && (forall i :: 0 <= i < |lines| ==> !NamesTheorem(lines[i], theoremName)) ==>
              exists i :: 0 <= i < |lines| && HasSeparator(lines[i])
                          && (forall j :: 0 <= j < i ==> !HasSeparator(lines[j]))
                          && r.value.ppGoal == TypePart(lines[i])
  {
    var o := run(GoalQuery(rpc, theoremName), "check_" + theoremName);
    if !o.ok {
      return Err(RuntimeError("Lean failed while fetching goal for '" + theoremName + "':\n"
                              + (if o.err != [] then o.err else o.out)));
    }
    var lines := SplitLines(o.out);
    var m := ScanNamedLine(lines, theoremName);
    if m.None? {
      m := ScanFirstSeparator(lines);
    } else {
      forall i | 0 <= i < |lines| && NamesTheorem(lines[i], theoremName) ensures HasSeparator(lines[i]) { }
    }
    if m.None? {
      return Err(ValueError("Could not parse theorem type from Lean output:\n" + o.out));
    }
    r := Ok(LeanState(theoremName, m.value, [], []));
  }

  // ---------- check_tactic ----------

  /** The tactic script as it goes under `:= by`: dedented, right-stripped, indented by two. */
  function ScriptBlock(tacticScript: string): string {
    Indent(RStrip(Dedent(tacticScript)) + "\n", 2)
  }

  /** Dedenting keeps a script all whitespace or not. */
  lemma DedentAllSpace(s: string)
    ensures AllSpace(Dedent(s)) <==> AllSpace(s)
  {
    var lines := SplitLines(s);
    AllSpaceByLines(s);
    if exists i :: 0 <= i < |lines| && !IsBlank(lines[i]) {
      var i :| 0 <= i < |lines| && !IsBlank(lines[i]);
      var cut := MinOf(NonBlankIndentations(lines));
      DedentShape(lines, cut);
      var out := CutLines(lines, cut);
      assert Strip(out[i]) == Strip(lines[i]);
      StripShape(lines[i]);
      StripShape(out[i]);
      AllSpaceJoin(out);
    }
  }

  /**
   * The block under `:= by`: empty exactly when the script is all whitespace;
   * otherwise it ends on a visible character (no trailing newline), and each of
   * its lines is blank or starts with two spaces.
   */
  lemma ScriptBlockShape(tacticScript: string)
    ensures var b := ScriptBlock(tacticScript);
            && (b == [] <==> AllSpace(tacticScript))
            && (b != [] ==> !IsSpace(b[|b| - 1]))
            && (forall i :: 0 <= i < |SplitLines(b)| ==>
                  IsBlank(SplitLines(b)[i]) || StartsWith(SplitLines(b)[i], "  "))
  {
    RStripEmpty(Dedent(tacticScript));
    DedentAllSpace(tacticScript);
    if RStrip(Dedent(tacticScript)) == [] {
      BlankScriptBlock(tacticScript);
    } else {
      VisibleScriptBlock(tacticScript);
    }
  }

  lemma BlankScriptBlock(tacticScript: string)
    requires RStrip(Dedent(tacticScript)) == []
    ensures ScriptBlock(tacticScript) == []
  {
    EmptyBlock();
    assert RStrip(Dedent(tacticScript)) + "\n" == "\n";
  }

  lemma VisibleScriptBlock(tacticScript: string)
    requires RStrip(Dedent(tacticScript)) != []
    ensures var b := ScriptBlock(tacticScript);
            && b != [] && !IsSpace(b[|b| - 1])
            && (forall i :: 0 <= i < |SplitLines(b)| ==>
                  IsBlank(SplitLines(b)[i]) || StartsWith(SplitLines(b)[i], "  "))
  {
    VisibleBlock(RStrip(Dedent(tacticScript)));
  }

  /** An all-whitespace script leaves nothing under `:= by`. */
  lemma EmptyBlock()
    ensures Indent("\n", 2) == []
  {
    assert LineEnd("\n", 0) == 0;
    assert SplitLines("\n") == [[]] + SplitLines([]);
  }

  /** A script with visible text ends in that text once indented, and every line is indented or blank. */
  lemma VisibleBlock(y: string)
    requires y != [] && !IsSpace(y[|y| - 1])
    ensures var b := Indent(y + "\n", 2);
            && b != [] && !IsSpace(b[|b| - 1])
            && (forall i :: 0 <= i < |SplitLines(b)| ==>
                  IsBlank(SplitLines(b)[i]) || StartsWith(SplitLines(b)[i], "  "))
  {
    assert !IsLineBreak(y[|y| - 1]);
    VisibleBlockEnd(y);
    VisibleBlockLines(y);
  }

  /** Indenting `y + "\n"` indents the lines of `y` and adds no final newline. */
  lemma IndentTerminated(y: string)
    requires y != [] && !IsLineBreak(y[|y| - 1])
    ensures SplitLines(y + "\n") == SplitLines(y)
    ensures Indent(y + "\n", 2) == Join(IndentLines(SplitLines(y), 2), "\n")
  {
    SplitLinesTrailingNewline(y);
    assert EndsWith(y + "\n", "\n");
  }

  lemma VisibleBlockEnd(y: string)
    requires y != [] && !IsSpace(y[|y| - 1]) && !IsLineBreak(y[|y| - 1])
    ensures var b := Indent(y + "\n", 2); b != [] && !IsSpace(b[|b| - 1])
  {
    IndentTerminated(y);
    LastLineOfText(y);
    IndentedLinesEnd(SplitLines(y));
  }

  lemma VisibleBlockLines(y: string)
    requires y != [] && !IsLineBreak(y[|y| - 1])
    ensures var b := Indent(y + "\n", 2);
            forall i :: 0 <= i < |SplitLines(b)| ==> IsBlank(SplitLines(b)[i]) || StartsWith(SplitLines(b)[i], "  ")
  {
    IndentTerminated(y);
    LastLineOfText(y);
    IndentRoundTrip(y + "\n", 2);
    IndentedLinesStart(SplitLines(y));
  }

  lemma IndentedLinesEnd(lines: seq<string>)
    requires lines != [] && lines[|lines| - 1] != []
    requires var last := lines[|lines| - 1]; !IsSpace(last[|last| - 1])
    ensures var b := Join(IndentLines(lines, 2), "\n"); b != [] && !IsSpace(b[|b| - 1])
  {
    IndentLastLine(lines, 2);
    JoinLastChar(IndentLines(lines, 2), "\n");
  }

  lemma IndentedLinesStart(lines: seq<string>)
    ensures var out := IndentLines(lines, 2);
            forall i :: 0 <= i < |out| ==> IsBlank(out[i]) || StartsWith(out[i], "  ")
  {
    IndentLinesShape(lines, 2);
    assert Spaces(2) == "  ";
  }

  /** The file `check_tactic` compiles. */
  function ProofSource(rpc: LeanRPC, goalType: string, tacticScript: string, theoremName: string): string {
    Preamble(rpc.imports, rpc.extraPrelude) + "\n"
    + "set_option maxRecDepth 10000\n" + "set_option maxHeartbeats 200000\n\n"
    + "theorem " + theoremName + " : " + goalType + " := by\n"
    + ScriptBlock(tacticScript)
  }

  /**
   * `check_tactic`. A successful run is valid and restates the given goal under
   * the given name; a failed one is invalid and carries the concise error of
   * stderr, or of stdout when stderr is empty. Both keep the raw output.
   */
  method CheckTactic(rpc: LeanRPC, goalType: string, tacticScript: string, theoremName: string,
                     run: (string, string) -> RunOutcome)
    returns (r: StepResult)
    ensures var o := run(ProofSource(rpc, goalType, tacticScript, theoremName), "prove_" + theoremName);
            && r.valid == o.ok
            && r.stdout == Some(o.out) && r.stderr == Some(o.err)
            && (o.ok ==> r.newState == Some(LeanState(theoremName, goalType, [], [])) && r.error == None)
            && (!o.ok ==> r.newState == None
                          && r.error == Some(FirstLeanError(if o.err != [] then o.err else o.out)))
  {
    var body := Preamble(rpc.imports, rpc.extraPrelude) + "\n";
    body := body + "set_option maxRecDepth 10000\n";
    body := body + "set_option maxHeartbeats 200000\n\n";
    var script := RStrip(Dedent(tacticScript)) + "\n";
    body := body + "theorem " + theoremName + " : " + goalType + " := by\n";
    body := body + Indent(script, 2);
    var o := run(body, "prove_" + theoremName);
    if o.ok {
      r := StepResult(true, Some(LeanState(theoremName, goalType, [], [])), None, Some(o.out), Some(o.err));
    } else {
      var concise := FirstLeanError(if o.err != [] then o.err else o.out);
      r := StepResult(false, None, Some(concise), Some(o.out), Some(o.err));
    }
  }
}

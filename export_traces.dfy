/**
 * The statement/trace exporter for mathlib4: how traced theorems and swept
 * declaration rows become statement records, how the two are merged with
 * theorem priority and cut to a limit, and how proof traces are attached to
 * the kept statements.
 *
 * LeanDojo's traced theorems arrive as input records; artifact files arrive
 * as a listing whose contents are decoded by a `parse` oracle standing for
 * `json.loads`.
 */
module ExportTraces {
  import opened Wrappers
  import opened Text
  import opened JsonValue
  import opened Paths

  /** Cap used by `--test` when no `--limit` is given. */
  const TestLimit: nat := 10

  // ------------------------- helpers -------------------------

  /** `limited`: the first `limit` items (`islice`), or all of them without a limit. */
  function Limited<T>(xs: seq<T>, limit: Option<nat>): (r: seq<T>)
    ensures r <= xs
    ensures limit.None? ==> r == xs
    ensures limit.Some? ==> |r| <= limit.value && (|xs| <= limit.value ==> r == xs)
    ensures limit.Some? && limit.value < |xs| ==> |r| == limit.value
  {
    match limit
    case None => xs
    case Some(n) => if n < |xs| then xs[..n] else xs
  }

  /** One entry of a directory listing (`iterdir`). */
  datatype DirEntry = DirEntry(name: string, isDir: bool)

  /** Names of the sub-directories in a listing, in listing order. */
  function Subdirs(listing: seq<DirEntry>): (r: seq<string>)
    ensures |r| <= |listing|
    ensures forall n :: n in r <==> exists e :: e in listing && e.isDir && e.name == n
  {
    if listing == [] then []
    else (if listing[0].isDir then [listing[0].name] else []) + Subdirs(listing[1..])
  }

  /** Whether the listing has an entry (of any kind) with this name. */
  predicate Listed(listing: seq<DirEntry>, name: string) {
    exists e :: e in listing && e.name == name
  }

  /**
   * `detect_traced_root`: a missing `dst` is returned as is; a `dst` holding
   * exactly one sub-directory resolves to it; otherwise `dst/mathlib4` when
   * that exists, else `dst`.
   */
  function DetectTracedRoot(dst: Path, dstExists: bool, listing: seq<DirEntry>): (r: Path)
    ensures !dstExists ==> r == dst
    ensures dstExists && |Subdirs(listing)| == 1 ==> r == dst + Subdirs(listing)
    ensures dstExists && |Subdirs(listing)| != 1 ==>
              r == if Listed(listing, "mathlib4") then dst + ["mathlib4"] else dst
    ensures r == dst || (|r| == |dst| + 1 && r[..|dst|] == dst && dstExists && Listed(listing, r[|dst|]))
  {
    if !dstExists then dst
    else
      var subs := Subdirs(listing);
      if |subs| == 1 then
        assert subs[0] in subs;
        dst + [subs[0]]
      else if Listed(listing, "mathlib4") then dst + ["mathlib4"]
      else dst
  }

  /**
   * `infer_mod_and_name`: the name is the last dot-separated component and the
   * module everything before the last dot ("" when there is no dot).
   */
  function InferModAndName(full: string): (r: (string, string))
    ensures '.' !in r.1
    ensures '.' in full ==> r.0 + "." + r.1 == full
    ensures '.' !in full ==> r.0 == "" && r.1 == full
  {
    var parts := SplitOn(full, '.');
    var name := parts[|parts| - 1];
    if |parts| > 1 then
      JoinSnoc(parts, ".");
      (Join(parts[..|parts| - 1], "."), name)
    else
      ("", name)
  }

  // ------------------------- records -------------------------

  /** One entry of the exported `statements` list. */
  datatype StatementRecord = StatementRecord(id: string, sys: string, mod: string, name: string, kind: Json, stmt: Json)

  /**
   * `build_statement_record`: the id is "lean:" and the full name, the system
   * "lean", the kind the given one or "const" when that is falsy, and the
   * statement the given type untouched.
   */
  function BuildStatementRecord(fullName: string, typ: Json, kind: Json): (r: StatementRecord)
    ensures r.id == "lean:" + fullName && r.sys == "lean" && r.stmt == typ
    ensures r.kind == if Truthy(kind) then kind else JStr("const")
    ensures '.' !in r.name
    ensures '.' in fullName ==> r.mod + "." + r.name == fullName
    ensures '.' !in fullName ==> r.mod == "" && r.name == fullName
  {
    var mn := InferModAndName(fullName);
    StatementRecord("lean:" + fullName, "lean", mn.0, mn.1, if Truthy(kind) then kind else JStr("const"), typ)
  }

  /** Two records with the same id were built from the same full name. */
  lemma SameIdSameName(a: string, b: string, ta: Json, tb: Json, ka: Json, kb: Json)
    requires BuildStatementRecord(a, ta, ka).id == BuildStatementRecord(b, tb, kb).id
    ensures a == b
  {
    var p := "lean:";
    assert a == (p + a)[|p|..];
    assert b == (p + b)[|p|..];
  }

  // ------------------------- artifact rows -------------------------

  /** A declaration row produced by `maybe_decl`. */
  datatype DeclRow = DeclRow(fullName: string, typ: Json, kind: Json)

  const NameKeys: seq<string> := ["full_name", "name", "decl_name", "constant"]
  const TypeKeys: seq<string> := ["type", "ty", "signature"]
  const KindKeys: seq<string> := ["kind", "k", "decl_kind", "declType"]

  /**
   * `maybe_decl`: for a JSON object, each field comes from the first truthy
   * alias (or the last alias's value); a row is produced when the chosen name
   * is a string and the chosen type or kind is not null.
   */
  function MaybeDecl(obj: Json): (r: Option<DeclRow>)
    ensures r.Some? ==> obj.JObj?
    ensures obj.JObj? ==>
              (r.Some? <==> Lookup(obj.fields, NameKeys).JStr?
                            && (Lookup(obj.fields, TypeKeys) != JNull || Lookup(obj.fields, KindKeys) != JNull))
    ensures r.Some? ==> r.value.typ != JNull || r.value.kind != JNull
    ensures obj.JObj? && r.Some? ==>
              r.value.typ == Lookup(obj.fields, TypeKeys) && r.value.kind == Lookup(obj.fields, KindKeys)
    ensures r.Some? ==> exists i :: 0 <= i < |NameKeys| && Get(obj.fields, NameKeys[i]) == JStr(r.value.fullName)
                                    && forall j :: 0 <= j < i ==> !Truthy(Get(obj.fields, NameKeys[j]))
  {
    match obj
    case JObj(fields) =>
      var full := Lookup(fields, NameKeys);
      var typ := Lookup(fields, TypeKeys);
      var kind := Lookup(fields, KindKeys);
      if full.JStr? && (typ != JNull || kind != JNull) then Some(DeclRow(full.str, typ, kind)) else None
    case _ => None
  }

  /** The placeholder `{"_raw": line}` for an unparsable JSONL line is never taken as a declaration. */
  lemma RawNeverAccepted(line: string)
    ensures MaybeDecl(JObj(map["_raw" := JStr(line)])) == None
  {
    var fields := map["_raw" := JStr(line)];
    assert forall k :: k in NameKeys ==> Get(fields, k) == JNull;
    assert Get(fields, NameKeys[3]) == JNull;
  }

  /** The rows `maybe_decl` appends for one probed value. */
  function Probe(v: Json): seq<DeclRow> {
    match MaybeDecl(v)
    case None => []
    case Some(row) => [row]
  }

  /** The rows appended while probing every item of a list, in order. */
  function ProbeAll(items: seq<Json>): (rows: seq<DeclRow>)
    ensures |rows| <= |items|
    ensures forall r :: r in rows ==> r.typ != JNull || r.kind != JNull
  {
    if items == [] then [] else ProbeAll(items[..|items| - 1]) + Probe(items[|items| - 1])
  }

  lemma {:induction false} ProbeAllAppend(a: seq<Json>, b: seq<Json>)
    ensures ProbeAll(a + b) == ProbeAll(a) + ProbeAll(b)
    decreases |b|
  {
    if b != [] {
      var b' := b[..|b| - 1];
      assert (a + b)[..|a + b| - 1] == a + b';
      ProbeAllAppend(a, b');
    } else {
      assert a + b == a;
    }
  }

  // ------------------------- JSONL -------------------------

  /**
   * The physical lines of a text file read in text mode: pieces between '\n'
   * and '\r' characters. A "\r\n" pair leaves an empty piece between its two
   * characters, which the blank-line skip of `load_jsonl` drops, so the
   * records read are those of Python's universal-newline iteration.
   */
  function FileLines(content: string): (lines: seq<string>)
    ensures |lines| >= 1
    ensures forall i :: 0 <= i < |lines| ==> '\n' !in lines[i] && '\r' !in lines[i]
    decreases |content|
  {
    if content == [] then [[]]
    else
      var rest := FileLines(content[1..]);
      if content[0] == '\n' || content[0] == '\r' then [[]] + rest
      else [[content[0]] + rest[0]] + rest[1..]
  }

  /** The item `load_jsonl` appends for a stripped, non-blank line. */
  function JsonlItem(line: string, parse: string -> Option<Json>): Json {
    match parse(line)
    case Some(v) => v
    case None => JObj(map["_raw" := JStr(line)])
  }

  /** The items `load_jsonl` returns for these physical lines. */
  function JsonlItems(lines: seq<string>, parse: string -> Option<Json>): (items: seq<Json>)
    ensures |items| <= |lines|
  {
    if lines == [] then []
    else
      var rest := JsonlItems(lines[..|lines| - 1], parse);
      var line := Strip(lines[|lines| - 1]);
      if line == [] then rest else rest + [JsonlItem(line, parse)]
  }

  /** `load_jsonl`: strip each line, skip blank ones, decode the rest or keep them as `{"_raw": line}`. */
  method LoadJsonl(content: string, parse: string -> Option<Json>) returns (out: seq<Json>)
    ensures out == JsonlItems(FileLines(content), parse)
  {
    var lines := FileLines(content);
    out := [];
    var k := 0;
    while k < |lines|
      invariant 0 <= k <= |lines|
      invariant out == JsonlItems(lines[..k], parse)
    {
      assert lines[..k + 1][..k] == lines[..k];
      var line := Strip(lines[k]);
      k := k + 1;
      if line == [] {
        continue;
      }
      match parse(line)
      case Some(v) => out := out + [v];
      case None => out := out + [JObj(map["_raw" := JStr(line)])];
    }
    assert lines[..k] == lines;
  }

  /** The successfully decoded values of the non-blank lines, in order. */
  function ParsedItems(lines: seq<string>, parse: string -> Option<Json>): seq<Json> {
    if lines == [] then []
    else
      var line := Strip(lines[|lines| - 1]);
      ParsedItems(lines[..|lines| - 1], parse)
      + (if line != [] && parse(line).Some? then [parse(line).value] else [])
  }

  /** The `{"_raw": line}` placeholders add no row: a JSONL file yields exactly the rows of its decoded lines. */
  lemma {:induction false} JsonlRawDropped(lines: seq<string>, parse: string -> Option<Json>)
    ensures ProbeAll(JsonlItems(lines, parse)) == ProbeAll(ParsedItems(lines, parse))
  {
    if lines != [] {
      var prev := lines[..|lines| - 1];
      var line := Strip(lines[|lines| - 1]);
      var j0 := JsonlItems(prev, parse);
      var p0 := ParsedItems(prev, parse);
      JsonlRawDropped(prev, parse);
      if line != [] {
        match parse(line)
        case None =>
          assert JsonlItems(lines, parse) == j0 + [JObj(map["_raw" := JStr(line)])];
          assert ParsedItems(lines, parse) == p0;
          RawStep(j0, p0, line);
        case Some(v) =>
          assert JsonlItems(lines, parse) == j0 + [v];
          assert ParsedItems(lines, parse) == p0 + [v];
          ProbeSnoc(j0, v);
          ProbeSnoc(p0, v);
      } else {
        assert JsonlItems(lines, parse) == j0;
        assert ParsedItems(lines, parse) == p0;
      }
    }
  }

  /** A `{"_raw": line}` placeholder appended to the items adds no row. */
  lemma RawStep(j0: seq<Json>, p0: seq<Json>, line: string)
    requires ProbeAll(j0) == ProbeAll(p0)
    ensures ProbeAll(j0 + [JObj(map["_raw" := JStr(line)])]) == ProbeAll(p0)
  {
    var raw := JObj(map["_raw" := JStr(line)]);
    ProbeSnoc(j0, raw);
    RawNeverAccepted(line);
    assert ProbeAll(j0) + [] == ProbeAll(j0);
  }

  /** Probing one more item appends that item's row, if any. */
  lemma ProbeSnoc(items: seq<Json>, v: Json)
    ensures ProbeAll(items + [v]) == ProbeAll(items) + Probe(v)
  {
    assert (items + [v])[..|items|] == items;
  }

  // ------------------------- sweep -------------------------

  /** A file or directory met while walking the traced root; `content` is None when it cannot be read as UTF-8. */
  datatype FileEntry = FileEntry(name: string, isFile: bool, content: Option<string>)

  const ContainerKeys: seq<string> := ["decls", "constants", "items", "rows"]

  /** The list under `key`, or nothing when the key is missing or does not hold a list. */
  function KeyItems(fields: map<string, Json>, key: string): seq<Json> {
    if key in fields && fields[key].JArr? then fields[key].items else []
  }

  /** The items of the nested list containers of an object, key by key. */
  function ContainerItems(fields: map<string, Json>, keys: seq<string>): (items: seq<Json>) {
    if keys == [] then []
    else ContainerItems(fields, keys[..|keys| - 1]) + KeyItems(fields, keys[|keys| - 1])
  }

  /** Rows of a decoded `.json` payload: a list probes its items; an object its containers and then itself. */
  function PayloadRows(payload: Json): seq<DeclRow> {
    match payload
    case JArr(items) => ProbeAll(items)
    case JObj(fields) => ProbeAll(ContainerItems(fields, ContainerKeys)) + Probe(payload)
    case _ => []
  }

  /** The lower-cased suffix of an entry's name. */
  function LowerSuffix(e: FileEntry): string {
    AsciiLower(Suffix(e.name))
  }

  /** Rows one entry contributes; an entry that raises (unreadable or undecodable) contributes none. */
  function FileRows(e: FileEntry, parse: string -> Option<Json>): seq<DeclRow> {
    if !e.isFile then []
    else if LowerSuffix(e) == ".json" then
      match e.content
      case None => []
      case Some(c) =>
        match parse(c)
        case None => []
        case Some(payload) => PayloadRows(payload)
    else if LowerSuffix(e) == ".jsonl" then
      match e.content
      case None => []
      case Some(c) => ProbeAll(JsonlItems(FileLines(c), parse))
    else []
  }

  /** Rows of all entries in walk order. */
  function SweepRows(entries: seq<FileEntry>, parse: string -> Option<Json>): (rows: seq<DeclRow>)
    ensures forall r :: r in rows ==> r.typ != JNull || r.kind != JNull
  {
    if entries == [] then []
    else SweepRows(entries[..|entries| - 1], parse) + FileRows(entries[|entries| - 1], parse)
  }

  /** Appends the rows `maybe_decl` yields for each item, as the closure does. */
  method ProbeInto(rows: seq<DeclRow>, items: seq<Json>) returns (out: seq<DeclRow>)
    ensures out == rows + ProbeAll(items)
  {
    out := rows;
    var k := 0;
    while k < |items|
      invariant 0 <= k <= |items|
      invariant out == rows + ProbeAll(items[..k])
    {
      ProbeStep(items, k);
      var m := MaybeDecl(items[k]);
      if m.Some? {
        out := out + [m.value];
      }
      ConcatAssoc(rows, ProbeAll(items[..k]), Probe(items[k]));
      k := k + 1;
    }
    assert items[..k] == items;
  }

  lemma ProbeStep(items: seq<Json>, k: nat)
    requires k < |items|
    ensures ProbeAll(items[..k + 1]) == ProbeAll(items[..k]) + Probe(items[k])
  {
    assert items[..k + 1][..k] == items[..k];
  }

  /** `sweep_artifacts`: walks the entries and collects declaration rows from `.json` and `.jsonl` files. */
  method SweepArtifacts(entries: seq<FileEntry>, parse: string -> Option<Json>) returns (rows: seq<DeclRow>)
    ensures rows == SweepRows(entries, parse)
  {
    rows := [];
    var k := 0;
    while k < |entries|
      invariant 0 <= k <= |entries|
      invariant rows == SweepRows(entries[..k], parse)
    {
      assert entries[..k + 1][..k] == entries[..k];
      rows := SweepFile(rows, entries[k], parse);
      k := k + 1;
    }
    assert entries[..k] == entries;
  }

  /** One pass of the walk: a file that raises, or is neither `.json` nor `.jsonl`, adds nothing. */
  method SweepFile(rows: seq<DeclRow>, e: FileEntry, parse: string -> Option<Json>) returns (out: seq<DeclRow>)
    ensures out == rows + FileRows(e, parse)
  {
    out := rows;
    assert rows + [] == rows;
    if !e.isFile {
      return;
    }
    var suf := AsciiLower(Suffix(e.name));
    if suf == ".json" {
      if e.content.None? {
        return;
      }
      var payload := parse(e.content.value);
      if payload.None? {
        return;
      }
      assert FileRows(e, parse) == PayloadRows(payload.value);
      match payload.value
      case JArr(items) =>
        out := ProbeInto(out, items);
      case JObj(fields) =>
        out := ProbeContainers(out, fields, ContainerKeys);
        out := ProbeInto(out, [payload.value]);
        ProbeOne(payload.value);
        ConcatAssoc(rows, ProbeAll(ContainerItems(fields, ContainerKeys)), Probe(payload.value));
      case _ =>
    } else if suf == ".jsonl" {
      if e.content.None? {
        return;
      }
      var items := LoadJsonl(e.content.value, parse);
      out := ProbeInto(out, items);
    }
  }

  lemma ProbeOne(v: Json)
    ensures ProbeAll([v]) == Probe(v)
  {
    ProbeSnoc([], v);
    assert [] + [v] == [v];
  }

  /** Probes the items of the list under each key in turn (`decls`, `constants`, `items`, `rows`). */
  method ProbeContainers(rows: seq<DeclRow>, fields: map<string, Json>, keys: seq<string>) returns (out: seq<DeclRow>)
    ensures out == rows + ProbeAll(ContainerItems(fields, keys))
  {
    out := rows;
    var i := 0;
    while i < |keys|
      invariant 0 <= i <= |keys|
      invariant out == rows + ProbeAll(ContainerItems(fields, keys[..i]))
    {
      var key := keys[i];
      ContainerStep(fields, keys, i);
      ConcatAssoc(rows, ProbeAll(ContainerItems(fields, keys[..i])), ProbeAll(KeyItems(fields, key)));
      if key in fields && fields[key].JArr? {
        out := ProbeInto(out, fields[key].items);
      } else {
        assert ProbeAll(KeyItems(fields, key)) == [];
        assert out + [] == out;
      }
      i := i + 1;
    }
    assert keys[..i] == keys;
  }

  lemma ContainerStep(fields: map<string, Json>, keys: seq<string>, i: nat)
    requires i < |keys|
    ensures ProbeAll(ContainerItems(fields, keys[..i + 1]))
            == ProbeAll(ContainerItems(fields, keys[..i])) + ProbeAll(KeyItems(fields, keys[i]))
  {
    var a := ContainerItems(fields, keys[..i]);
    var b := KeyItems(fields, keys[i]);
    assert keys[..i + 1][..i] == keys[..i];
    assert ContainerItems(fields, keys[..i + 1]) == a + b;
    ProbeAllAppend(a, b);
  }

  // ------------------------- traced theorems -------------------------

  /** The pair `get_annotated_tactic` returns. */
  datatype Annotation = Annotation(annotated: string, premises: Json)

  /**
   * One traced tactic: its optional attributes, and its annotation or None
   * when `get_annotated_tactic` raises.
   */
  datatype Tactic = Tactic(stateBefore: Option<string>, stateAfter: Option<string>, tactic: Option<string>,
                           annotation: Option<Annotation>)

  /** An exception: its class name and message. */
  datatype Raised = Raised(typeName: string, message: string)

  /**
   * A traced theorem: its full name, statement, the tactics its iterator
   * yielded, and the exception the iterator raised after them, if any.
   */
  datatype TracedTheorem = TracedTheorem(fullName: string, statement: string, tactics: seq<Tactic>, failure: Option<Raised>)

  /** One entry of a trace's `steps`. */
  datatype Step =
    | Step(i: nat, stateBefore: Option<string>, stateAfter: Option<string>, action: Option<string>,
           tacticAnnotated: Option<string>, premises: Option<Json>)
    | TacticsError(description: string)

  datatype Trace = Trace(theoremId: string, steps: seq<Step>)

  function TheoremId(th: TracedTheorem): string {
    "lean:" + th.fullName
  }

  /** The step entry for the `i`-th tactic; a failed annotation leaves both annotation fields None. */
  function StepOf(i: nat, t: Tactic): Step {
    match t.annotation
    case Some(a) => Step(i, t.stateBefore, t.stateAfter, t.tactic, Some(a.annotated), Some(a.premises))
    case None => Step(i, t.stateBefore, t.stateAfter, t.tactic, None, None)
  }

  /**
   * The steps of a theorem: numbered 0, 1, 2, ... in tactic order, with one
   * `_tactics_error` entry after them when the iterator raised.
   */
  function StepsOf(th: TracedTheorem): (steps: seq<Step>)
    ensures |steps| == |th.tactics| + (if th.failure.Some? then 1 else 0)
    ensures forall k :: 0 <= k < |th.tactics| ==> steps[k].Step? && steps[k].i == k
    ensures forall k :: 0 <= k < |th.tactics| && th.tactics[k].annotation.None? ==>
              steps[k].tacticAnnotated.None? && steps[k].premises.None?
    ensures forall k :: 0 <= k < |th.tactics| ==> steps[k].action == th.tactics[k].tactic
    ensures th.failure.Some? ==>
              steps[|steps| - 1] == TacticsError(th.failure.value.typeName + ": " + th.failure.value.message)
  {
    seq(|th.tactics|, k requires 0 <= k < |th.tactics| => StepOf(k, th.tactics[k]))
    + match th.failure
      case Some(e) => [TacticsError(e.typeName + ": " + e.message)]
      case None => []
  }

  function TraceOf(th: TracedTheorem): Trace {
    Trace(TheoremId(th), StepsOf(th))
  }

  /** Traces of the theorems whose id is allowed, in theorem order. */
  function Kept(theorems: seq<TracedTheorem>, allowed: set<string>): (r: seq<Trace>)
    ensures |r| <= |theorems|
    ensures forall t :: t in r ==> t.theoremId in allowed
  {
    if theorems == [] then []
    else
      var th := theorems[|theorems| - 1];
      Kept(theorems[..|theorems| - 1], allowed) + (if TheoremId(th) in allowed then [TraceOf(th)] else [])
  }

  lemma {:induction false} KeptAppend(a: seq<TracedTheorem>, b: seq<TracedTheorem>, allowed: set<string>)
    ensures Kept(a + b, allowed) == Kept(a, allowed) + Kept(b, allowed)
    decreases |b|
  {
    if b == [] {
      assert a + b == a;
    } else {
      var b' := b[..|b| - 1];
      assert (a + b)[..|a + b| - 1] == a + b';
      KeptAppend(a, b', allowed);
    }
  }

  /** `pos` gives, for each kept trace in turn, the strictly increasing position of its theorem. */
  predicate Origins(theorems: seq<TracedTheorem>, kept: seq<Trace>, pos: seq<nat>) {
    && |pos| == |kept|
    && (forall k :: 0 <= k < |pos| ==> pos[k] < |theorems| && kept[k] == TraceOf(theorems[pos[k]]))
    && (forall k, l :: 0 <= k < l < |pos| ==> pos[k] < pos[l])
  }

  /** Every allowed theorem's position is listed. */
  predicate Covers(theorems: seq<TracedTheorem>, allowed: set<string>, pos: seq<nat>) {
    forall j :: 0 <= j < |theorems| && TheoremId(theorems[j]) in allowed ==> j in pos
  }

  /**
   * Where each kept trace comes from: strictly increasing positions of the
   * allowed theorems, covering every allowed theorem.
   */
  ghost function KeptPositions(theorems: seq<TracedTheorem>, allowed: set<string>): (pos: seq<nat>)
    ensures Origins(theorems, Kept(theorems, allowed), pos)
    ensures Covers(theorems, allowed, pos)
  {
    if theorems == [] then []
    else
      var n := |theorems| - 1;
      var prev := KeptPositions(theorems[..n], allowed);
      OriginsSnoc(theorems, allowed, prev);
      CoversSnoc(theorems, allowed, prev);
      if TheoremId(theorems[n]) in allowed then prev + [n] else prev
  }

  lemma OriginsSnoc(theorems: seq<TracedTheorem>, allowed: set<string>, prev: seq<nat>)
    requires theorems != []
    requires Origins(theorems[..|theorems| - 1], Kept(theorems[..|theorems| - 1], allowed), prev)
    ensures var n := |theorems| - 1;
            Origins(theorems, Kept(theorems, allowed), if TheoremId(theorems[n]) in allowed then prev + [n] else prev)
  {
    var n := |theorems| - 1;
    var before := theorems[..n];
    var kb := Kept(before, allowed);
    OriginsExtend(theorems, kb, prev, n);
  }

  /** Positions valid in a prefix of the theorems stay valid in the whole list. */
  lemma OriginsExtend(theorems: seq<TracedTheorem>, kb: seq<Trace>, prev: seq<nat>, n: nat)
    requires n < |theorems|
    requires Origins(theorems[..n], kb, prev)
    ensures Origins(theorems, kb, prev)
    ensures forall k :: 0 <= k < |prev| ==> prev[k] < n
    ensures Origins(theorems, kb + [TraceOf(theorems[n])], prev + [n])
  {
    forall k | 0 <= k < |prev|
      ensures prev[k] < n && kb[k] == TraceOf(theorems[prev[k]])
    {
      assert theorems[..n][prev[k]] == theorems[prev[k]];
    }
    var kb' := kb + [TraceOf(theorems[n])];
    var prev' := prev + [n];
    forall k | 0 <= k < |prev'|
      ensures prev'[k] < |theorems| && kb'[k] == TraceOf(theorems[prev'[k]])
    {
      if k < |prev| {
        IndexLeft(kb, [TraceOf(theorems[n])], k);
        IndexLeft(prev, [n], k);
      }
    }
  }

  lemma CoversSnoc(theorems: seq<TracedTheorem>, allowed: set<string>, prev: seq<nat>)
    requires theorems != []
    requires Covers(theorems[..|theorems| - 1], allowed, prev)
    ensures var n := |theorems| - 1;
            Covers(theorems, allowed, if TheoremId(theorems[n]) in allowed then prev + [n] else prev)
  {
    var n := |theorems| - 1;
    forall j | 0 <= j < n
      ensures theorems[..n][j] == theorems[j]
    {
    }
  }

  // ------------------------- main: merge, limit, traces -------------------------

  /** `limit`: `max(0, --limit)` when given, otherwise 10 under `--test`, otherwise none. */
  function EffectiveLimit(test: bool, limitArg: Option<int>): (limit: Option<nat>)
    ensures limitArg.Some? ==> limit.Some? && limit.value >= limitArg.value && (limitArg.value >= 0 ==> limit.value == limitArg.value)
    ensures limitArg.Some? && limitArg.value < 0 ==> limit == Some(0)
    ensures limitArg.None? && test ==> limit == Some(TestLimit)
    ensures limitArg.None? && !test ==> limit.None?
  {
    match limitArg
    case Some(n) => Some(if n < 0 then 0 else n)
    case None => if test then Some(TestLimit) else None
  }

  function TheoremRecord(th: TracedTheorem): StatementRecord {
    BuildStatementRecord(th.fullName, JStr(th.statement), JStr("thm"))
  }

  function RowRecord(row: DeclRow): StatementRecord {
    BuildStatementRecord(row.fullName, row.typ, row.kind)
  }

  function TheoremRecords(theorems: seq<TracedTheorem>): (recs: seq<StatementRecord>)
    ensures |recs| == |theorems|
  {
    seq(|theorems|, i requires 0 <= i < |theorems| => TheoremRecord(theorems[i]))
  }

  function RowRecords(rows: seq<DeclRow>): (recs: seq<StatementRecord>)
    ensures |recs| == |rows|
  {
    seq(|rows|, i requires 0 <= i < |rows| => RowRecord(rows[i]))
  }

  function Ids(recs: seq<StatementRecord>): set<string> {
    set r | r in recs :: r.id
  }

  /** The `seen_ids` merge: a record is appended only when no earlier record has its id. */
  function Dedup(recs: seq<StatementRecord>): (d: seq<StatementRecord>)
    ensures |d| <= |recs|
    ensures Ids(d) == Ids(recs)
    ensures forall r :: r in d ==> r in recs
  {
    if recs == [] then []
    else
      var prev := recs[..|recs| - 1];
      var d := Dedup(prev);
      var r := recs[|recs| - 1];
      assert recs == prev + [r];
      IdsSnoc(prev, r);
      IdsSnoc(d, r);
      if r.id in Ids(d) then d else d + [r]
  }

  /** The merged statements: the first `limit` traced theorems, then the swept rows, by first id. */
  function Merge(theorems: seq<TracedTheorem>, rows: seq<DeclRow>, limit: Option<nat>): seq<StatementRecord> {
    Dedup(TheoremRecords(Limited(theorems, limit)) + RowRecords(rows))
  }

  /** The exported `statements`: the merged list cut to the limit. */
  function Statements(theorems: seq<TracedTheorem>, rows: seq<DeclRow>, limit: Option<nat>): seq<StatementRecord> {
    Limited(Merge(theorems, rows, limit), limit)
  }

  /** The exported `traces`: kept traces cut to the limit. */
  function Traces(theorems: seq<TracedTheorem>, statements: seq<StatementRecord>, limit: Option<nat>): seq<Trace> {
    Limited(Kept(theorems, Ids(statements)), limit)
  }

  datatype Counts = Counts(statements: nat, traces: nat)

  datatype Meta = Meta(repo: string, repoCommit: string, tracedRoot: string, counts: Counts)

  /** The written payload. */
  datatype Payload = Payload(statements: seq<StatementRecord>, traces: seq<Trace>, meta: Meta)

  /** Builds the steps of one theorem, numbering them as they are appended. */
  method BuildSteps(th: TracedTheorem) returns (steps: seq<Step>)
    ensures steps == StepsOf(th)
  {
    steps := [];
    var i := 0;
    while i < |th.tactics|
      invariant 0 <= i <= |th.tactics|
      invariant steps == seq(i, k requires 0 <= k < i => StepOf(k, th.tactics[k]))
    {
      var t := th.tactics[i];
      var annotated: Option<string> := None;
      var premises: Option<Json> := None;
      if t.annotation.Some? {
        annotated := Some(t.annotation.value.annotated);
        premises := Some(t.annotation.value.premises);
      }
      steps := steps + [Step(i, t.stateBefore, t.stateAfter, t.tactic, annotated, premises)];
      i := i + 1;
    }
    if th.failure.Some? {
      steps := steps + [TacticsError(th.failure.value.typeName + ": " + th.failure.value.message)];
    }
  }

  /**
   * The merge/limit/trace section of the exporter's `main`, over the traced
   * theorems and the swept rows.
   */
  method Export(test: bool, limitArg: Option<int>, theorems: seq<TracedTheorem>, rows: seq<DeclRow>,
                repo: string, commit: string, tracedRoot: string)
    returns (p: Payload)
    ensures p.statements == Statements(theorems, rows, EffectiveLimit(test, limitArg))
    ensures p.traces == Traces(theorems, p.statements, EffectiveLimit(test, limitArg))
    ensures p.meta == Meta(repo, commit, tracedRoot, Counts(|p.statements|, |p.traces|))
  {
    var limit: Option<nat> := if test then Some(TestLimit) else None;
    if limitArg.Some? {
      limit := Some(if limitArg.value < 0 then 0 else limitArg.value);
    }
    var statements := MergeStatements(theorems, rows, limit);
    var allowed := Ids(statements);
    var traces := CollectTraces(theorems, allowed, limit);
    if limit == Some(0) {
      KeptNothing(theorems, allowed);
    }
    p := Payload(statements, traces, Meta(repo, commit, tracedRoot, Counts(|statements|, |traces|)));
  }

  /** Parts A and B of the statements section, then the final cut to the limit. */
  method MergeStatements(theorems: seq<TracedTheorem>, rows: seq<DeclRow>, limit: Option<nat>)
    returns (statements: seq<StatementRecord>)
    ensures statements == Statements(theorems, rows, limit)
  {
    var chosen := Limited(theorems, limit);
    var seen: set<string>;
    statements, seen := MergeTheorems(chosen);
    statements, seen := MergeRows(TheoremRecords(chosen), statements, seen, rows);
    if limit.Some? && limit.value < |statements| {
      statements := statements[..limit.value];
    }
  }

  /** Part A: a record per traced theorem, skipping ids already seen. */
  method MergeTheorems(chosen: seq<TracedTheorem>) returns (statements: seq<StatementRecord>, seen: set<string>)
    ensures statements == Dedup(TheoremRecords(chosen))
    ensures seen == Ids(statements)
  {
    statements := [];
    seen := {};
    var k := 0;
    while k < |chosen|
      invariant 0 <= k <= |chosen|
      invariant statements == Dedup(TheoremRecords(chosen[..k]))
      invariant seen == Ids(statements)
    {
      var rec := TheoremRecord(chosen[k]);
      RecordsSnoc(chosen, k);
      DedupStep(TheoremRecords(chosen[..k + 1]), TheoremRecords(chosen[..k]), rec);
      if rec.id !in seen {
        IdsSnoc(statements, rec);
        statements := statements + [rec];
        seen := seen + {rec.id};
      }
      k := k + 1;
    }
    assert chosen[..k] == chosen;
  }

  /** Part B: a record per swept row, skipping ids already seen. */
  method MergeRows(thmRecs: seq<StatementRecord>, statements0: seq<StatementRecord>, seen0: set<string>,
                   rows: seq<DeclRow>)
    returns (statements: seq<StatementRecord>, seen: set<string>)
    requires statements0 == Dedup(thmRecs) && seen0 == Ids(statements0)
    ensures statements == Dedup(thmRecs + RowRecords(rows))
    ensures seen == Ids(statements)
  {
    statements, seen := statements0, seen0;
    var k := 0;
    assert thmRecs + RowRecords(rows[..0]) == thmRecs;
    while k < |rows|
      invariant 0 <= k <= |rows|
      invariant statements == Dedup(thmRecs + RowRecords(rows[..k]))
      invariant seen == Ids(statements)
    {
      var rec := RowRecord(rows[k]);
      RowRecordsSnoc(thmRecs, rows, k);
      DedupStep(thmRecs + RowRecords(rows[..k + 1]), thmRecs + RowRecords(rows[..k]), rec);
      if rec.id !in seen {
        IdsSnoc(statements, rec);
        statements := statements + [rec];
        seen := seen + {rec.id};
      }
      k := k + 1;
    }
    assert rows[..k] == rows;
  }

  /** One step of the `seen_ids` merge. */
  lemma DedupStep(recs: seq<StatementRecord>, prefix: seq<StatementRecord>, r: StatementRecord)
    requires recs != [] && recs[..|recs| - 1] == prefix && recs[|recs| - 1] == r
    ensures Dedup(recs) == if r.id in Ids(Dedup(prefix)) then Dedup(prefix) else Dedup(prefix) + [r]
  {
  }

  lemma RecordsSnoc(chosen: seq<TracedTheorem>, k: nat)
    requires k < |chosen|
    ensures var recs := TheoremRecords(chosen[..k + 1]);
            recs[..k] == TheoremRecords(chosen[..k]) && recs[k] == TheoremRecord(chosen[k])
  {
  }

  lemma RowRecordsSnoc(thmRecs: seq<StatementRecord>, rows: seq<DeclRow>, k: nat)
    requires k < |rows|
    ensures var recs := thmRecs + RowRecords(rows[..k + 1]);
            recs[..|recs| - 1] == thmRecs + RowRecords(rows[..k]) && recs[|recs| - 1] == RowRecord(rows[k])
  {
    var recs := thmRecs + RowRecords(rows[..k + 1]);
    assert RowRecords(rows[..k + 1]) == RowRecords(rows[..k]) + [RowRecord(rows[k])];
    ConcatAssoc(thmRecs, RowRecords(rows[..k]), [RowRecord(rows[k])]);
  }

  /** The loop's effective cap: it stops once `count >= limit`, which a limit of 0 only reaches after one trace. */
  function LoopCap(limit: Option<nat>): (cap: Option<nat>)
    ensures limit.None? ==> cap.None?
    ensures limit.Some? ==> cap.Some? && cap.value >= 1 && (limit.value >= 1 ==> cap == limit)
  {
    match limit
    case None => None
    case Some(n) => Some(if n == 0 then 1 else n)
  }

  /**
   * The traces section: walks all traced theorems, skips those whose id was
   * not kept, and stops once `count` reaches the limit.
   */
  method CollectTraces(theorems: seq<TracedTheorem>, allowed: set<string>, limit: Option<nat>)
    returns (traces: seq<Trace>)
    ensures traces == Limited(Kept(theorems, allowed), LoopCap(limit))
  {
    traces := [];
    var count := 0;
    var idx := 0;
    while idx < |theorems|
      invariant 0 <= idx <= |theorems|
      invariant traces == Kept(theorems[..idx], allowed)
      invariant count == |traces|
      invariant limit.Some? ==> count < LoopCap(limit).value
    {
      var th := theorems[idx];
      var theId := "lean:" + th.fullName;
      KeptStep(theorems, idx, allowed);
      if theId !in allowed {
        assert traces + [] == traces;
        idx := idx + 1;
        continue;
      }
      var steps := BuildSteps(th);
      traces := traces + [Trace(theId, steps)];
      count := count + 1;
      if limit.Some? && count >= limit.value {
        CapReached(theorems, idx + 1, allowed, limit);
        return;
      }
      idx := idx + 1;
    }
    assert theorems[..idx] == theorems;
  }

  lemma KeptStep(theorems: seq<TracedTheorem>, idx: nat, allowed: set<string>)
    requires idx < |theorems|
    ensures var th := theorems[idx];
            Kept(theorems[..idx + 1], allowed)
            == Kept(theorems[..idx], allowed) + (if TheoremId(th) in allowed then [TraceOf(th)] else [])
  {
    assert theorems[..idx + 1][..idx] == theorems[..idx];
  }

  /** Once the kept prefix reaches the cap, the capped traces are that prefix. */
  lemma CapReached(theorems: seq<TracedTheorem>, n: nat, allowed: set<string>, limit: Option<nat>)
    requires n <= |theorems| && limit.Some?
    requires |Kept(theorems[..n], allowed)| == LoopCap(limit).value
    ensures Limited(Kept(theorems, allowed), LoopCap(limit)) == Kept(theorems[..n], allowed)
  {
    KeptAppend(theorems[..n], theorems[n..], allowed);
    assert theorems[..n] + theorems[n..] == theorems;
    var all := Kept(theorems, allowed);
    assert all[..|Kept(theorems[..n], allowed)|] == Kept(theorems[..n], allowed);
  }

  /** With no allowed id, no trace is kept. */
  lemma {:induction false} KeptNothing(theorems: seq<TracedTheorem>, allowed: set<string>)
    requires allowed == {}
    ensures Kept(theorems, allowed) == []
  {
    if theorems != [] {
      KeptNothing(theorems[..|theorems| - 1], allowed);
    }
  }

  // ------------------------- properties of the merge -------------------------

  lemma {:induction false} IdsSnoc(recs: seq<StatementRecord>, r: StatementRecord)
    ensures Ids(recs + [r]) == Ids(recs) + {r.id}
  {
    assert forall x :: x in recs + [r] <==> x in recs || x == r;
  }

  /** No two records share an id. */
  predicate DistinctIds(recs: seq<StatementRecord>) {
    forall i, j :: 0 <= i < j < |recs| ==> recs[i].id != recs[j].id
  }

  /** `r` occurs in `recs` before any other record with its id. */
  predicate FirstOfId(recs: seq<StatementRecord>, r: StatementRecord) {
    exists k :: 0 <= k < |recs| && recs[k] == r && forall j :: 0 <= j < k ==> recs[j].id != r.id
  }

  lemma DistinctSnoc(d: seq<StatementRecord>, r: StatementRecord)
    requires DistinctIds(d) && r.id !in Ids(d)
    ensures DistinctIds(d + [r])
  {
    var e := d + [r];
    forall i, j | 0 <= i < j < |e|
      ensures e[i].id != e[j].id
    {
      assert e[i] == d[i];
      if j < |d| {
        assert e[j] == d[j];
      } else {
        assert d[i] in d;
      }
    }
  }

  /** The merge never keeps two records with the same id. */
  lemma {:induction false} DedupDistinct(recs: seq<StatementRecord>)
    ensures DistinctIds(Dedup(recs))
  {
    if recs != [] {
      var prev := recs[..|recs| - 1];
      DedupDistinct(prev);
      var d := Dedup(prev);
      var r := recs[|recs| - 1];
      if r.id !in Ids(d) {
        DistinctSnoc(d, r);
      }
    }
  }

  lemma FirstOfIdExtend(prev: seq<StatementRecord>, r: StatementRecord, x: StatementRecord)
    requires FirstOfId(prev, x)
    ensures FirstOfId(prev + [r], x)
  {
    var k :| 0 <= k < |prev| && prev[k] == x && forall j :: 0 <= j < k ==> prev[j].id != x.id;
    var e := prev + [r];
    assert e[k] == x;
    assert forall j :: 0 <= j < k ==> e[j] == prev[j];
  }

  lemma FirstOfIdNew(prev: seq<StatementRecord>, r: StatementRecord)
    requires r.id !in Ids(prev)
    ensures FirstOfId(prev + [r], r)
  {
    var e := prev + [r];
    forall j | 0 <= j < |prev|
      ensures e[j].id != r.id
    {
      assert e[j] == prev[j];
      assert prev[j] in prev;
    }
    assert e[|prev|] == r;
  }

  /** Each kept record is the first record of its id. */
  lemma {:induction false} DedupKeepsFirst(recs: seq<StatementRecord>)
    ensures forall x :: x in Dedup(recs) ==> FirstOfId(recs, x)
  {
    if recs != [] {
      var n := |recs| - 1;
      var prev := recs[..n];
      var r := recs[n];
      assert recs == prev + [r];
      DedupKeepsFirst(prev);
      var d := Dedup(prev);
      forall x | x in d
        ensures FirstOfId(recs, x)
      {
        FirstOfIdExtend(prev, r, x);
      }
      if r.id !in Ids(d) {
        FirstOfIdNew(prev, r);
      }
    }
  }

  /**
   * Merging more records only appends: what an earlier merge kept stays, in
   * place, and nothing appended later shares an id with the earlier records.
   */
  lemma {:induction false} DedupPrefix(xs: seq<StatementRecord>, ys: seq<StatementRecord>)
    ensures Dedup(xs) <= Dedup(xs + ys)
    ensures forall x :: x in Dedup(xs + ys)[|Dedup(xs)|..] ==> x.id !in Ids(xs)
    decreases |ys|
  {
    if ys == [] {
      assert xs + ys == xs;
    } else {
      var ys' := ys[..|ys| - 1];
      var r := ys[|ys| - 1];
      var n := |Dedup(xs)|;
      DedupPrefix(xs, ys');
      var d' := Dedup(xs + ys');
      assert (xs + ys)[..|xs + ys| - 1] == xs + ys';
      DedupStep(xs + ys, xs + ys', r);
      if r.id !in Ids(d') {
        assert r.id !in Ids(xs) by {
          IdsPrefix(xs, ys');
        }
        assert Dedup(xs + ys) == d' + [r];
        assert (d' + [r])[n..] == d'[n..] + [r];
      }
    }
  }

  /** A prefix's ids are among the whole sequence's ids. */
  lemma IdsPrefix(xs: seq<StatementRecord>, ys: seq<StatementRecord>)
    ensures Ids(xs) <= Ids(xs + ys)
  {
    assert forall x :: x in xs ==> x in xs + ys;
  }

  /**
   * Theorem priority: the merged list starts with the merge of the theorem
   * records, and no swept row after them reuses a theorem's id.
   */
  lemma TheoremPriority(theorems: seq<TracedTheorem>, rows: seq<DeclRow>, limit: Option<nat>)
    ensures var thm := TheoremRecords(Limited(theorems, limit));
            var m := Merge(theorems, rows, limit);
            && Dedup(thm) <= m
            && forall x :: x in m[|Dedup(thm)|..] ==> x.id !in Ids(thm)
  {
    DedupPrefix(TheoremRecords(Limited(theorems, limit)), RowRecords(rows));
  }

  /** The exported statements have pairwise distinct ids. */
  lemma StatementsDistinct(theorems: seq<TracedTheorem>, rows: seq<DeclRow>, limit: Option<nat>)
    ensures DistinctIds(Statements(theorems, rows, limit))
  {
    var m := Merge(theorems, rows, limit);
    DedupDistinct(TheoremRecords(Limited(theorems, limit)) + RowRecords(rows));
    var s := Statements(theorems, rows, limit);
    forall i, j | 0 <= i < j < |s|
      ensures s[i].id != s[j].id
    {
      assert s[i] == m[i] && s[j] == m[j];
    }
  }

  /** Every exported trace belongs to an exported statement. */
  lemma TracesFollowStatements(theorems: seq<TracedTheorem>, statements: seq<StatementRecord>, limit: Option<nat>)
    ensures forall t :: t in Traces(theorems, statements, limit) ==> exists s :: s in statements && s.id == t.theoremId
  {
    var kept := Kept(theorems, Ids(statements));
    forall t | t in Traces(theorems, statements, limit)
      ensures exists s :: s in statements && s.id == t.theoremId
    {
      assert t in kept;
      assert t.theoremId in Ids(statements);
    }
  }
}

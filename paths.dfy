/**
 * The parts of Python's `PurePath` that both scripts rely on: a path as its
 * sequence of components, a file name's suffix and stem, and ASCII lowering
 * of a suffix.
 */
module Paths {

  /** A path as its components (`Path.parts`); `p / name` appends one. */
  type Path = seq<string>

  /** Index of the last '.' in `name`, if any (`str.rfind('.')`). */
  function LastDot(name: string): (r: int)
    ensures -1 <= r < |name|
    ensures r >= 0 ==> name[r] == '.'
    ensures forall j :: r < j < |name| ==> name[j] != '.'
  {
    if name == [] then -1
    else if name[|name| - 1] == '.' then |name| - 1
    else LastDot(name[..|name| - 1])
  }

  /** Whether the name has a suffix: its last '.' is neither the first nor the last character. */
  predicate HasSuffix(name: string) {
    0 < LastDot(name) < |name| - 1
  }

  /** `PurePath.suffix`: from the last '.' on, or "" when the name has no suffix. */
  function Suffix(name: string): (r: string)
    ensures r == [] || (r[0] == '.' && '.' !in r[1..] && |r| >= 2)
    ensures r == [] <==> !HasSuffix(name)
  {
    if HasSuffix(name) then name[LastDot(name)..] else []
  }

  /** `PurePath.stem`: the name without its suffix. */
  function Stem(name: string): (r: string)
    ensures r + Suffix(name) == name
    ensures name != [] ==> r != []
  {
    if HasSuffix(name) then name[..LastDot(name)] else name
  }

  /** Lower-cases ASCII letters and keeps every other character. */
  function AsciiLower(s: string): (r: string)
    ensures |r| == |s|
    ensures forall i :: 0 <= i < |s| ==> r[i] == (if 'A' <= s[i] <= 'Z' then (s[i] as int + 32) as char else s[i])
  {
    seq(|s|, i requires 0 <= i < |s| => if 'A' <= s[i] <= 'Z' then (s[i] as int + 32) as char else s[i])
  }

  /** The stem of a name with a suffix is everything before its last dot. */
  lemma StemOfSuffixed(stem: string, ext: string)
    requires stem != [] && |ext| >= 1 && '.' !in ext
    ensures Suffix(stem + "." + ext) == "." + ext
    ensures Stem(stem + "." + ext) == stem
  {
    var name := stem + "." + ext;
    var k := LastDot(name);
    assert name[|stem|] == '.';
    assert k == |stem|;
    assert name[k..] == "." + ext;
  }
}

/** The two string operations the scan engine relies on: a literal substring
    search with the result convention of Python's `str.find`, and the plain,
    case-sensitive suffix test of `str.endswith`. */
module Text {

  /** `needle` occurs in `line` starting at index `i`. */
  predicate IsAt(line: string, needle: string, i: nat) {
    i + |needle| <= |line| && line[i..i + |needle|] == needle
  }

  /** `needle` occurs somewhere in `line` as a literal substring. */
  ghost predicate Occurs(line: string, needle: string) {
    exists i: nat :: IsAt(line, needle, i)
  }

  /** The first index at or after `from` where `needle` occurs, or -1. */
  function FindFrom(line: string, needle: string, from: nat): (r: int)
    ensures r == -1 || (from <= r && IsAt(line, needle, r))
    ensures forall j: nat :: from <= j && (r == -1 || j < r) ==> !IsAt(line, needle, j)
    decreases |line| - from
  {
    if |line| < from + |needle| then -1
    else if line[from..from + |needle|] == needle then from
    else FindFrom(line, needle, from + 1)
  }

  /** `line.find(needle)`: the least index of an occurrence, or -1 when there
      is none. The empty needle occurs at index 0 of every line. */
  function Find(line: string, needle: string): (r: int)
    ensures r == -1 <==> !Occurs(line, needle)
    ensures r != -1 ==> 0 <= r && IsAt(line, needle, r)
    ensures forall j: nat :: r != -1 && j < r ==> !IsAt(line, needle, j)
  {
    FindFrom(line, needle, 0)
  }

  /** `s.endswith(suffix)`: exact, case-sensitive; no dot is implied, and the
      empty suffix is a suffix of every name. */
  function EndsWith(s: string, suffix: string): bool {
    |suffix| <= |s| && s[|s| - |suffix|..] == suffix
  }

  /** `EndsWith` is the suffix relation on strings. */
  lemma EndsWithIsSuffix(s: string, suffix: string)
    ensures EndsWith(s, suffix) <==> exists prefix: string :: s == prefix + suffix
  {
    if EndsWith(s, suffix) {
      assert s == s[..|s| - |suffix|] + suffix;
    }
    forall prefix: string | s == prefix + suffix
      ensures EndsWith(s, suffix)
    {
      assert s[|s| - |suffix|..] == suffix;
    }
  }
}

/** ASCII character classes and the few string operations the file utilities use. */
module Strings {

  /** An ASCII decimal digit; the model reads the regular expression's `\d` as this class. */
  predicate IsDigit(c: char) {
    '0' <= c <= '9'
  }

  /** The character class `[A-Za-z0-9]`. */
  predicate IsAlnum(c: char) {
    IsDigit(c) || 'A' <= c <= 'Z' || 'a' <= c <= 'z'
  }

  predicate AllDigits(s: string) {
    forall i | 0 <= i < |s| :: IsDigit(s[i])
  }

  predicate AllAlnum(s: string) {
    forall i | 0 <= i < |s| :: IsAlnum(s[i])
  }

  /** Lower-casing of one character, restricted to ASCII. */
  function LowerChar(c: char): char {
    if 'A' <= c <= 'Z' then (c as int + 32) as char else c
  }

  /** `lowercase()`, restricted to ASCII letters. */
  function Lower(s: string): (r: string)
    ensures |r| == |s|
    ensures forall i | 0 <= i < |s| :: r[i] == LowerChar(s[i])
  {
    seq(|s|, i requires 0 <= i < |s| => LowerChar(s[i]))
  }

  predicate StartsWith(s: string, prefix: string) {
    |prefix| <= |s| && s[..|prefix|] == prefix
  }

  predicate EndsWith(s: string, suffix: string) {
    |suffix| <= |s| && s[|s| - |suffix|..] == suffix
  }

  /**
   * `path.split("/").last()`: the text after the last '/', or the whole string when
   * it has none. Kotlin's split keeps a trailing empty part, so "a/" gives "".
   */
  function LastSegment(path: string): (r: string)
    ensures '/' !in r
    ensures EndsWith(path, r)
    ensures |r| < |path| ==> path[|path| - |r| - 1] == '/'
    decreases |path|
  {
    if path == [] then []
    else if path[|path| - 1] == '/' then []
    else
      var init := path[..|path| - 1];
      var r := LastSegment(init) + [path[|path| - 1]];
      assert path == init + [path[|path| - 1]];
      r
  }

  /** The last segment is the ONLY slash-free suffix that follows a '/' or starts the path. */
  lemma {:induction false} LastSegmentUnique(path: string, prefix: string, last: string)
    requires path == prefix + last
    requires '/' !in last
    requires prefix == [] || prefix[|prefix| - 1] == '/'
    ensures LastSegment(path) == last
    decreases |path|
  {
    if last == [] {
      if path != [] {
        assert path[|path| - 1] == prefix[|prefix| - 1];
      }
    } else {
      var init := path[..|path| - 1];
      assert init == prefix + last[..|last| - 1];
      LastSegmentUnique(init, prefix, last[..|last| - 1]);
      assert last == last[..|last| - 1] + [last[|last| - 1]];
    }
  }

  /** Decimal rendering of a natural number, as string templates print a Long. */
  function NatToString(n: nat): (r: string)
    ensures |r| > 0 && AllDigits(r)
    decreases n
  {
    var d := ['0' + (n % 10) as char];
    if n < 10 then d else NatToString(n / 10) + d
  }
}

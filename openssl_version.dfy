/**
 * convert_openssl_version: `re.sub(r'(.+)\.([a-z])', r'\1\2', version)`.
 *
 * On a string without newlines the only place the pattern can match is at
 * position 0: the greedy `(.+)` first takes the whole string and then gives
 * characters back one at a time until a '.' followed by a lower-case ASCII
 * letter comes next. The match so found is the last such dot that has at
 * least one character before it; the replacement `\1\2` drops exactly that
 * dot, and no later match exists because that dot was the last one.
 */
module OpenSslVersion {
  import opened Wrappers

  predicate IsLowerAscii(c: char) { 'a' <= c <= 'z' }

  /** Group 1 can end at i: s[..i] is non-empty, then `\.` and `[a-z]` follow. */
  predicate DotLetterAt(s: string, i: int)
  {
    1 <= i && i + 1 < |s| && s[i] == '.' && IsLowerAscii(s[i + 1])
  }

  /**
   * The regex engine's backtracking of the greedy group: try group ends
   * n - 1, n - 2, ..., 1 and stop at the first one where the rest matches.
   */
  function LastDotLetterBelow(s: string, n: nat): (r: Option<nat>)
    requires n <= |s|
    ensures r.Some? ==> r.value < n && DotLetterAt(s, r.value)
    ensures r.Some? ==> forall j :: r.value < j < n ==> !DotLetterAt(s, j)
    ensures r.None? ==> forall j :: 0 <= j < n ==> !DotLetterAt(s, j)
    decreases n
  {
    if n <= 1 then None
    else if DotLetterAt(s, n - 1) then Some(n - 1)
    else LastDotLetterBelow(s, n - 1)
  }

  function ConvertOpenSslVersion(version: string): (r: string)
    requires '\n' !in version
    ensures |r| == |version| || |r| == |version| - 1
    ensures r == version <==> forall i :: 0 <= i < |version| ==> !DotLetterAt(version, i)
    ensures forall i :: DotLetterAt(version, i) && (forall j :: i < j < |version| ==> !DotLetterAt(version, j))
                        ==> r == version[..i] + version[i + 1..]
    ensures forall c :: c in r ==> c in version
  {
    match LastDotLetterBelow(version, |version|)
    case None => version
    case Some(i) => version[..i] + version[i + 1..]
  }

  /** The example in the converter's documentation, and inputs that no dot-letter pair matches. */
  lemma ConvertOpenSslExamples()
    ensures ConvertOpenSslVersion("1.0.2.o") == "1.0.2o"
    ensures ConvertOpenSslVersion("1.0.2") == "1.0.2"
    ensures ConvertOpenSslVersion(".a") == ".a"
    ensures ConvertOpenSslVersion("1.a.b") == "1.ab"
  {
    assert DotLetterAt("1.0.2.o", 5);
    assert "1.0.2.o"[..5] + "1.0.2.o"[6..] == "1.0.2o";
    assert DotLetterAt("1.a.b", 3);
    assert "1.a.b"[..3] + "1.a.b"[4..] == "1.ab";
  }
}

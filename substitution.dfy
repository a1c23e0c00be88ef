/**
 * `re.sub(pattern, repl, line)` for the pattern `(KEY)\S+` whose KEY is a
 * literal string (no regular-expression metacharacters) and whose expanded
 * replacement is the fixed string repl.
 *
 * Python scans the line by position, left to right: where KEY starts and at
 * least one non-whitespace character follows it, the greedy `\S+` takes the
 * whole non-whitespace run, the match is replaced, and the scan resumes after
 * it; elsewhere one character is copied and the scan moves on by one.
 */
module Substitution {
  import opened Wrappers

  /** Python's `\s` for str patterns: the characters for which str.isspace() holds. */
  predicate IsSpace(c: char)
  {
    ('\t' <= c <= '\r') || ('\U{1C}' <= c <= ' ') || c == '\U{85}' || c == '\U{A0}'
    || c == '\U{1680}' || ('\U{2000}' <= c <= '\U{200A}') || c == '\U{2028}' || c == '\U{2029}'
    || c == '\U{202F}' || c == '\U{205F}' || c == '\U{3000}'
  }

  predicate NoSpace(s: string) { forall i :: 0 <= i < |s| ==> !IsSpace(s[i]) }

  /** Where a greedy `\S*` that starts at p stops: the next whitespace character, or the end. */
  function RunEnd(s: string, p: nat): (e: nat)
    requires p <= |s|
    ensures p <= e <= |s|
    ensures forall i :: p <= i < e ==> !IsSpace(s[i])
    ensures e == |s| || IsSpace(s[e])
    decreases |s| - p
  {
    if p == |s| || IsSpace(s[p]) then p else RunEnd(s, p + 1)
  }

  /** The pattern `(key)\S+` can match starting at position p of s. */
  predicate MatchAt(s: string, key: string, p: nat)
  {
    p + |key| < |s| && s[p..p + |key|] == key && !IsSpace(s[p + |key|])
  }

  /** The pattern matches at no position of s. */
  predicate NoMatch(s: string, key: string)
  {
    forall p :: 0 <= p < |s| ==> !MatchAt(s, key, p)
  }

  /** What one step of the scan at position p emits: repl for a match, else the character at p. */
  function Emit(s: string, key: string, repl: string, p: nat): string
    requires p < |s|
  {
    if MatchAt(s, key, p) then repl else [s[p]]
  }

  /** Where the scan resumes after the step at p: after the whole match, or at the next character. */
  function Next(s: string, key: string, p: nat): (n: nat)
    requires p < |s|
    ensures p < n <= |s|
  {
    if MatchAt(s, key, p) then RunEnd(s, p + |key|) else p + 1
  }

  /** The output of the scan from position p to the end of s. */
  function SubstituteFrom(s: string, key: string, repl: string, p: nat): string
    requires p <= |s|
    decreases |s| - p
  {
    if p == |s| then [] else Emit(s, key, repl, p) + SubstituteFrom(s, key, repl, Next(s, key, p))
  }

  function Substitute(s: string, key: string, repl: string): string
  {
    SubstituteFrom(s, key, repl, 0)
  }

  lemma StepMatch(s: string, key: string, repl: string, p: nat)
    requires p < |s| && MatchAt(s, key, p)
    ensures SubstituteFrom(s, key, repl, p) == repl + SubstituteFrom(s, key, repl, RunEnd(s, p + |key|))
  {
  }

  lemma StepCopy(s: string, key: string, repl: string, p: nat)
    requires p < |s| && !MatchAt(s, key, p)
    ensures SubstituteFrom(s, key, repl, p) == [s[p]] + SubstituteFrom(s, key, repl, p + 1)
  {
  }

  /** A line in which the pattern matches nowhere comes back unchanged. */
  lemma {:induction false} SubstituteFromWithoutMatch(s: string, key: string, repl: string, p: nat)
    requires p <= |s|
    requires forall q :: p <= q < |s| ==> !MatchAt(s, key, q)
    ensures SubstituteFrom(s, key, repl, p) == s[p..]
    decreases |s| - p
  {
    if p < |s| {
      SubstituteFromWithoutMatch(s, key, repl, p + 1);
      assert s[p..] == [s[p]] + s[p + 1..];
    }
  }

  lemma SubstituteWithoutMatch(s: string, key: string, repl: string)
    requires NoMatch(s, key)
    ensures Substitute(s, key, repl) == s
  {
    SubstituteFromWithoutMatch(s, key, repl, 0);
  }

  /** A key cannot match where its first character does not appear. */
  lemma NoMatchWithoutInitial(s: string, key: string, p: nat)
    requires 0 < |key| && p < |s| && s[p] != key[0]
    ensures !MatchAt(s, key, p)
  {
    if p + |key| < |s| {
      assert s[p..p + |key|][0] == s[p];
    }
  }

  lemma NoMatchWithoutInitialAnywhere(s: string, key: string)
    requires 0 < |key| && key[0] !in s
    ensures NoMatch(s, key)
  {
    forall p | 0 <= p < |s|
      ensures !MatchAt(s, key, p)
    {
      NoMatchWithoutInitial(s, key, p);
    }
  }

  lemma SubstituteWithoutInitial(s: string, key: string, repl: string)
    requires 0 < |key| && key[0] !in s
    ensures Substitute(s, key, repl) == s
  {
    NoMatchWithoutInitialAnywhere(s, key);
    SubstituteWithoutMatch(s, key, repl);
  }

  /** A whitespace-free key cannot start a match on a whitespace character. */
  lemma NoMatchAtSpace(s: string, key: string, p: nat)
    requires NoSpace(key) && p < |s| && IsSpace(s[p])
    ensures !MatchAt(s, key, p)
  {
    if 0 < |key| && p + |key| < |s| {
      assert s[p..p + |key|][0] == s[p];
    }
  }

  /** A match that starts inside a word lies inside that word. */
  lemma MatchInsideWord(s: string, key: string, p: nat)
    requires NoSpace(key) && p <= |s| && MatchAt(s, key, p)
    ensures p + |key| < RunEnd(s, p)
  {
    var e := RunEnd(s, p);
    forall i | p <= i <= p + |key|
      ensures !IsSpace(s[i])
    {
      if i < p + |key| {
        assert s[i] == s[p..p + |key|][i - p];
      }
    }
  }

  /** Every position of a word ends the same word. */
  lemma {:induction false} RunEndInside(s: string, p: nat, q: nat)
    requires p <= |s| && p <= q <= RunEnd(s, p)
    ensures RunEnd(s, q) == RunEnd(s, p)
    decreases q - p
  {
    if p < q {
      RunEndInside(s, p + 1, q);
    }
  }

  /*
   * An independent description of the same rewrite, word by word: the line
   * is split at whitespace, whitespace is copied, and in each maximal
   * whitespace-free word everything from the first position where the key
   * starts and something follows it, up to the end of the word, becomes repl.
   */

  /** The first position q in [p, e) where the pattern matches, if any. */
  function FirstMatchIn(s: string, key: string, p: nat, e: nat): (r: Option<nat>)
    requires p <= e <= |s|
    ensures r.Some? ==> p <= r.value < e && MatchAt(s, key, r.value)
    ensures r.Some? ==> forall q :: p <= q < r.value ==> !MatchAt(s, key, q)
    ensures r.None? ==> forall q :: p <= q < e ==> !MatchAt(s, key, q)
    decreases e - p
  {
    if p == e then None
    else if MatchAt(s, key, p) then Some(p)
    else FirstMatchIn(s, key, p + 1, e)
  }

  /** The rewrite of the word s[p..e]. */
  function RewriteWord(s: string, key: string, repl: string, p: nat, e: nat): string
    requires p <= e <= |s|
  {
    match FirstMatchIn(s, key, p, e)
    case None => s[p..e]
    case Some(q) => s[p..q] + repl
  }

  function ReferenceFrom(s: string, key: string, repl: string, p: nat): string
    requires p <= |s|
    decreases |s| - p
  {
    var e := RunEnd(s, p);
    RewriteWord(s, key, repl, p, e) + (if e == |s| then [] else [s[e]] + ReferenceFrom(s, key, repl, e + 1))
  }

  function Reference(s: string, key: string, repl: string): string
  {
    ReferenceFrom(s, key, repl, 0)
  }

  /** What the scan emits from position e, where a word ends. */
  function AfterWord(s: string, key: string, repl: string, e: nat): string
    requires e <= |s|
  {
    if e == |s| then [] else [s[e]] + SubstituteFrom(s, key, repl, e + 1)
  }

  lemma AtWordEnd(s: string, key: string, repl: string, e: nat)
    requires NoSpace(key) && e <= |s| && (e == |s| || IsSpace(s[e]))
    ensures SubstituteFrom(s, key, repl, e) == AfterWord(s, key, repl, e)
  {
    if e < |s| {
      NoMatchAtSpace(s, key, e);
    }
  }

  lemma RewriteWordAtMatch(s: string, key: string, repl: string, q: nat, e: nat)
    requires q < e <= |s| && MatchAt(s, key, q)
    ensures RewriteWord(s, key, repl, q, e) == repl
  {
    assert s[q..q] == [];
  }

  lemma RewriteWordCons(s: string, key: string, repl: string, q: nat, e: nat)
    requires q < e <= |s| && !MatchAt(s, key, q)
    ensures RewriteWord(s, key, repl, q, e) == [s[q]] + RewriteWord(s, key, repl, q + 1, e)
  {
    match FirstMatchIn(s, key, q + 1, e)
    case None => {
      assert s[q..e] == [s[q]] + s[q + 1..e];
    }
    case Some(r) => {
      assert s[q..r] == [s[q]] + s[q + 1..r];
    }
  }

  lemma ScanWordAtMatch(s: string, key: string, repl: string, q: nat, e: nat)
    requires NoSpace(key) && q < |s| && e == RunEnd(s, q) && MatchAt(s, key, q)
    ensures SubstituteFrom(s, key, repl, q) == RewriteWord(s, key, repl, q, e) + AfterWord(s, key, repl, e)
  {
    MatchInsideWord(s, key, q);
    RunEndInside(s, q, q + |key|);
    StepMatch(s, key, repl, q);
    AtWordEnd(s, key, repl, e);
    RewriteWordAtMatch(s, key, repl, q, e);
  }

  lemma ScanWordCopy(s: string, key: string, repl: string, q: nat, e: nat)
    requires q < e <= |s| && !MatchAt(s, key, q)
    requires SubstituteFrom(s, key, repl, q + 1) == RewriteWord(s, key, repl, q + 1, e) + AfterWord(s, key, repl, e)
    ensures SubstituteFrom(s, key, repl, q) == RewriteWord(s, key, repl, q, e) + AfterWord(s, key, repl, e)
  {
    var word, after := RewriteWord(s, key, repl, q + 1, e), AfterWord(s, key, repl, e);
    assert [s[q]] + (word + after) == ([s[q]] + word) + after;
    StepCopy(s, key, repl, q);
    RewriteWordCons(s, key, repl, q, e);
  }

  /** Scanning from inside a word emits the rewrite of the rest of the word, then goes on after it. */
  lemma {:induction false} ScanWord(s: string, key: string, repl: string, q: nat, e: nat)
    requires NoSpace(key) && q <= |s| && e == RunEnd(s, q)
    ensures SubstituteFrom(s, key, repl, q) == RewriteWord(s, key, repl, q, e) + AfterWord(s, key, repl, e)
    decreases |s| - q
  {
    if q == e {
      AtWordEnd(s, key, repl, e);
      assert s[q..e] == [];
    } else if MatchAt(s, key, q) {
      ScanWordAtMatch(s, key, repl, q, e);
    } else {
      RunEndInside(s, q, q + 1);
      ScanWord(s, key, repl, q + 1, e);
      ScanWordCopy(s, key, repl, q, e);
    }
  }

  lemma {:induction false} SubstituteFromIsWordwise(s: string, key: string, repl: string, p: nat)
    requires NoSpace(key) && p <= |s|
    ensures SubstituteFrom(s, key, repl, p) == ReferenceFrom(s, key, repl, p)
    decreases |s| - p
  {
    var e := RunEnd(s, p);
    ScanWord(s, key, repl, p, e);
    if e < |s| {
      SubstituteFromIsWordwise(s, key, repl, e + 1);
    }
  }

  /** The scanner and the word-by-word description agree whenever the key has no whitespace. */
  lemma SubstituteIsWordwise(s: string, key: string, repl: string)
    requires NoSpace(key)
    ensures Substitute(s, key, repl) == Reference(s, key, repl)
  {
    SubstituteFromIsWordwise(s, key, repl, 0);
  }

  /** The pattern matches at |w| + p in w + t exactly where it matches at p in t. */
  lemma MatchAtSuffix(w: string, t: string, key: string, p: nat)
    requires p < |t|
    ensures MatchAt(w + t, key, |w| + p) == MatchAt(t, key, p)
    ensures (w + t)[|w| + p] == t[p]
  {
    var s := w + t;
    if |w| + p + |key| < |s| {
      assert s[|w| + p..|w| + p + |key|] == t[p..p + |key|];
      assert s[|w| + p + |key|] == t[p + |key|];
    }
  }

  lemma StepSuffix(w: string, t: string, key: string, repl: string, p: nat)
    requires p < |t|
    ensures Emit(w + t, key, repl, |w| + p) == Emit(t, key, repl, p)
    ensures Next(w + t, key, |w| + p) == |w| + Next(t, key, p)
  {
    MatchAtSuffix(w, t, key, p);
    if MatchAt(t, key, p) {
      RunEndSuffix(w, t, p + |key|);
    }
  }

  /** The scan over w + t, once past w, is the scan over t. */
  lemma {:induction false} SubstituteFromSuffix(w: string, t: string, key: string, repl: string, p: nat)
    requires p <= |t|
    ensures SubstituteFrom(w + t, key, repl, |w| + p) == SubstituteFrom(t, key, repl, p)
    decreases |t| - p
  {
    if p < |t| {
      StepSuffix(w, t, key, repl, p);
      SubstituteFromSuffix(w, t, key, repl, Next(t, key, p));
    }
  }

  lemma {:induction false} RunEndSuffix(w: string, t: string, p: nat)
    requires p <= |t|
    ensures RunEnd(w + t, |w| + p) == |w| + RunEnd(t, p)
    decreases |t| - p
  {
    if p < |t| {
      assert (w + t)[|w| + p] == t[p];
      RunEndSuffix(w, t, p + 1);
    }
  }

  /**
   * An assignment `key` + a non-empty whitespace-free value at the start of a
   * line, followed by the end of the line or by whitespace, is replaced as a
   * whole, and the scan goes on with what follows.
   */
  lemma SubstituteAssignment(key: string, value: string, rest: string, repl: string)
    requires |value| > 0 && NoSpace(value)
    requires rest == [] || IsSpace(rest[0])
    ensures Substitute(key + value + rest, key, repl) == repl + Substitute(rest, key, repl)
  {
    var s := key + value + rest;
    var w := key + value;
    assert s == w + rest;
    assert s[0..|key|] == key;
    assert s[|key|] == value[0];
    assert MatchAt(s, key, 0);
    forall i | |key| <= i < |w|
      ensures !IsSpace(s[i])
    {
      assert s[i] == value[i - |key|];
    }
    RunEndIs(s, |key|, |w|);
    SubstituteFromSuffix(w, rest, key, repl, 0);
  }

  /** The same, at the end of the text. */
  lemma SubstituteFinalAssignment(key: string, value: string, repl: string)
    requires |value| > 0 && NoSpace(value)
    ensures Substitute(key + value, key, repl) == repl
  {
    assert key + value + [] == key + value;
    SubstituteAssignment(key, value, [], repl);
    assert repl + [] == repl;
  }

  lemma {:induction false} RunEndIs(s: string, p: nat, e: nat)
    requires p <= e <= |s|
    requires forall i :: p <= i < e ==> !IsSpace(s[i])
    requires e == |s| || IsSpace(s[e])
    ensures RunEnd(s, p) == e
    decreases e - p
  {
    if p < e {
      RunEndIs(s, p + 1, e);
    }
  }

  /** Text before the key is copied: a prefix without any match is kept and the scan goes on after it. */
  lemma SubstituteCopiesPrefix(w: string, t: string, key: string, repl: string)
    requires forall q :: 0 <= q < |w| ==> !MatchAt(w + t, key, q)
    ensures Substitute(w + t, key, repl) == w + Substitute(t, key, repl)
  {
    CopyPrefixFrom(w, t, key, repl, 0);
    SubstituteFromSuffix(w, t, key, repl, 0);
  }

  lemma {:induction false} CopyPrefixFrom(w: string, t: string, key: string, repl: string, p: nat)
    requires p <= |w|
    requires forall q :: p <= q < |w| ==> !MatchAt(w + t, key, q)
    ensures SubstituteFrom(w + t, key, repl, p) == w[p..] + SubstituteFrom(w + t, key, repl, |w|)
    decreases |w| - p
  {
    if p < |w| {
      var s := w + t;
      var tail := SubstituteFrom(s, key, repl, |w|);
      var rest := SubstituteFrom(s, key, repl, p + 1);
      assert SubstituteFrom(s, key, repl, p) == [w[p]] + rest by {
        assert s[p] == w[p];
        StepCopy(s, key, repl, p);
      }
      assert rest == w[p + 1..] + tail by {
        CopyPrefixFrom(w, t, key, repl, p + 1);
      }
      assert w[p..] == [w[p]] + w[p + 1..];
      assert [w[p]] + (w[p + 1..] + tail) == ([w[p]] + w[p + 1..]) + tail;
    }
  }

  /*
   * Whitespace separates: the rewrite of u + [c] + v, for a whitespace
   * character c, is the rewrite of u, then c, then the rewrite of v.
   */

  lemma {:induction false} RunEndPrefix(u: string, c: char, v: string, x: nat)
    requires IsSpace(c) && x <= |u|
    ensures RunEnd(u + [c] + v, x) == RunEnd(u, x)
    decreases |u| - x
  {
    var s := u + [c] + v;
    if x < |u| {
      assert s[x] == u[x];
      RunEndPrefix(u, c, v, x + 1);
    } else {
      assert s[x] == c;
    }
  }

  lemma MatchAtPrefix(u: string, c: char, v: string, key: string, p: nat)
    requires IsSpace(c) && NoSpace(key) && p < |u|
    ensures MatchAt(u + [c] + v, key, p) == MatchAt(u, key, p)
    ensures (u + [c] + v)[p] == u[p]
  {
    var s := u + [c] + v;
    if p + |key| < |u| {
      assert s[p..p + |key|] == u[p..p + |key|];
      assert s[p + |key|] == u[p + |key|];
    } else if p + |key| == |u| {
      assert s[p + |key|] == c;
    } else if p + |key| < |s| {
      assert s[p..p + |key|][|u| - p] == c;
    }
  }

  lemma StepPrefix(u: string, c: char, v: string, key: string, repl: string, p: nat)
    requires IsSpace(c) && NoSpace(key) && p < |u|
    ensures Emit(u + [c] + v, key, repl, p) == Emit(u, key, repl, p)
    ensures Next(u + [c] + v, key, p) == Next(u, key, p)
  {
    MatchAtPrefix(u, c, v, key, p);
    if MatchAt(u, key, p) {
      RunEndPrefix(u, c, v, p + |key|);
    }
  }

  lemma {:induction false} SubstituteFromPrefix(u: string, c: char, v: string, key: string, repl: string, p: nat)
    requires IsSpace(c) && NoSpace(key) && p <= |u|
    ensures SubstituteFrom(u + [c] + v, key, repl, p) ==
            SubstituteFrom(u, key, repl, p) + SubstituteFrom(u + [c] + v, key, repl, |u|)
    decreases |u| - p
  {
    if p < |u| {
      var n := Next(u, key, p);
      StepPrefix(u, c, v, key, repl, p);
      SubstituteFromPrefix(u, c, v, key, repl, n);
      var head, rest, tail := Emit(u, key, repl, p), SubstituteFrom(u, key, repl, n), SubstituteFrom(u + [c] + v, key, repl, |u|);
      assert head + (rest + tail) == (head + rest) + tail;
    }
  }

  lemma AtSeparator(u: string, c: char, v: string, key: string, repl: string)
    requires IsSpace(c) && NoSpace(key)
    ensures SubstituteFrom(u + [c] + v, key, repl, |u|) == [c] + Substitute(v, key, repl)
  {
    var w := u + [c];
    assert !MatchAt(w + v, key, |u|) by {
      assert (w + v)[|u|] == c;
      NoMatchAtSpace(w + v, key, |u|);
    }
    assert SubstituteFrom(w + v, key, repl, |u|) == [c] + SubstituteFrom(w + v, key, repl, |w|) by {
      assert (w + v)[|u|] == c;
      StepCopy(w + v, key, repl, |u|);
    }
    SubstituteFromSuffix(w, v, key, repl, 0);
  }

  /** Whitespace is never consumed by a match, so the rewrite works separately on either side of it. */
  lemma SubstituteSplitsAtSpace(u: string, c: char, v: string, key: string, repl: string)
    requires IsSpace(c) && NoSpace(key)
    ensures Substitute(u + [c] + v, key, repl) == Substitute(u, key, repl) + [c] + Substitute(v, key, repl)
  {
    SubstituteFromPrefix(u, c, v, key, repl, 0);
    AtSeparator(u, c, v, key, repl);
    assert Substitute(u, key, repl) + ([c] + Substitute(v, key, repl)) == (Substitute(u, key, repl) + [c]) + Substitute(v, key, repl);
  }
}

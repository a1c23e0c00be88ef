/**
 * The script's main part: the ordered table of package versions, and the
 * rewrite of the Dockerfile, line by line and, within a line, package by
 * package in the table's order, each package's `PREFIX_VER=` assignment
 * receiving the new version.
 */
module UpdateLibs {
  import opened Wrappers
  import opened Substitution
  import OpenSslVersion
  import SqliteVersion

  /** One piece of a re.sub replacement template: literal text, or the back-reference to group 1. */
  datatype Piece = Lit(text: string) | Group1

  type Template = seq<Piece>

  /** The replacement a template yields for a match whose group 1 is `group`. */
  function Expand(t: Template, group: string): string
    decreases |t|
  {
    if t == [] then []
    else (match t[0] case Lit(x) => x case Group1 => group) + Expand(t[1..], group)
  }

  /** A substitution `re.sub('(' + prefix + '_VER=)\S+', template, line)`. */
  datatype Rule = Rule(prefix: string, template: Template)

  /** The text group 1 of a rule's pattern always matches. */
  function VarKey(prefix: string): string { prefix + "_VER=" }

  predicate IsUpperAscii(c: char) { 'A' <= c <= 'Z' }

  /** A table key such as CURL or SSL: upper-case letters, so the pattern has no metacharacters. */
  predicate ValidPrefix(prefix: string)
  {
    |prefix| > 0 && forall i :: 0 <= i < |prefix| ==> IsUpperAscii(prefix[i])
  }

  predicate ValidRules(rules: seq<Rule>)
  {
    forall i :: 0 <= i < |rules| ==> ValidPrefix(rules[i].prefix)
  }

  function ApplyRule(line: string, r: Rule): string
  {
    Substitute(line, VarKey(r.prefix), Expand(r.template, VarKey(r.prefix)))
  }

  /** The line after the rules have been applied one after the other, first rule first. */
  function ApplyRules(line: string, rules: seq<Rule>): string
    decreases |rules|
  {
    if rules == [] then line
    else ApplyRule(ApplyRules(line, rules[..|rules| - 1]), rules[|rules| - 1])
  }

  /** One entry of the PACKAGES table. */
  datatype Package = Package(prefix: string, version: string)

  /**
   * The template as the script writes it: `f'\1"{version}"'` is not a raw
   * string, so `\1` is the octal escape for U+0001 and no back-reference
   * remains.
   */
  function ScriptTemplate(version: string): Template
  {
    [Lit([1 as char, '"'] + version + ['"'])]
  }

  /** The template the comment above the loop describes: keep the variable name, quote the version. */
  function IntendedTemplate(version: string): Template
  {
    [Group1, Lit(Quoted(version))]
  }

  function Quoted(version: string): string { "\"" + version + "\"" }

  lemma ExpandScriptTemplate(version: string, group: string)
    ensures Expand(ScriptTemplate(version), group) == [1 as char, '"'] + version + ['"']
  {
    assert ScriptTemplate(version)[1..] == [];
  }

  lemma ExpandIntendedTemplate(version: string, group: string)
    ensures Expand(IntendedTemplate(version), group) == group + Quoted(version)
  {
    var t := IntendedTemplate(version);
    assert t[1..] == [Lit(Quoted(version))];
    assert t[1..][1..] == [];
    assert Expand(t[1..], group) == Quoted(version) + [];
  }

  function ScriptRules(packages: seq<Package>): seq<Rule>
  {
    seq(|packages|, i requires 0 <= i < |packages| => Rule(packages[i].prefix, ScriptTemplate(packages[i].version)))
  }

  function IntendedRules(packages: seq<Package>): seq<Rule>
  {
    seq(|packages|, i requires 0 <= i < |packages| => Rule(packages[i].prefix, IntendedTemplate(packages[i].version)))
  }

  function Prefixes(packages: seq<Package>): seq<string>
  {
    seq(|packages|, i requires 0 <= i < |packages| => packages[i].prefix)
  }

  /** The keys of the PACKAGES table, in insertion order (the order dict iteration follows). */
  const PackageNames: seq<string> := ["CURL", "SQLITE", "SSL", "ZLIB", "RUSTUP"]

  /** The table's keys are valid and pairwise distinct. */
  lemma PackageNamesValid()
    ensures forall i :: 0 <= i < |PackageNames| ==> ValidPrefix(PackageNames[i])
    ensures forall i, j :: 0 <= i < j < |PackageNames| ==> PackageNames[i] != PackageNames[j]
  {
    forall i, j | 0 <= i < j < |PackageNames|
      ensures PackageNames[i] != PackageNames[j]
    {
      assert PackageNames[i][0] != PackageNames[j][0] || |PackageNames[i]| != |PackageNames[j]|;
    }
  }

  function Table(versions: seq<string>): (r: seq<Package>)
    requires |versions| == |PackageNames|
    ensures |r| == |PackageNames| && Prefixes(r) == PackageNames
    ensures forall i :: 0 <= i < |r| ==> r[i].version == versions[i]
  {
    seq(|PackageNames|, i requires 0 <= i < |PackageNames| => Package(PackageNames[i], versions[i]))
  }

  /**
   * The PACKAGES table from the versions fetched for curl, sqlite, openssl
   * and zlib and the rustup release. Building it fails exactly when the
   * sqlite version cannot be converted.
   */
  function Packages(curl: string, sqlite: string, openssl: string, zlib: string, rustup: string): (r: Option<seq<Package>>)
    requires '\n' !in openssl
    ensures r.None? <==> SqliteVersion.ConvertSqliteVersion(sqlite).None?
    ensures r.Some? ==> Prefixes(r.value) == PackageNames
    ensures r.Some? ==> r.value[0].version == curl && r.value[3].version == zlib && r.value[4].version == rustup
    ensures r.Some? ==> Some(r.value[1].version) == SqliteVersion.ConvertSqliteVersion(sqlite)
    ensures r.Some? ==> r.value[2].version == OpenSslVersion.ConvertOpenSslVersion(openssl)
  {
    match SqliteVersion.ConvertSqliteVersion(sqlite)
    case None => None
    case Some(sq) => Some(Table([curl, sq, OpenSslVersion.ConvertOpenSslVersion(openssl), zlib, rustup]))
  }

  /** Rules built from the table have valid patterns. */
  lemma TableRulesValid(packages: seq<Package>)
    requires Prefixes(packages) == PackageNames
    ensures ValidRules(IntendedRules(packages)) && ValidRules(ScriptRules(packages))
  {
    PackageNamesValid();
    forall i | 0 <= i < |packages|
      ensures ValidPrefix(packages[i].prefix)
    {
      assert packages[i].prefix == Prefixes(packages)[i];
    }
  }

  /** Every line of the file is rewritten by every rule in order; the file keeps its number of lines. */
  method RewriteLines(lines: seq<string>, rules: seq<Rule>) returns (out: seq<string>)
    ensures |out| == |lines|
    ensures forall i :: 0 <= i < |lines| ==> out[i] == ApplyRules(lines[i], rules)
  {
    out := [];
    var k := 0;
    while k < |lines|
      invariant 0 <= k <= |lines|
      invariant |out| == k
      invariant forall i :: 0 <= i < k ==> out[i] == ApplyRules(lines[i], rules)
    {
      var line := lines[k];
      var j := 0;
      while j < |rules|
        invariant 0 <= j <= |rules|
        invariant line == ApplyRules(lines[k], rules[..j])
      {
        var r := rules[j];
        line := Substitute(line, VarKey(r.prefix), Expand(r.template, VarKey(r.prefix)));
        assert rules[..j + 1][..j] == rules[..j];
        j := j + 1;
      }
      assert rules[..|rules|] == rules;
      out := out + [line];
      k := k + 1;
    }
  }

  /**
   * The whole update of the Dockerfile's lines, as the script is written:
   * every table entry's rule uses the template of line 107. None when the
   * table cannot be built (the sqlite version does not convert), in which
   * case no line is written.
   */
  method UpdateDockerfile(lines: seq<string>, curl: string, sqlite: string, openssl: string, zlib: string, rustup: string)
    returns (out: Option<seq<string>>)
    requires '\n' !in openssl
    ensures out.None? <==> SqliteVersion.ConvertSqliteVersion(sqlite).None?
    ensures out.Some? ==> |out.value| == |lines|
    ensures out.Some? ==> forall i :: 0 <= i < |lines| ==>
              out.value[i] == ApplyRules(lines[i], ScriptRules(Packages(curl, sqlite, openssl, zlib, rustup).value))
  {
    var packages := Packages(curl, sqlite, openssl, zlib, rustup);
    if packages.None? {
      return None;
    }
    var rewritten := RewriteLines(lines, ScriptRules(packages.value));
    return Some(rewritten);
  }

  /** The same update with the template the comment above the loop describes. */
  method UpdateDockerfileIntended(lines: seq<string>, curl: string, sqlite: string, openssl: string, zlib: string, rustup: string)
    returns (out: Option<seq<string>>)
    requires '\n' !in openssl
    ensures out.None? <==> SqliteVersion.ConvertSqliteVersion(sqlite).None?
    ensures out.Some? ==> |out.value| == |lines|
    ensures out.Some? ==> forall i :: 0 <= i < |lines| ==>
              out.value[i] == ApplyRules(lines[i], IntendedRules(Packages(curl, sqlite, openssl, zlib, rustup).value))
  {
    var packages := Packages(curl, sqlite, openssl, zlib, rustup);
    if packages.None? {
      return None;
    }
    var rewritten := RewriteLines(lines, IntendedRules(packages.value));
    return Some(rewritten);
  }

  /*
   * Properties of the rewrite.
   */

  lemma KeyHasNoSpace(prefix: string)
    requires ValidPrefix(prefix)
    ensures NoSpace(VarKey(prefix))
  {
    var k := VarKey(prefix);
    forall i | 0 <= i < |k|
      ensures !IsSpace(k[i])
    {
      if i < |prefix| {
        assert k[i] == prefix[i];
      }
    }
  }

  predicate OccursAt(line: string, x: string, p: nat)
  {
    p + |x| <= |line| && line[p..p + |x|] == x
  }

  ghost predicate Occurs(line: string, x: string)
  {
    exists p: nat :: OccursAt(line, x, p)
  }

  lemma MatchHasMarker(line: string, prefix: string, p: nat)
    requires MatchAt(line, VarKey(prefix), p)
    ensures Occurs(line, "_VER=")
  {
    var k := VarKey(prefix);
    var q := p + |prefix|;
    assert line[q..q + 5] == line[p..p + |k|][|prefix|..];
    assert OccursAt(line, "_VER=", q);
  }

  /** A line that no rule's pattern matches passes through every rule unchanged. */
  lemma {:induction false} ApplyRulesWithoutMatch(line: string, rules: seq<Rule>)
    requires forall j :: 0 <= j < |rules| ==> NoMatch(line, VarKey(rules[j].prefix))
    ensures ApplyRules(line, rules) == line
    decreases |rules|
  {
    if rules != [] {
      var r := rules[|rules| - 1];
      assert NoMatch(line, VarKey(r.prefix));
      ApplyRulesWithoutMatch(line, rules[..|rules| - 1]);
      SubstituteWithoutMatch(line, VarKey(r.prefix), Expand(r.template, VarKey(r.prefix)));
    }
  }

  /** In particular a line with no `_VER=` in it is copied unchanged. */
  lemma ApplyRulesKeepsOtherLines(line: string, rules: seq<Rule>)
    requires !Occurs(line, "_VER=")
    ensures ApplyRules(line, rules) == line
  {
    forall j | 0 <= j < |rules|
      ensures NoMatch(line, VarKey(rules[j].prefix))
    {
      forall p | 0 <= p < |line|
        ensures !MatchAt(line, VarKey(rules[j].prefix), p)
      {
        if MatchAt(line, VarKey(rules[j].prefix), p) {
          MatchHasMarker(line, rules[j].prefix, p);
        }
      }
    }
    ApplyRulesWithoutMatch(line, rules);
  }

  lemma {:induction false} ApplyRulesEmpty(rules: seq<Rule>)
    ensures ApplyRules([], rules) == []
    decreases |rules|
  {
    if rules != [] {
      ApplyRulesEmpty(rules[..|rules| - 1]);
    }
  }

  /** The rules never reach across whitespace: the text on either side is rewritten on its own. */
  lemma {:induction false} ApplyRulesSplitsAtSpace(u: string, c: char, v: string, rules: seq<Rule>)
    requires IsSpace(c) && ValidRules(rules)
    ensures ApplyRules(u + [c] + v, rules) == ApplyRules(u, rules) + [c] + ApplyRules(v, rules)
    decreases |rules|
  {
    if rules != [] {
      var init := rules[..|rules| - 1];
      var r := rules[|rules| - 1];
      assert ValidRules(init);
      ApplyRulesSplitsAtSpace(u, c, v, init);
      KeyHasNoSpace(r.prefix);
      SubstituteSplitsAtSpace(ApplyRules(u, init), c, ApplyRules(v, init), VarKey(r.prefix), Expand(r.template, VarKey(r.prefix)));
    }
  }

  /** A line's terminating newline survives the rewrite. */
  lemma ApplyRulesKeepsNewline(u: string, rules: seq<Rule>)
    requires ValidRules(rules)
    ensures ApplyRules(u + "\n", rules) == ApplyRules(u, rules) + "\n"
  {
    assert u + "\n" == u + ['\n'] + [];
    ApplyRulesSplitsAtSpace(u, '\n', [], rules);
    ApplyRulesEmpty(rules);
  }

  /**
   * An assignment `PREFIX_VER=value`, where value is a non-empty run of
   * non-whitespace up to the end of the line or to whitespace, is replaced
   * whole by the rule's expanded template.
   */
  lemma ApplyRuleAtAssignment(r: Rule, value: string, rest: string)
    requires |value| > 0 && NoSpace(value)
    requires rest == [] || IsSpace(rest[0])
    ensures ApplyRule(VarKey(r.prefix) + value + rest, r) == Expand(r.template, VarKey(r.prefix)) + ApplyRule(rest, r)
  {
    SubstituteAssignment(VarKey(r.prefix), value, rest, Expand(r.template, VarKey(r.prefix)));
  }

  lemma ApplyRuleAtEnd(r: Rule, value: string)
    requires |value| > 0 && NoSpace(value)
    ensures ApplyRule(VarKey(r.prefix) + value, r) == Expand(r.template, VarKey(r.prefix))
  {
    SubstituteFinalAssignment(VarKey(r.prefix), value, Expand(r.template, VarKey(r.prefix)));
  }

  /** As written, the rule replaces the assignment by U+0001 and the quoted version: the name is lost. */
  lemma ScriptRuleDropsName(prefix: string, version: string, value: string, rest: string)
    requires ValidPrefix(prefix)
    requires |value| > 0 && NoSpace(value)
    requires rest == [] || IsSpace(rest[0])
    ensures ApplyRule(VarKey(prefix) + value + rest, Rule(prefix, ScriptTemplate(version))) ==
            [1 as char, '"'] + version + ['"'] + ApplyRule(rest, Rule(prefix, ScriptTemplate(version)))
    ensures !(VarKey(prefix) <= ApplyRule(VarKey(prefix) + value + rest, Rule(prefix, ScriptTemplate(version))))
  {
    var r := Rule(prefix, ScriptTemplate(version));
    ApplyRuleAtAssignment(r, value, rest);
    ExpandScriptTemplate(version, VarKey(prefix));
    var out := ApplyRule(VarKey(prefix) + value + rest, r);
    assert out[0] == 1 as char;
    assert VarKey(prefix)[0] == prefix[0];
  }

  /** The intended rule keeps the variable name and quotes the new version. */
  lemma IntendedRuleKeepsName(prefix: string, version: string, value: string, rest: string)
    requires |value| > 0 && NoSpace(value)
    requires rest == [] || IsSpace(rest[0])
    ensures ApplyRule(VarKey(prefix) + value + rest, Rule(prefix, IntendedTemplate(version))) ==
            VarKey(prefix) + Quoted(version) + ApplyRule(rest, Rule(prefix, IntendedTemplate(version)))
  {
    var r := Rule(prefix, IntendedTemplate(version));
    ApplyRuleAtAssignment(r, value, rest);
    ExpandIntendedTemplate(version, VarKey(prefix));
  }

  lemma QuotedHasNoSpace(version: string)
    requires NoSpace(version)
    ensures |Quoted(version)| > 0 && NoSpace(Quoted(version))
  {
    var q := Quoted(version);
    forall i | 0 <= i < |q|
      ensures !IsSpace(q[i])
    {
      if 0 < i < |q| - 1 {
        assert q[i] == version[i - 1];
      }
    }
  }

  /**
   * With the intended rule, running the update a second time with the same
   * versions changes nothing more on an assignment line.
   */
  lemma IntendedRuleIsStable(prefix: string, version: string, value: string, rest: string)
    requires |value| > 0 && NoSpace(value) && NoSpace(version)
    requires rest == [] || IsSpace(rest[0])
    requires forall p :: 0 <= p < |rest| ==> !MatchAt(rest, VarKey(prefix), p)
    ensures ApplyRule(VarKey(prefix) + value + rest, Rule(prefix, IntendedTemplate(version))) == VarKey(prefix) + Quoted(version) + rest
    ensures ApplyRule(VarKey(prefix) + Quoted(version) + rest, Rule(prefix, IntendedTemplate(version))) ==
            VarKey(prefix) + Quoted(version) + rest
  {
    var r := Rule(prefix, IntendedTemplate(version));
    SubstituteWithoutMatch(rest, VarKey(prefix), Expand(r.template, VarKey(prefix)));
    IntendedRuleKeepsName(prefix, version, value, rest);
    QuotedHasNoSpace(version);
    IntendedRuleKeepsName(prefix, version, Quoted(version), rest);
  }

  /**
   * A name that merely ends in `PREFIX_VER=` (such as OPENSSL_VER= for SSL)
   * is rewritten as well, when no match starts earlier: whatever precedes the
   * key is copied.
   */
  lemma ApplyRuleInsideName(r: Rule, w: string, value: string, rest: string)
    requires forall q :: 0 <= q < |w| ==> !MatchAt(w + VarKey(r.prefix) + value + rest, VarKey(r.prefix), q)
    requires |value| > 0 && NoSpace(value)
    requires rest == [] || IsSpace(rest[0])
    ensures ApplyRule(w + VarKey(r.prefix) + value + rest, r) == w + Expand(r.template, VarKey(r.prefix)) + ApplyRule(rest, r)
  {
    var key := VarKey(r.prefix);
    var t := key + value + rest;
    assert w + key + value + rest == w + t;
    SubstituteCopiesPrefix(w, t, key, Expand(r.template, key));
    ApplyRuleAtAssignment(r, value, rest);
  }

  /** No match can start inside a text that lacks the key's first character. */
  lemma NoMatchInPrefix(w: string, t: string, key: string)
    requires 0 < |key| && key[0] !in w
    ensures forall q :: 0 <= q < |w| ==> !MatchAt(w + t, key, q)
  {
    forall q | 0 <= q < |w|
      ensures !MatchAt(w + t, key, q)
    {
      assert (w + t)[q] == w[q];
      NoMatchWithoutInitial(w + t, key, q);
    }
  }

  lemma ApplyRuleWithoutInitial(line: string, r: Rule)
    requires VarKey(r.prefix)[0] !in line
    ensures ApplyRule(line, r) == line
  {
    SubstituteWithoutInitial(line, VarKey(r.prefix), Expand(r.template, VarKey(r.prefix)));
  }

  lemma OneRule(line: string, r: Rule)
    ensures ApplyRules(line, [r]) == ApplyRule(line, r)
  {
    assert [r][..0] == [];
  }

  lemma TwoRules(line: string, r1: Rule, r2: Rule)
    ensures ApplyRules(line, [r1, r2]) == ApplyRule(ApplyRule(line, r1), r2)
  {
    assert [r1, r2][..1] == [r1];
    OneRule(line, r1);
  }

  /** A line holding one assignment and its terminator becomes the expanded template and the terminator. */
  lemma AssignmentLine(r: Rule, value: string, c: char)
    requires |value| > 0 && NoSpace(value) && IsSpace(c) && VarKey(r.prefix)[0] != c
    ensures ApplyRules(VarKey(r.prefix) + value + [c], [r]) == Expand(r.template, VarKey(r.prefix)) + [c]
  {
    OneRule(VarKey(r.prefix) + value + [c], r);
    ApplyRuleAtAssignment(r, value, [c]);
    ApplyRuleWithoutInitial([c], r);
  }

  /** The first of two rules rewrites its assignment, and the second finds no match in the result. */
  lemma FirstOfTwo(r1: Rule, v1: string, r2: Rule)
    requires |v1| > 0 && NoSpace(v1)
    requires NoMatch(Expand(r1.template, VarKey(r1.prefix)), VarKey(r2.prefix))
    ensures ApplyRules(VarKey(r1.prefix) + v1, [r1, r2]) == Expand(r1.template, VarKey(r1.prefix))
  {
    var u := VarKey(r1.prefix) + v1;
    TwoRules(u, r1, r2);
    ApplyRuleAtEnd(r1, v1);
    SubstituteWithoutMatch(Expand(r1.template, VarKey(r1.prefix)), VarKey(r2.prefix), Expand(r2.template, VarKey(r2.prefix)));
  }

  /** The first of two rules finds no match in the second's assignment, which the second rewrites. */
  lemma SecondOfTwo(r1: Rule, r2: Rule, v2: string)
    requires |v2| > 0 && NoSpace(v2)
    requires NoMatch(VarKey(r2.prefix) + v2, VarKey(r1.prefix))
    ensures ApplyRules(VarKey(r2.prefix) + v2, [r1, r2]) == Expand(r2.template, VarKey(r2.prefix))
  {
    var v := VarKey(r2.prefix) + v2;
    TwoRules(v, r1, r2);
    SubstituteWithoutMatch(v, VarKey(r1.prefix), Expand(r1.template, VarKey(r1.prefix)));
    ApplyRuleAtEnd(r2, v2);
  }

  /**
   * Two assignments separated by whitespace are each rewritten by their own
   * rule, when the first rule's key matches nowhere in the second assignment
   * and the second rule's key matches nowhere in the first rule's output.
   */
  lemma TwoAssignmentsLine(r1: Rule, v1: string, c: char, r2: Rule, v2: string)
    requires ValidPrefix(r1.prefix) && ValidPrefix(r2.prefix) && IsSpace(c)
    requires |v1| > 0 && NoSpace(v1) && |v2| > 0 && NoSpace(v2)
    requires NoMatch(Expand(r1.template, VarKey(r1.prefix)), VarKey(r2.prefix))
    requires NoMatch(VarKey(r2.prefix) + v2, VarKey(r1.prefix))
    ensures ApplyRules(VarKey(r1.prefix) + v1 + [c] + (VarKey(r2.prefix) + v2), [r1, r2]) ==
            Expand(r1.template, VarKey(r1.prefix)) + [c] + Expand(r2.template, VarKey(r2.prefix))
  {
    ApplyRulesSplitsAtSpace(VarKey(r1.prefix) + v1, c, VarKey(r2.prefix) + v2, [r1, r2]);
    FirstOfTwo(r1, v1, r2);
    SecondOfTwo(r1, r2, v2);
  }

  lemma NoMarkerWithoutUnderscore(line: string)
    requires '_' !in line
    ensures !Occurs(line, "_VER=")
  {
    forall p: nat
      ensures !OccursAt(line, "_VER=", p)
    {
      if p + 5 <= |line| {
        assert line[p..p + 5][0] == line[p];
      }
    }
  }

  lemma SingleRule(prefix: string, version: string)
    ensures ScriptRules([Package(prefix, version)]) == [Rule(prefix, ScriptTemplate(version))]
    ensures IntendedRules([Package(prefix, version)]) == [Rule(prefix, IntendedTemplate(version))]
  {
  }

  lemma TwoPackageRules(p1: string, v1: string, p2: string, v2: string)
    ensures ScriptRules([Package(p1, v1), Package(p2, v2)]) == [Rule(p1, ScriptTemplate(v1)), Rule(p2, ScriptTemplate(v2))]
    ensures IntendedRules([Package(p1, v1), Package(p2, v2)]) == [Rule(p1, IntendedTemplate(v1)), Rule(p2, IntendedTemplate(v2))]
  {
  }

  /** A one-entry table on a line whose name ends in the key and whose terminator holds no key. */
  lemma NameLine(r: Rule, w: string, value: string, rest: string)
    requires forall q :: 0 <= q < |w| ==> !MatchAt(w + VarKey(r.prefix) + value + rest, VarKey(r.prefix), q)
    requires |value| > 0 && NoSpace(value)
    requires rest == [] || IsSpace(rest[0])
    requires VarKey(r.prefix)[0] !in rest
    ensures ApplyRules(w + VarKey(r.prefix) + value + rest, [r]) == w + Expand(r.template, VarKey(r.prefix)) + rest
  {
    OneRule(w + VarKey(r.prefix) + value + rest, r);
    ApplyRuleInsideName(r, w, value, rest);
    ApplyRuleWithoutInitial(rest, r);
  }

  /*
   * Worked examples, on the line `SSL_VER="1.0.2n"` and the new openssl
   * version 1.0.2o.
   */

  lemma SslLine()
    ensures VarKey("SSL") == "SSL_VER="
    ensures NoSpace("\"1.0.2n\"") && IsSpace('\n')
  {
  }

  /** As written: the assignment loses its name and gains a leading U+0001. */
  lemma ScriptSslExample()
    ensures ApplyRules("SSL_VER=" + "\"1.0.2n\"" + "\n", ScriptRules([Package("SSL", "1.0.2o")])) == [1 as char] + "\"1.0.2o\"" + "\n"
    ensures ApplyRules("SSL_VER=" + "\"1.0.2n\"" + "\n", ScriptRules([Package("SSL", "1.0.2o")])) != "SSL_VER=" + "\"1.0.2o\"" + "\n"
  {
    SingleRule("SSL", "1.0.2o");
    SslLine();
    AssignmentLine(Rule("SSL", ScriptTemplate("1.0.2o")), "\"1.0.2n\"", '\n');
    ExpandScriptTemplate("1.0.2o", VarKey("SSL"));
  }

  /** Intended: the assignment gets the new quoted version and keeps its terminator. */
  lemma IntendedSslExample()
    ensures ApplyRules("SSL_VER=" + "\"1.0.2n\"" + "\n", IntendedRules([Package("SSL", "1.0.2o")])) == "SSL_VER=" + "\"1.0.2o\"" + "\n"
  {
    SingleRule("SSL", "1.0.2o");
    SslLine();
    AssignmentLine(Rule("SSL", IntendedTemplate("1.0.2o")), "\"1.0.2n\"", '\n');
    ExpandIntendedTemplate("1.0.2o", VarKey("SSL"));
  }

  /** A line without any assignment is left as it is. */
  lemma OtherLineExample(rules: seq<Rule>)
    ensures ApplyRules("FOO=bar\n", rules) == "FOO=bar\n"
  {
    NoMarkerWithoutUnderscore("FOO=bar\n");
    ApplyRulesKeepsOtherLines("FOO=bar\n", rules);
  }

  lemma TwoAssignmentsFacts()
    ensures VarKey("CURL") == "CURL_VER=" && VarKey("SSL") == "SSL_VER="
    ensures ValidPrefix("CURL") && ValidPrefix("SSL") && IsSpace(' ')
    ensures NoMatch("CURL_VER=" + Quoted("9"), "SSL_VER=") && NoMatch([1 as char, '"'] + "9" + ['"'], "SSL_VER=")
    ensures NoMatch("SSL_VER=" + "2", "CURL_VER=")
  {
    NoMatchWithoutInitialAnywhere("CURL_VER=" + Quoted("9"), "SSL_VER=");
    NoMatchWithoutInitialAnywhere([1 as char, '"'] + "9" + ['"'], "SSL_VER=");
    NoMatchWithoutInitialAnywhere("SSL_VER=" + "2", "CURL_VER=");
  }

  /** As written: both assignments on the line lose their names. */
  lemma ScriptTwoAssignmentsExample()
    ensures ApplyRules("CURL_VER=" + "1" + " " + ("SSL_VER=" + "2"), ScriptRules([Package("CURL", "9"), Package("SSL", "8")])) ==
            [1 as char] + "\"9\"" + " " + ([1 as char] + "\"8\"")
  {
    TwoPackageRules("CURL", "9", "SSL", "8");
    TwoAssignmentsFacts();
    ExpandScriptTemplate("9", VarKey("CURL"));
    ExpandScriptTemplate("8", VarKey("SSL"));
    TwoAssignmentsLine(Rule("CURL", ScriptTemplate("9")), "1", ' ', Rule("SSL", ScriptTemplate("8")), "2");
  }

  /** Intended: two assignments on one line are each updated and keep their names. */
  lemma IntendedTwoAssignmentsExample()
    ensures ApplyRules("CURL_VER=" + "1" + " " + ("SSL_VER=" + "2"), IntendedRules([Package("CURL", "9"), Package("SSL", "8")])) ==
            "CURL_VER=" + Quoted("9") + " " + ("SSL_VER=" + Quoted("8"))
  {
    TwoPackageRules("CURL", "9", "SSL", "8");
    TwoAssignmentsFacts();
    ExpandIntendedTemplate("9", VarKey("CURL"));
    ExpandIntendedTemplate("8", VarKey("SSL"));
    TwoAssignmentsLine(Rule("CURL", IntendedTemplate("9")), "1", ' ', Rule("SSL", IntendedTemplate("8")), "2");
  }

  /** OPENSSL_VER= contains SSL_VER=: as written, the SSL rule turns the line into OPEN, U+0001 and the quoted version. */
  lemma ScriptEmbeddedNameExample()
    ensures ApplyRules("OPEN" + "SSL_VER=" + "1.1.0h" + "\n", ScriptRules([Package("SSL", "1.0.2o")])) ==
            "OPEN" + ([1 as char] + "\"1.0.2o\"") + "\n"
  {
    SingleRule("SSL", "1.0.2o");
    SslLine();
    assert NoSpace("1.1.0h") && 'S' !in "OPEN";
    NoMatchInPrefix("OPEN", "SSL_VER=" + "1.1.0h" + "\n", "SSL_VER=");
    NameLine(Rule("SSL", ScriptTemplate("1.0.2o")), "OPEN", "1.1.0h", "\n");
    ExpandScriptTemplate("1.0.2o", VarKey("SSL"));
  }

  /** Intended: OPENSSL_VER= keeps its whole name and gets the quoted version. */
  lemma IntendedEmbeddedNameExample()
    ensures ApplyRules("OPEN" + "SSL_VER=" + "1.1.0h" + "\n", IntendedRules([Package("SSL", "1.0.2o")])) ==
            "OPEN" + "SSL_VER=" + Quoted("1.0.2o") + "\n"
  {
    SingleRule("SSL", "1.0.2o");
    SslLine();
    assert NoSpace("1.1.0h") && 'S' !in "OPEN";
    NoMatchInPrefix("OPEN", "SSL_VER=" + "1.1.0h" + "\n", "SSL_VER=");
    NameLine(Rule("SSL", IntendedTemplate("1.0.2o")), "OPEN", "1.1.0h", "\n");
    ExpandIntendedTemplate("1.0.2o", VarKey("SSL"));
  }

  /** In SOMESSL_VER= the letter S occurs before the key, and no match starts there. */
  lemma SomeSslPrefix(t: string)
    ensures forall q :: 0 <= q < 4 ==> !MatchAt("SOME" + t, "SSL_VER=", q)
  {
    var s := "SOME" + t;
    forall q | 0 <= q < 4
      ensures !MatchAt(s, "SSL_VER=", q)
    {
      assert s[q] == "SOME"[q];
      if q == 0 {
        assert s[1] == 'O';
        assert |s| < 8 || s[0..8][1] == 'O';
      } else {
        NoMatchWithoutInitial(s, "SSL_VER=", q);
      }
    }
  }

  /** As written, SOMESSL_VER=1 becomes SOME, U+0001 and the quoted version. */
  lemma ScriptPrefixedNameExample()
    ensures ApplyRules("SOME" + "SSL_VER=" + "1", ScriptRules([Package("SSL", "2")])) == "SOME" + ([1 as char] + "\"2\"")
  {
    SingleRule("SSL", "2");
    SslLine();
    SomeSslPrefix("SSL_VER=" + "1" + "");
    NameLine(Rule("SSL", ScriptTemplate("2")), "SOME", "1", "");
    ExpandScriptTemplate("2", VarKey("SSL"));
    assert "SOME" + "SSL_VER=" + "1" + "" == "SOME" + "SSL_VER=" + "1";
    assert "SOME" + ([1 as char] + "\"2\"") + "" == "SOME" + ([1 as char] + "\"2\"");
  }

  /** The SQLITE key is longer than the SSL assignment, so it cannot match inside it. */
  lemma SqliteSslFacts()
    ensures VarKey("SQLITE") == "SQLITE_VER=" && VarKey("SSL") == "SSL_VER="
    ensures ValidPrefix("SQLITE") && ValidPrefix("SSL") && IsSpace(' ')
    ensures NoMatch([1 as char, '"'] + "9" + ['"'], "SSL_VER=") && NoMatch("SSL_VER=" + "2", "SQLITE_VER=")
  {
    NoMatchWithoutInitialAnywhere([1 as char, '"'] + "9" + ['"'], "SSL_VER=");
  }

  /**
   * SQLITE and SSL share their first letter, and SQLITE comes first in the
   * table: as written, both assignments still lose their names.
   */
  lemma ScriptSqliteSslExample()
    ensures ApplyRules("SQLITE_VER=" + "1" + " " + ("SSL_VER=" + "2"), ScriptRules([Package("SQLITE", "9"), Package("SSL", "8")])) ==
            [1 as char] + "\"9\"" + " " + ([1 as char] + "\"8\"")
  {
    TwoPackageRules("SQLITE", "9", "SSL", "8");
    SqliteSslFacts();
    ExpandScriptTemplate("9", VarKey("SQLITE"));
    ExpandScriptTemplate("8", VarKey("SSL"));
    TwoAssignmentsLine(Rule("SQLITE", ScriptTemplate("9")), "1", ' ', Rule("SSL", ScriptTemplate("8")), "2");
  }

  /** No key of the table matches in the line of the commented-out PQ entry. */
  lemma PqLineFacts(line: string)
    requires line == "PQ_VER=" + "\"11.12\"" + "\n"
    ensures forall j :: 0 <= j < |PackageNames| ==> NoMatch(line, VarKey(PackageNames[j]))
  {
    assert VarKey("CURL") == "CURL_VER=" && VarKey("SQLITE") == "SQLITE_VER=" && VarKey("SSL") == "SSL_VER=";
    assert VarKey("ZLIB") == "ZLIB_VER=" && VarKey("RUSTUP") == "RUSTUP_VER=";
    NoMatchWithoutInitialAnywhere(line, "CURL_VER=");
    NoMatchWithoutInitialAnywhere(line, "SQLITE_VER=");
    NoMatchWithoutInitialAnywhere(line, "SSL_VER=");
    NoMatchWithoutInitialAnywhere(line, "ZLIB_VER=");
    forall q | 0 <= q < |line|
      ensures !MatchAt(line, "RUSTUP_VER=", q)
    {
      if q < 4 {
        assert line[q] == "PQ_V"[q];
        NoMatchWithoutInitial(line, "RUSTUP_VER=", q);
      }
    }
  }

  /**
   * The variable of the commented-out PQ entry is not in the table, so its
   * line passes through the update unchanged, whatever the versions.
   */
  lemma PqLineExample(versions: seq<string>)
    requires |versions| == |PackageNames|
    ensures ApplyRules("PQ_VER=" + "\"11.12\"" + "\n", ScriptRules(Table(versions))) == "PQ_VER=" + "\"11.12\"" + "\n"
    ensures ApplyRules("PQ_VER=" + "\"11.12\"" + "\n", IntendedRules(Table(versions))) == "PQ_VER=" + "\"11.12\"" + "\n"
  {
    var line := "PQ_VER=" + "\"11.12\"" + "\n";
    var table := Table(versions);
    PqLineFacts(line);
    forall j | 0 <= j < |table|
      ensures NoMatch(line, VarKey(ScriptRules(table)[j].prefix)) && NoMatch(line, VarKey(IntendedRules(table)[j].prefix))
    {
      assert ScriptRules(table)[j].prefix == IntendedRules(table)[j].prefix == Prefixes(table)[j] == PackageNames[j];
    }
    ApplyRulesWithoutMatch(line, ScriptRules(table));
    ApplyRulesWithoutMatch(line, IntendedRules(table));
  }
}

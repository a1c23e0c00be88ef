# muslrust `update_libs.py` in Dafny

`update_libs.py` keeps the Dockerfile of the muslrust image up to date:
- It looks up the current versions of curl, sqlite, openssl and zlib in the Arch Linux repositories, and the current rustup release.
- It converts the sqlite and openssl versions into the forms their upstream download URLs use.
- It rewrites every `PREFIX_VER=value` assignment in the Dockerfile to carry the new version.

This project models the part of the script that computes:

- `convert_openssl_version`, which drops the dot before a trailing letter (`1.0.2.o` becomes `1.0.2o`). Module `OpenSslVersion`, file `openssl_version.dfy`.
  - The model follows `re.sub(r'(.+)\.([a-z])', ...)`. The greedy group gives back characters from the right until it finds `.` plus a lower-case letter, so the dot removed is the last such dot at an index of at least 1, and only one is removed.
- `convert_sqlite_version`, which turns `3.24.0` into `3240000`. Module `SqliteVersion`, file `sqlite_version.dfy`.
  - `re.match` is modelled as three maximal runs of ASCII digits, separated by dots and anchored at the start.
  - The `int()` and `str()` conversions and the `{:02d}` padding are in module `Decimal`, file `decimal.dfy`.
  - When the pattern does not match, the script fails; that is the `None` result.
- The version table `PACKAGES` and the rewrite loop. Module `UpdateLibs`, file `update_libs.dfy`.
  - For every line of the file, each table entry in insertion order applies `re.sub('(PREFIX_VER=)\S+', replacement, line)` to the result of the previous entry.
  - The rewrite loop is the method `RewriteLines`, with the two nested loops of the script. It is proved against the function `ApplyRules`.
- `re.sub` for such a literal key. Module `Substitution`, file `substitution.dfy`.
  - It is a left-to-right scanner over positions. A match needs the key plus at least one non-whitespace character, and takes the whole non-whitespace run.
  - `\s` is Python's set for `str` patterns: the characters for which `str.isspace()` holds.
  - The scanner is proved equal to an independent word-by-word description (`Reference`).

The replacement at line 107 of the script is the f-string `f'\1"{version}"'`. It is not a raw string, so `\1` is the octal escape for the character U+0001 and not a back-reference. That corrupts every assignment (see Findings).
- Replacement templates are modelled as data (`Piece = Lit | Group1`), so one rewrite loop covers both versions:
  - the template as written (`ScriptTemplate`);
  - the template the comment at line 104 describes (`IntendedTemplate`).
- `UpdateDockerfile` is the update as the script is written, with the template of line 107. `UpdateDockerfileIntended` is the same update with the intended template.

## Model

| member | source | states |
|---|---|---|
| OpenSslVersion.LastDotLetterBelow | update_libs.py:32 | The dot the greedy `(.+)\.([a-z])` settles on: the largest index below n that holds `.`, is at least 1 and is followed by a-z. None exactly when no index below n qualifies. |
| OpenSslVersion.ConvertOpenSslVersion | update_libs.py:25-32 | The output is the input with exactly the last qualifying dot deleted. It equals the input exactly when no such dot exists. Its length is the input's or one less. It contains no character the input lacks. |
| OpenSslVersion.ConvertOpenSslExamples | update_libs.py:28-29 | `1.0.2.o` becomes `1.0.2o`; `1.0.2` and `.a` are unchanged; `1.a.b` becomes `1.ab`. |
| Decimal.Value | update_libs.py:44 | `int()` of a string of ASCII digits, leading zeros allowed, read most significant digit first. The value is below 10^len. |
| Decimal.ToDecimal | update_libs.py:43 | `{:d}` of a non-negative number: a non-empty digit string, built from n / 10 and the last digit n % 10. |
| Decimal.ZeroPad | update_libs.py:43 | `{:02d}`-style padding: zeros are added on the left up to the width, and a longer numeral is left as it is. Its properties are in `ZeroPadKeepsValue`. |
| Decimal.ValueOfToDecimal | update_libs.py:43-44 | Writing a number in decimal and reading it back with `int()` gives the number. |
| Decimal.ToDecimalHasNoLeadingZero | update_libs.py:43 | `{:d}` gives no leading zero, except for the number 0 itself. |
| Decimal.ToDecimalLength | update_libs.py:43 | The decimal form of n has the number of digits n needs: n < 10^len, and 10^(len-1) <= n once n >= 10. |
| Decimal.ValueAppend | update_libs.py:43-44 | Reading concatenated digit strings: `int(a + b) == int(a) * 10^len(b) + int(b)`. |
| Decimal.ZeroPadKeepsValue | update_libs.py:43 | `{:02d}`-style padding: the result is digits of length max(width, len), it denotes the same number, and it ends with the original digits. It never truncates. |
| SqliteVersion.DigitRun | update_libs.py:42 | A greedy `\d+` stops at the first non-digit or at the end. |
| SqliteVersion.Match | update_libs.py:42 | A successful match gives three non-empty digit groups. Their dotted text is a prefix of the input, followed by a non-digit or by the end. |
| SqliteVersion.Format | update_libs.py:43 | `'{:d}{:02d}{:02d}00'.format(major, minor, patch)`: the major unpadded, minor and patch padded to two digits, then `00`. Its properties are in `FormatIsDigits`, `FormatNeverTruncates` and `FormatValue`. |
| SqliteVersion.ConvertSqliteVersion | update_libs.py:35-45 | None exactly when the pattern does not match (where the script's subscript of None fails). Otherwise it returns the format applied to `int()` of the three groups. |
| SqliteVersion.MatchComplete | update_libs.py:42 | Whenever the input begins with `digits.digits.digits`, the match succeeds with those first two groups, and the third group extends the given one. |
| SqliteVersion.ConvertSqliteReadsPrefix | update_libs.py:42-45 | For three digit groups followed by anything that does not start with a digit, the match returns those groups. The result is the format applied to their `int()` values; the rest of the input is ignored. |
| SqliteVersion.FormatIsDigits | update_libs.py:43 | The output consists of digits only. |
| SqliteVersion.FormatNeverTruncates | update_libs.py:43 | The output starts with `str(major)` unpadded. Its length is len(major) + max(2, len(minor)) + max(2, len(patch)) + 2, so three-digit components are kept whole. |
| SqliteVersion.PaddedLength | update_libs.py:43 | `{:02d}` gives two characters below 10 and the plain decimal form from 10 on. |
| SqliteVersion.PaddedTwoDigits | update_libs.py:43 | `{:02d}` of a number below 100 is two digits that denote it. |
| SqliteVersion.ValueOfFields | update_libs.py:43 | Digit fields of widths 2 and 2 followed by `00` denote major·10^6 + minor·10^4 + patch·100. |
| SqliteVersion.FormatValue | update_libs.py:43 | For minor, patch < 100 the output is digits, has len(str(major)) + 6 characters, and denotes major·10^6 + minor·10^4 + patch·100. |
| SqliteVersion.FormatDocExample | update_libs.py:38-39 | The format of (3, 24, 0) is `3240000`. |
| SqliteVersion.ConvertSqliteDocExample | update_libs.py:38-39 | `3.24.0` converts to `3240000`. |
| SqliteVersion.ConvertSqliteIgnoresTail | update_libs.py:42 | `3.24.0.1` converts as `3.24.0` does. |
| SqliteVersion.ConvertSqliteDropsLeadingZeros | update_libs.py:44 | `03.024.00` converts as `3.24.0` does. |
| SqliteVersion.ConvertSqliteSmallMinor | update_libs.py:43 | `3.8.5` converts to `3080500`. |
| SqliteVersion.FormatWideMinorExample | update_libs.py:43 | A minor of 100 is kept whole: (3, 100, 2) formats as `31000200`. |
| SqliteVersion.ConvertSqliteFailures | update_libs.py:42-44 | `abc`, `3.24` and `.3.24.0` have no conversion. |
| Substitution.SubstituteFrom | update_libs.py:107 | The scan of `re.sub` from position p. Where the key starts and a non-whitespace character follows it, the replacement is emitted and the scan resumes at the end of the non-whitespace run. Elsewhere one character is copied. Its meaning is stated by `SubstituteIsWordwise`. |
| Substitution.Substitute | update_libs.py:107 | `re.sub('(KEY)\S+', repl, line)`: the scan from the start of the line. |
| Substitution.IsSpace | update_libs.py:107 | Python's `\s` for `str` patterns: exactly the characters for which `str.isspace()` holds. These are U+0009-U+000D, U+001C-U+0020, U+0085, U+00A0, U+1680, U+2000-U+200A, U+2028, U+2029, U+202F, U+205F and U+3000. |
| Substitution.MatchAt | update_libs.py:107 | Where `(KEY)\S+` can start a match: the key is there and at least one non-whitespace character follows it. |
| Substitution.NoMatch | update_libs.py:107 | The pattern can start a match at no position of the text. |
| Substitution.RunEnd | update_libs.py:107 | Where a greedy `\S*` stops: every character before is non-whitespace, and the stop is the end or a whitespace character. |
| Substitution.FirstMatchIn | update_libs.py:107 | The first position of a range where the pattern matches: it matches there, nowhere earlier in the range, and None means nowhere in the range. |
| Substitution.SubstituteWithoutMatch | update_libs.py:107 | A line where the pattern matches nowhere comes back unchanged. |
| Substitution.NoMatchWithoutInitial | update_libs.py:107 | The key cannot match at a character other than its first. |
| Substitution.SubstituteWithoutInitial | update_libs.py:107 | A line without the key's first character is unchanged. |
| Substitution.MatchInsideWord | update_libs.py:107 | A match lies inside one whitespace-free word: the key and at least one more character. |
| Substitution.SubstituteIsWordwise | update_libs.py:107 | The scanner equals the word-by-word description. Whitespace is copied. In every word, the text from the first position where the key is followed by a further character, up to the end of the word, becomes the replacement; the rest of the word is copied. |
| Substitution.SubstituteFromSuffix | update_libs.py:107 | Once past a prefix w, scanning w + t is scanning t. |
| Substitution.SubstituteAssignment | update_libs.py:107 | `KEY` + a non-empty whitespace-free value, ending at whitespace or at the end, is replaced as a whole, and the scan continues with the rest. |
| Substitution.SubstituteFinalAssignment | update_libs.py:107 | The same for an assignment at the end of the text. |
| Substitution.SubstituteCopiesPrefix | update_libs.py:107 | Text before the first match is copied unchanged. |
| Substitution.SubstituteSplitsAtSpace | update_libs.py:107 | For a whitespace character c, the rewrite of u + c + v is the rewrite of u, then c, then the rewrite of v. |
| UpdateLibs.Expand | update_libs.py:107 | `re.sub`'s expansion of a replacement template for one match: literal pieces as they are, and each `\1` piece as the text of group 1. |
| UpdateLibs.VarKey | update_libs.py:107 | The text the group `({prefix}_VER=)` of an entry's pattern matches: the prefix followed by `_VER=`. |
| UpdateLibs.ScriptRules | update_libs.py:106-107 | One rule per table entry, in table order: the entry's key with the replacement as written. |
| UpdateLibs.IntendedRules | update_libs.py:104-107 | One rule per table entry, in table order: the entry's key with the intended replacement. |
| UpdateLibs.ScriptTemplate | update_libs.py:107 | The replacement as written: the literal text U+0001, `"`, the version, `"`, with no back-reference. |
| UpdateLibs.IntendedTemplate | update_libs.py:104-107 | The replacement the comment describes: group 1 (the matched `PREFIX_VER=`) followed by the quoted version. |
| UpdateLibs.ApplyRule | update_libs.py:107 | One table entry's `re.sub` on a line: the key `PREFIX_VER=` and the rule's template expanded with that key as group 1. |
| UpdateLibs.ApplyRules | update_libs.py:106-107 | The line after every rule in order, each applied to the previous result. |
| UpdateLibs.ExpandScriptTemplate | update_libs.py:107 | The template as written expands to U+0001, `"`, the version, `"`, whatever the match. |
| UpdateLibs.ExpandIntendedTemplate | update_libs.py:104-107 | The intended template expands to the matched `PREFIX_VER=` followed by the quoted version. |
| UpdateLibs.PackageNamesValid | update_libs.py:86-93 | The table keys CURL, SQLITE, SSL, ZLIB, RUSTUP are upper-case names (so each pattern is a literal) and are pairwise distinct. |
| UpdateLibs.Table | update_libs.py:86-93 | The table has one entry per key in insertion order, with the given versions. |
| UpdateLibs.Packages | update_libs.py:86-93 | Building the table fails exactly when the sqlite version does not convert. Otherwise the keys are in insertion order, curl, zlib and rustup are taken as fetched, and sqlite and openssl are converted. |
| UpdateLibs.TableRulesValid | update_libs.py:86-93 | Rules built from the table, with either template, have valid keys. |
| UpdateLibs.RewriteLines | update_libs.py:105-108 | One output line per input line, in order. Each output line is the input line after every rule has been applied in order, each to the previous result. |
| UpdateLibs.UpdateDockerfile | update_libs.py:86-108 | The update as the script is written. It produces no lines exactly when the sqlite version does not convert. Otherwise it keeps the number of lines, and line i is `ApplyRules` of input line i under the table's rules with the template of line 107. So every assignment it rewrites becomes U+0001 + `"version"` (`ScriptRuleDropsName`). |
| UpdateLibs.UpdateDockerfileIntended | update_libs.py:86-108 | Intended: the same update with the template the comment at line 104 describes. Line i is `ApplyRules` of input line i under the intended rules, which keep each `PREFIX_VER=` (`IntendedRuleKeepsName`). |
| UpdateLibs.KeyHasNoSpace | update_libs.py:107 | `PREFIX_VER=` for a valid prefix contains no whitespace. |
| UpdateLibs.MatchHasMarker | update_libs.py:107 | Any match contains `_VER=`. |
| UpdateLibs.ApplyRulesWithoutMatch | update_libs.py:105-108 | A line in which no rule's pattern matches passes through every rule unchanged. |
| UpdateLibs.ApplyRulesKeepsOtherLines | update_libs.py:105-108 | In particular, a line without `_VER=` passes through every rule unchanged. |
| UpdateLibs.ApplyRulesEmpty | update_libs.py:105-108 | The empty line stays empty. |
| UpdateLibs.ApplyRulesSplitsAtSpace | update_libs.py:105-108 | All the rules together never reach across whitespace. |
| UpdateLibs.ApplyRulesKeepsNewline | update_libs.py:105-108 | A line's `\n` survives the rewrite: the rewrite of u + `\n` is the rewrite of u, then `\n`. |
| UpdateLibs.ApplyRuleAtAssignment | update_libs.py:107 | An assignment with a non-empty value is replaced whole by the rule's expanded template, and the rest of the line is rewritten on its own. |
| UpdateLibs.ApplyRuleAtEnd | update_libs.py:107 | The same for an assignment at the end of the line. |
| UpdateLibs.ApplyRuleInsideName | update_libs.py:107 | A longer name that ends in `PREFIX_VER=` is rewritten too, and what precedes the key is copied. This holds whenever no match starts in that preceding text, even where it contains the key's first letter (`SOMESSL_VER=`). |
| UpdateLibs.NameLine | update_libs.py:105-108 | A one-entry table turns a line made of some text, the key, a value and a terminator into that text, the expanded template and the terminator. It holds when no match starts in the text before the key. |
| UpdateLibs.ApplyRuleWithoutInitial | update_libs.py:107 | A line without the key's first character is unchanged by the rule. |
| UpdateLibs.ScriptRuleDropsName | update_libs.py:107 | As written, an assignment becomes U+0001 + `"version"`, and the result no longer starts with `PREFIX_VER=`. |
| UpdateLibs.IntendedRuleKeepsName | update_libs.py:104-107 | With the intended template, an assignment becomes `PREFIX_VER="version"`. |
| UpdateLibs.QuotedHasNoSpace | update_libs.py:107 | A quoted version without whitespace is a non-empty whitespace-free value. |
| UpdateLibs.IntendedRuleIsStable | update_libs.py:104-107 | With the intended template, a second run with the same version leaves the rewritten assignment line as it is. |
| UpdateLibs.OneRule | update_libs.py:106 | A table of one entry applies that entry's rule. |
| UpdateLibs.TwoRules | update_libs.py:106 | A table of two entries applies them in order, the second to the first's output. |
| UpdateLibs.AssignmentLine | update_libs.py:105-108 | A line holding one assignment and its terminator becomes the expanded template and the terminator. |
| UpdateLibs.FirstOfTwo | update_libs.py:106-107 | The first of two rules rewrites its assignment. The second leaves the result alone, provided its key matches nowhere in the first rule's output. |
| UpdateLibs.SecondOfTwo | update_libs.py:106-107 | The second of two rules rewrites its assignment. The first leaves that assignment alone, provided the first key matches nowhere in it. |
| UpdateLibs.TwoAssignmentsLine | update_libs.py:105-108 | Two assignments separated by whitespace are each rewritten by their own rule. This holds when the first key matches nowhere in the second assignment and the second key matches nowhere in the first rule's output. Keys that share a first letter, such as SQLITE and SSL, are covered. |
| UpdateLibs.NoMarkerWithoutUnderscore | update_libs.py:107 | A line without `_` contains no `_VER=`. |
| UpdateLibs.ScriptSslExample | update_libs.py:105-108 | As written, `SSL_VER="1.0.2n"\n` becomes U+0001 `"1.0.2o"\n`, not `SSL_VER="1.0.2o"\n`. |
| UpdateLibs.IntendedSslExample | update_libs.py:104-108 | Intended: `SSL_VER="1.0.2n"\n` becomes `SSL_VER="1.0.2o"\n`. |
| UpdateLibs.OtherLineExample | update_libs.py:105-108 | `FOO=bar\n` is unchanged by any rules. |
| UpdateLibs.ScriptTwoAssignmentsExample | update_libs.py:105-108 | As written, under CURL 9 and SSL 8, `CURL_VER=1 SSL_VER=2` becomes U+0001`"9"` U+0001`"8"`. |
| UpdateLibs.IntendedTwoAssignmentsExample | update_libs.py:104-108 | Intended: under CURL 9 and SSL 8, `CURL_VER=1 SSL_VER=2` becomes `CURL_VER="9" SSL_VER="8"`. |
| UpdateLibs.ScriptEmbeddedNameExample | update_libs.py:105-108 | As written, the SSL rule rewrites the end of `OPENSSL_VER=1.1.0h\n`, giving `OPEN` + U+0001`"1.0.2o"\n`. |
| UpdateLibs.IntendedEmbeddedNameExample | update_libs.py:104-108 | Intended: the SSL rule turns `OPENSSL_VER=1.1.0h\n` into `OPENSSL_VER="1.0.2o"\n`. |
| UpdateLibs.ScriptSqliteSslExample | update_libs.py:105-108 | As written, under SQLITE 9 and SSL 8 in table order, `SQLITE_VER=1 SSL_VER=2` becomes U+0001`"9"` U+0001`"8"`. |
| UpdateLibs.PqLineExample | update_libs.py:86-108 | The variable of the commented-out PQ entry (line 88) is not in the table. So `PQ_VER="11.12"\n` passes through the table's rules unchanged, with either template and whatever the versions. |
| UpdateLibs.ScriptPrefixedNameExample | update_libs.py:105-108 | As written, `SOMESSL_VER=1` becomes `SOME` + U+0001`"2"`: the S before the key starts no match. |

## Left out

- `pkgver` and `rustup_version` (update_libs.py:48-82) fetch versions over HTTP and parse JSON and TOML with external libraries. Their results are the string parameters of `Packages`, `UpdateDockerfile` and `UpdateDockerfileIntended`.
- Reading the Dockerfile, writing `Dockerfile.new` and renaming it (update_libs.py:100-111) are file I/O. The file is modelled as its sequence of lines, each with its terminator, as `for line in src` yields them. A failure before the rename leaves the file untouched; this is the `None` result of `UpdateDockerfile` and `UpdateDockerfileIntended`.
- The printed list of versions (update_libs.py:96-97) is console output only.
- The Python 2/3 import fallback (update_libs.py:12-17) is environment handling. The commented-out PQ entry (update_libs.py:88) is not part of the table.
- OpenSslVersion.ConvertOpenSslVersion: requires the version to contain no `\n`. The regular expression's `.` does not match a newline, and that case is not modelled.
- SqliteVersion.Match: `\d` is read as the ASCII digits 0-9. Python 3 also accepts other Unicode decimal digits, and those are not modelled.
- UpdateLibs.ApplyRule: the replacement is taken literally. `re.sub` would also interpret backslash escapes in a version string, and versions containing a backslash are not modelled.
- UpdateLibs.ApplyRule: the key is matched as literal text. This is exact for the table's upper-case keys (`PackageNamesValid`), but not for keys containing regular-expression metacharacters.
- One could read the sqlite format as a fixed-width nine-digit code. The code pads minor and patch to at least two digits, leaves the major unpadded, and never truncates. The model follows the code (`FormatNeverTruncates`, `FormatValue`).
- Independence of the table's order is not proved. It does not hold in general: a version string that itself contains a later key would be rewritten again. The model applies the rules in insertion order, as the script does.

## Findings

| source | as written | input that shows it | evidently intended | confidence | as-written member | corrected member |
|---|---|---|---|---|---|---|
| update_libs.py:107 | The replacement `f'\1"{version}"'` is a non-raw string: `\1` is the octal escape U+0001, so each assignment `PREFIX_VER=value` is replaced by U+0001 + `"version"` and the variable name is lost | the line `SSL_VER="1.0.2n"\n` with openssl version 1.0.2o becomes U+0001 `"1.0.2o"\n` | keep the matched `PREFIX_VER=` through the back-reference (`rf'\1"{version}"'`), giving `SSL_VER="1.0.2o"\n`, as the comment at line 104 describes | high; derived from Python's string-literal rules, not executed | UpdateLibs.ScriptRuleDropsName | UpdateLibs.IntendedRuleKeepsName |

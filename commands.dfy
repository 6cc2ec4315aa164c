/**
 * The pure rules of the upgrade command (src/pipupgrade/commands/__init__.py):
 * highlighting the changed part of a version, rewriting the lines of a
 * requirements file, and choosing which packages to report and to update.
 * The library calls these rules depend on (`semver.parse`, `cli_format`,
 * the regular-expression search) are parameters.
 */
module Commands {
  import opened Results
  import Cli

  // ---------------------------------------------------------------------
  // Highlighting a version (`_cli_format_semver`)
  // ---------------------------------------------------------------------

  /** Python's `s.find(c, start)`: the first index `>= start` holding `c`, or -1. */
  function Find(s: string, c: char, start: nat): (r: int)
    ensures r == -1 || start <= r < |s|
    ensures r == -1 <==> forall i :: start <= i < |s| ==> s[i] != c
    ensures r >= 0 ==> s[r] == c && forall i :: start <= i < r ==> s[i] != c
    decreases |s| - start
  {
    if start >= |s| then -1
    else if s[start] == c then start
    else Find(s, c, start + 1)
  }

  /**
   * `version.find(".", start) + 1`: one past the first dot at an index
   * `>= start`, or 0 when there is none.
   */
  function SplitPoint(version: string, start: nat): (i: nat)
    ensures i <= |version|
    ensures i == 0 <==> forall j :: start <= j < |version| ==> version[j] != '.'
    ensures i > 0 ==> start < i && version[i - 1] == '.' && forall j :: start <= j < i - 1 ==> version[j] != '.'
  {
    Find(version, '.', start) + 1
  }

  /** Keep `version[..i]` and highlight `version[i..]`. */
  function HighlightFrom(version: string, i: nat, highlight: string -> string): (r: string)
    requires i <= |version|
  {
    version[..i] + highlight(version[i..])
  }

  /**
   * `_cli_format_semver(version, type_)` as written. `isSemver` is whether
   * `semver.parse` accepts the text; `cliFormat` is `cli_format`.
   */
  function FormatSemver(version: string, diffType: Option<string>, isSemver: string -> bool, cliFormat: (string, string) -> string): (r: string)
    ensures !isSemver(version) ==> r == version
    ensures isSemver(version) && diffType == Some("major") ==> r == cliFormat(version, Cli.YELLOW)
    ensures isSemver(version) && diffType == Some("minor") ==>
      r == HighlightFrom(version, SplitPoint(version, 1), x => cliFormat(x, Cli.YELLOW))
    ensures isSemver(version) && diffType == Some("patch") ==>
      r == HighlightFrom(version, SplitPoint(version, 2), x => cliFormat(x, Cli.YELLOW))
    ensures diffType !in {Some("major"), Some("minor"), Some("patch")} ==> r == version
  {
    var highlight := x => cliFormat(x, Cli.YELLOW);
    if !isSemver(version) then version
    else if diffType == Some("major") then highlight(version)
    else if diffType == Some("minor") then HighlightFrom(version, SplitPoint(version, 1), highlight)
    else if diffType == Some("patch") then HighlightFrom(version, SplitPoint(version, 2), highlight)
    else version
  }

  /** The first dot at or after `start` is the one right after `a`. */
  lemma SplitAfter(a: string, rest: string, start: nat)
    requires start <= |a| && forall j :: start <= j < |a| ==> a[j] != '.'
    ensures SplitPoint(a + "." + rest, start) == |a| + 1
  {
    var v := a + "." + rest;
    assert v[|a|] == '.';
    assert forall j :: start <= j < |a| ==> v[j] == a[j];
  }

  /** A minor difference keeps the major number and its dot, and highlights the rest. */
  lemma MinorHighlightsAfterMajor(major: string, rest: string, isSemver: string -> bool, cliFormat: (string, string) -> string)
    requires |major| >= 1 && forall j :: 0 <= j < |major| ==> major[j] != '.'
    requires isSemver(major + "." + rest)
    ensures FormatSemver(major + "." + rest, Some("minor"), isSemver, cliFormat) == major + "." + cliFormat(rest, Cli.YELLOW)
  {
    var v := major + "." + rest;
    SplitAfter(major, rest, 1);
    assert v[..|major| + 1] == major + "." && v[|major| + 1..] == rest;
  }

  /** With a one-digit major number, a patch difference highlights only the patch number. */
  lemma PatchHighlightsPatchOfShortMajor(major: char, minor: string, patch: string, isSemver: string -> bool, cliFormat: (string, string) -> string)
    requires major != '.' && |minor| >= 1 && forall j :: 0 <= j < |minor| ==> minor[j] != '.'
    requires isSemver([major] + "." + minor + "." + patch)
    ensures FormatSemver([major] + "." + minor + "." + patch, Some("patch"), isSemver, cliFormat)
      == [major] + "." + minor + "." + cliFormat(patch, Cli.YELLOW)
  {
    var head := [major] + "." + minor;
    var v := head + "." + patch;
    assert v == [major] + "." + minor + "." + patch;
    SplitAfter(head, patch, 2);
    assert v[..|head| + 1] == head + "." && v[|head| + 1..] == patch;
  }

  /**
   * With a major number of two or more characters the patch search starts on
   * or before the first dot, so everything after the major number is
   * highlighted: `10.2.3` highlights `2.3` instead of `3`.
   */
  lemma PatchHighlightsMinorOfLongMajor(major: string, rest: string, isSemver: string -> bool, cliFormat: (string, string) -> string)
    requires |major| >= 2 && forall j :: 0 <= j < |major| ==> major[j] != '.'
    requires isSemver(major + "." + rest)
    ensures FormatSemver(major + "." + rest, Some("patch"), isSemver, cliFormat) == major + "." + cliFormat(rest, Cli.YELLOW)
  {
    var v := major + "." + rest;
    SplitAfter(major, rest, 2);
    assert v[..|major| + 1] == major + "." && v[|major| + 1..] == rest;
  }

  /**
   * `_cli_format_semver` as evidently intended: a patch difference splits one
   * past the dot that follows the first dot.
   */
  function FormatSemverIntended(version: string, diffType: Option<string>, isSemver: string -> bool, cliFormat: (string, string) -> string): (r: string)
    ensures diffType != Some("patch") ==> r == FormatSemver(version, diffType, isSemver, cliFormat)
    ensures !isSemver(version) ==> r == version
  {
    if isSemver(version) && diffType == Some("patch") then
      HighlightFrom(version, SplitPoint(version, SplitPoint(version, 0)), x => cliFormat(x, Cli.YELLOW))
    else FormatSemver(version, diffType, isSemver, cliFormat)
  }

  /** The intended rule highlights exactly the patch number, whatever the digit counts. */
  lemma IntendedPatchHighlightsPatch(major: string, minor: string, patch: string, isSemver: string -> bool, cliFormat: (string, string) -> string)
    requires forall j :: 0 <= j < |major| ==> major[j] != '.'
    requires forall j :: 0 <= j < |minor| ==> minor[j] != '.'
    requires isSemver(major + "." + minor + "." + patch)
    ensures FormatSemverIntended(major + "." + minor + "." + patch, Some("patch"), isSemver, cliFormat)
      == major + "." + minor + "." + cliFormat(patch, Cli.YELLOW)
  {
    var v := major + "." + minor + "." + patch;
    var head := major + "." + minor;
    assert v == major + "." + (minor + "." + patch);
    SplitAfter(major, minor + "." + patch, 0);
    assert v == head + "." + patch;
    assert forall j :: |major| + 1 <= j < |head| ==> head[j] == minor[j - |major| - 1];
    SplitAfter(head, patch, |major| + 1);
    assert v[..|head| + 1] == head + "." && v[|head| + 1..] == patch;
  }

  // ---------------------------------------------------------------------
  // Rewriting a requirements file (`_update_requirements`)
  // ---------------------------------------------------------------------

  /** Whether `pattern` occurs in `s` at index `i`. */
  predicate OccursAt(pattern: string, s: string, i: int)
  {
    0 <= i <= |s| - |pattern| && s[i..i + |pattern|] == pattern
  }

  /** Whether `pattern` occurs in `s`. */
  ghost predicate Occurs(pattern: string, s: string)
  {
    exists i :: OccursAt(pattern, s, i)
  }

  /** Python's `s.replace(pattern, replacement)`: every occurrence, left to right. */
  function ReplaceAll(s: string, pattern: string, replacement: string): (r: string)
    requires |pattern| > 0
    ensures forall c :: c in r ==> c in s || c in replacement
    decreases |s|
  {
    if |s| < |pattern| then s
    else if s[..|pattern|] == pattern then
      assert forall j :: 0 <= j < |s[|pattern|..]| ==> s[|pattern|..][j] == s[j + |pattern|];
      replacement + ReplaceAll(s[|pattern|..], pattern, replacement)
    else
      assert forall j :: 0 <= j < |s[1..]| ==> s[1..][j] == s[j + 1];
      [s[0]] + ReplaceAll(s[1..], pattern, replacement)
  }

  /** A line without the pattern is left as it is. */
  lemma {:induction false} ReplaceAbsent(s: string, pattern: string, replacement: string)
    requires |pattern| > 0 && !Occurs(pattern, s)
    ensures ReplaceAll(s, pattern, replacement) == s
    decreases |s|
  {
    if |s| >= |pattern| {
      assert !OccursAt(pattern, s, 0);
      forall i ensures !OccursAt(pattern, s[1..], i) {
        if 0 <= i <= |s[1..]| - |pattern| {
          assert s[1..][i..i + |pattern|] == s[i + 1..i + 1 + |pattern|];
          assert !OccursAt(pattern, s, i + 1);
        }
      }
      ReplaceAbsent(s[1..], pattern, replacement);
      assert s == [s[0]] + s[1..];
    }
  }

  /** Replacing a text by itself changes nothing. */
  lemma {:induction false} ReplaceBySelf(s: string, pattern: string)
    requires |pattern| > 0
    ensures ReplaceAll(s, pattern, pattern) == s
    decreases |s|
  {
    if |s| >= |pattern| {
      if s[..|pattern|] == pattern {
        ReplaceBySelf(s[|pattern|..], pattern);
        assert s == s[..|pattern|] + s[|pattern|..];
      } else {
        ReplaceBySelf(s[1..], pattern);
        assert s == [s[0]] + s[1..];
      }
    }
  }

  /** A text that does not start with the pattern's first character does not start with the pattern. */
  lemma StartsDifferently(s: string, pattern: string)
    requires 0 < |pattern| <= |s| && s[0] != pattern[0]
    ensures s[..|pattern|] != pattern
  {
    assert s[..|pattern|][0] == s[0];
  }

  /**
   * When the first occurrence of the pattern starts right after `x`, the
   * replacement keeps `x`, replaces that occurrence and carries on after it:
   * applied once per occurrence, every occurrence in the line is rewritten,
   * left to right.
   */
  lemma {:induction false} ReplaceEveryPin(x: string, pattern: string, y: string, replacement: string)
    requires |pattern| > 0
    requires forall i :: 0 <= i < |x| ==> !OccursAt(pattern, x + pattern + y, i)
    ensures ReplaceAll(x + pattern + y, pattern, replacement) == x + replacement + ReplaceAll(y, pattern, replacement)
    decreases |x|
  {
    var s := x + pattern + y;
    if x == [] {
      assert s == pattern + y;
      assert s[..|pattern|] == pattern && s[|pattern|..] == y;
    } else {
      assert !OccursAt(pattern, s, 0);
      assert s[..|pattern|] != pattern by {
        assert s[0..0 + |pattern|] == s[..|pattern|];
      }
      var x' := x[1..];
      assert s[1..] == x' + pattern + y;
      forall i | 0 <= i < |x'| ensures !OccursAt(pattern, x' + pattern + y, i) {
        assert !OccursAt(pattern, s, i + 1);
        if i <= |s[1..]| - |pattern| {
          assert s[1..][i..i + |pattern|] == s[i + 1..i + 1 + |pattern|];
        }
      }
      ReplaceEveryPin(x', pattern, y, replacement);
      assert ReplaceAll(s, pattern, replacement) == [x[0]] + ReplaceAll(s[1..], pattern, replacement);
      assert x == [x[0]] + x';
    }
  }

  /**
   * A requirement pinned as `name` followed by the pattern (`==current`)
   * becomes `name` followed by the replacement, when no occurrence of the
   * pattern starts inside the name (in particular when the name holds no
   * `=`; a name ending in `=` such as `pkg=` of `pkg===1.0` is covered too).
   */
  lemma ReplacePin(name: string, pattern: string, replacement: string)
    requires |pattern| > 0
    requires forall i :: 0 <= i < |name| ==> !OccursAt(pattern, name + pattern, i)
    ensures ReplaceAll(name + pattern, pattern, replacement) == name + replacement
  {
    assert name + pattern + "" == name + pattern;
    ReplaceEveryPin(name, pattern, "", replacement);
    assert name + replacement + "" == name + replacement;
  }

  /** A name without `=` holds no start of a `==` pin. */
  lemma NoPinInside(name: string, current: string)
    requires '=' !in name
    ensures forall i :: 0 <= i < |name| ==> !OccursAt("==" + current, name + ("==" + current), i)
  {
    forall i | 0 <= i < |name| ensures !OccursAt("==" + current, name + ("==" + current), i) {
      var p := "==" + current;
      var s := name + p;
      if i <= |s| - |p| {
        assert s[i] == name[i] && name[i] != p[0];
        assert s[i..i + |p|][0] != p[0];
      }
    }
  }

  /** The pinned line, grouped as the name and the pin. */
  lemma PinnedLine(name: string, version: string)
    ensures name + "==" + version == name + ("==" + version)
  {
  }

  /** `"%s" % v` for a version that may be `None`. */
  function ShowVersion(v: Option<string>): string
  {
    if v.Some? then v.value else "None"
  }

  /**
   * One line of the rewrite: a line the pattern matches has every
   * `==current` replaced by `==` and the latest version as `%s` shows it
   * (`None` when PyPI does not know the package); any other line is kept.
   */
  function RewriteLine(line: string, matches: string -> bool, current: string, latest: Option<string>): (r: string)
    ensures !matches(line) ==> r == line
    ensures forall c :: c in r ==> c in line || c in "==" + ShowVersion(latest)
  {
    if matches(line) then ReplaceAll(line, "==" + current, "==" + ShowVersion(latest)) else line
  }

  /**
   * A line comes out unchanged when the pattern does not match it, when it
   * holds no `==current`, or when there is nothing newer.
   */
  lemma RewriteLineUnchanged(line: string, matches: string -> bool, current: string, latest: Option<string>)
    ensures !matches(line) || !Occurs("==" + current, line) || latest == Some(current) ==>
      RewriteLine(line, matches, current, latest) == line
  {
    if matches(line) {
      if !Occurs("==" + current, line) {
        ReplaceAbsent(line, "==" + current, "==" + ShowVersion(latest));
      } else if latest == Some(current) {
        ReplaceBySelf(line, "==" + current);
      }
    }
  }

  /** A line the pattern matches that pins `name==current` comes out as `name==latest`. */
  lemma RewritePinnedLine(name: string, matches: string -> bool, current: string, latest: string)
    requires matches(name + "==" + current) && '=' !in name
    ensures RewriteLine(name + "==" + current, matches, current, Some(latest)) == name + "==" + latest
  {
    NoPinInside(name, current);
    ReplacePin(name, "==" + current, "==" + latest);
    PinnedLine(name, current);
    PinnedLine(name, latest);
  }

  /**
   * For a package PyPI does not know, `latest_version` is `None`, and a
   * matching `name==current` line is written back as `name==None`.
   */
  lemma UnknownLatestWritesNone(name: string, matches: string -> bool, current: string)
    requires matches(name + "==" + current) && '=' !in name
    ensures RewriteLine(name + "==" + current, matches, current, None) == name + "==None"
  {
    NoPinInside(name, current);
    assert "==" + ShowVersion(None) == "==None";
    ReplacePin(name, "==" + current, "==None");
    PinnedLine(name, current);
    PinnedLine(name, "None");
  }

  /** The rewrite of one line as evidently intended: without a latest version, the line is kept. */
  function RewriteLineIntended(line: string, matches: string -> bool, current: string, latest: Option<string>): string
  {
    if latest.None? then line else RewriteLine(line, matches, current, latest)
  }

  /**
   * The intended rewrite keeps every line of a package PyPI does not know,
   * and still rewrites a matching `name==current` line to `name==latest`.
   */
  lemma IntendedKeepsUnknownPins(line: string, name: string, matches: string -> bool, current: string, latest: string)
    ensures RewriteLineIntended(line, matches, current, None) == line
    ensures matches(name + "==" + current) && '=' !in name ==>
      RewriteLineIntended(name + "==" + current, matches, current, Some(latest)) == name + "==" + latest
  {
    if matches(name + "==" + current) && '=' !in name {
      RewritePinnedLine(name, matches, current, latest);
    }
  }

  /** Every line rewritten, in order. */
  function RewriteAll(lines: seq<string>, matches: string -> bool, current: string, latest: Option<string>): (out: seq<string>)
    ensures |out| == |lines|
    ensures forall i :: 0 <= i < |lines| ==> out[i] == RewriteLine(lines[i], matches, current, latest)
  {
    seq(|lines|, i requires 0 <= i < |lines| => RewriteLine(lines[i], matches, current, latest))
  }

  /** The text the loop writes: the lines joined by newlines, with none after the last. */
  function Join(lines: seq<string>): (s: string)
    decreases |lines|
  {
    if |lines| == 0 then ""
    else if |lines| == 1 then lines[0]
    else lines[0] + "\n" + Join(lines[1..])
  }

  /**
   * Nothing is written for no lines; otherwise the text starts with the first
   * line and ends with the last, with no newline before or after them.
   */
  lemma {:induction false} JoinEnds(lines: seq<string>)
    ensures lines == [] ==> Join(lines) == ""
    ensures |lines| >= 1 ==> |Join(lines)| >= |lines[0]| && Join(lines)[..|lines[0]|] == lines[0]
    ensures |lines| >= 1 ==> |Join(lines)| >= |lines[|lines| - 1]| && Join(lines)[|Join(lines)| - |lines[|lines| - 1]|..] == lines[|lines| - 1]
    decreases |lines|
  {
    if |lines| > 1 {
      JoinEnds(lines[1..]);
      var rest := Join(lines[1..]);
      var s := lines[0] + "\n" + rest;
      assert Join(lines) == s;
      assert s[..|lines[0]|] == lines[0];
      assert lines[1..][|lines[1..]| - 1] == lines[|lines| - 1];
      assert s[|s| - |lines[|lines| - 1]|..] == rest[|rest| - |lines[|lines| - 1]|..];
    }
  }

  /**
   * Reads a written text back as lines: split at every newline, keeping an
   * empty piece at either end. This is not `str.splitlines`; it is the
   * inverse of `Join` on lines without newlines.
   */
  function SplitAtNewlines(s: string): (lines: seq<string>)
    ensures |lines| >= 1
    ensures forall i :: 0 <= i < |lines| ==> '\n' !in lines[i]
    decreases |s|
  {
    var k := Find(s, '\n', 0);
    if k < 0 then [s]
    else
      assert '\n' !in s[..k] by {
        assert forall j :: 0 <= j < k ==> s[..k][j] == s[j];
      }
      [s[..k]] + SplitAtNewlines(s[k + 1..])
  }

  lemma {:induction false} JoinSnoc(lines: seq<string>, last: string)
    requires |lines| >= 1
    ensures Join(lines + [last]) == Join(lines) + "\n" + last
    decreases |lines|
  {
    if |lines| > 1 {
      assert (lines + [last])[1..] == lines[1..] + [last];
      JoinSnoc(lines[1..], last);
    } else {
      assert (lines + [last])[1..] == [last];
    }
  }

  /** Joining one more line of a list: the line alone, or after a newline. */
  lemma JoinPrefix(lines: seq<string>, i: nat)
    requires i < |lines|
    ensures Join(lines[..i + 1]) == if i == 0 then lines[i] else Join(lines[..i]) + "\n" + lines[i]
  {
    assert lines[..i + 1] == lines[..i] + [lines[i]];
    if i > 0 {
      JoinSnoc(lines[..i], lines[i]);
    } else {
      assert lines[..i + 1] == [lines[i]];
    }
  }

  /**
   * Joining lines that hold no newline and splitting the text again gives
   * the same lines: the text has one line per input line.
   */
  lemma {:induction false} SplitJoin(lines: seq<string>)
    requires |lines| >= 1
    requires forall i :: 0 <= i < |lines| ==> '\n' !in lines[i]
    ensures SplitAtNewlines(Join(lines)) == lines
    decreases |lines|
  {
    if |lines| == 1 {
      assert forall j :: 0 <= j < |lines[0]| ==> lines[0][j] != '\n';
    } else {
      SplitAtFirstNewline(lines[0], Join(lines[1..]));
      SplitJoin(lines[1..]);
      assert lines == [lines[0]] + lines[1..];
    }
  }

  /** A line without a newline, a newline and a rest read back as that line and the rest's lines. */
  lemma SplitAtFirstNewline(head: string, rest: string)
    requires '\n' !in head
    ensures SplitAtNewlines(head + "\n" + rest) == [head] + SplitAtNewlines(rest)
  {
    var s := head + "\n" + rest;
    assert s[|head|] == '\n';
    assert forall j :: 0 <= j < |head| ==> s[j] == head[j] && head[j] != '\n';
    assert Find(s, '\n', 0) == |head|;
    assert s[..|head|] == head && s[|head| + 1..] == rest;
  }

  /**
   * When neither the input lines nor the new version hold a newline, the
   * rewritten text splits back into exactly one rewritten line per input line.
   */
  lemma RewriteKeepsLines(lines: seq<string>, matches: string -> bool, current: string, latest: Option<string>)
    requires |lines| >= 1
    requires forall i :: 0 <= i < |lines| ==> '\n' !in lines[i]
    requires '\n' !in ShowVersion(latest)
    ensures SplitAtNewlines(Join(RewriteAll(lines, matches, current, latest))) == RewriteAll(lines, matches, current, latest)
  {
    var out := RewriteAll(lines, matches, current, latest);
    forall i | 0 <= i < |out| ensures '\n' !in out[i] {
      assert out[i] == RewriteLine(lines[i], matches, current, latest);
    }
    SplitJoin(out);
  }

  /**
   * The loop of `_update_requirements`: for each line of the file, write the
   * rewritten line, then a newline unless it is the last line. Returns the
   * text written.
   */
  method RewriteLines(lines: seq<string>, matches: string -> bool, current: string, latest: Option<string>) returns (written: string)
    ensures written == Join(RewriteAll(lines, matches, current, latest))
  {
    ghost var out := RewriteAll(lines, matches, current, latest);
    var nlines := |lines|;
    written := "";
    for i := 0 to nlines
      invariant written == if i == 0 then "" else if i < nlines then Join(out[..i]) + "\n" else Join(out[..i])
    {
      var line := lines[i];
      if matches(line) {
        line := ReplaceAll(line, "==" + current, "==" + ShowVersion(latest));
      }
      assert line == RewriteLine(lines[i], matches, current, latest) == out[i];
      JoinPrefix(out, i);
      written := written + line;
      if i < nlines - 1 {
        written := written + "\n";
      }
    }
    assert nlines > 0 ==> out[..nlines] == out;
  }

  // ---------------------------------------------------------------------
  // Choosing packages (`command`)
  // ---------------------------------------------------------------------

  /** What the command knows about one package; `diffType` is `semver.difference`'s answer. */
  datatype PackageInfo = PackageInfo(name: string, currentVersion: Option<string>, latestVersion: Option<string>, diffType: Option<string>)

  /** The test at line 189: a latest version is known, is not empty, and differs from the current one. */
  predicate IsOutdated(current: Option<string>, latest: Option<string>)
  {
    latest.Some? && latest.value != "" && current != latest
  }

  /** The test of the comprehension at line 223. */
  predicate AutoSelected(diffType: Option<string>, latest: bool)
  {
    diffType != Some("major") || latest
  }

  /** A list comprehension with a condition: the elements `keep` accepts, in order. */
  function Filter<T(!new)>(s: seq<T>, keep: T -> bool): (r: seq<T>)
    ensures |r| <= |s|
    ensures forall x :: x in r <==> x in s && keep(x)
    decreases |s|
  {
    if s == [] then []
    else if keep(s[0]) then [s[0]] + Filter(s[1..], keep)
    else Filter(s[1..], keep)
  }

  /** Filtering keeps the order: it distributes over concatenation. */
  lemma {:induction false} FilterConcat<T(!new)>(a: seq<T>, b: seq<T>, keep: T -> bool)
    ensures Filter(a + b, keep) == Filter(a, keep) + Filter(b, keep)
    decreases |a|
  {
    if a != [] {
      assert (a + b)[0] == a[0] && (a + b)[1..] == a[1..] + b;
      FilterConcat(a[1..], b, keep);
    } else {
      assert a + b == b;
    }
  }

  /** Filtering with a test every element passes changes nothing. */
  lemma {:induction false} FilterAll<T(!new)>(s: seq<T>, keep: T -> bool)
    ensures (forall i :: 0 <= i < |s| ==> keep(s[i])) ==> Filter(s, keep) == s
    decreases |s|
  {
    if s != [] && forall i :: 0 <= i < |s| ==> keep(s[i]) {
      FilterAll(s[1..], keep);
      assert s == [s[0]] + s[1..];
    }
  }

  /** The packages listed in the table (`dinfo`), in order. */
  function Report(infos: seq<PackageInfo>): (r: seq<PackageInfo>)
    ensures forall p :: p in r <==> p in infos && IsOutdated(p.currentVersion, p.latestVersion)
    ensures forall p :: p in r ==> p.latestVersion.Some? && p.latestVersion != p.currentVersion
  {
    Filter(infos, (p: PackageInfo) => IsOutdated(p.currentVersion, p.latestVersion))
  }

  /** The packages offered for update: a major upgrade only with `latest`. */
  function SelectForUpdate(dinfo: seq<PackageInfo>, latest: bool): (r: seq<PackageInfo>)
    ensures forall p :: p in r <==> p in dinfo && AutoSelected(p.diffType, latest)
    ensures latest ==> r == dinfo
    ensures forall p :: p in r && !latest ==> p.diffType != Some("major")
  {
    FilterAll(dinfo, (p: PackageInfo) => AutoSelected(p.diffType, latest));
    Filter(dinfo, (p: PackageInfo) => AutoSelected(p.diffType, latest))
  }

  /** Every package offered for update is an outdated input package, and there are no more offers than input packages. */
  lemma SelectedAreOutdated(infos: seq<PackageInfo>, latest: bool)
    ensures forall p :: p in SelectForUpdate(Report(infos), latest) ==> p in infos && IsOutdated(p.currentVersion, p.latestVersion)
    ensures |SelectForUpdate(Report(infos), latest)| <= |infos|
  {
  }
}

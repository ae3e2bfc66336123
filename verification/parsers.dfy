/** The capability parsers of `src/lib.rs`: each turns the raw text one probe
    produced into the version token it reports, or into nothing. A parser that
    yields nothing makes its probe count as failed, so detection moves on. */
module Parsers {
  import opened Wrappers
  import opened Text
  import opened Patterns

  /** A normalized version token: non-empty, with no whitespace at either end. */
  predicate IsToken(v: string)
  {
    v != [] && IsTrimmed(v)
  }

  /** Some(v) unless v is empty. */
  function NonEmpty(v: string): (r: Option<string>)
    ensures r.Some? <==> v != []
    ensures r.Some? ==> r.value == v
  {
    if v == [] then None else Some(v)
  }

  // ---------------------------------------------------------------------------
  // `pip show <package>`
  // ---------------------------------------------------------------------------

  const PipNotFound: string := "WARNING: Package(s) not found"
  const VersionKey: string := "Version:"

  /** The lines of a probe's output after the whole output is trimmed. */
  function TrimmedLines(output: string): seq<string>
  {
    Lines(Trim(output))
  }

  /** The trimmed second ':'-separated field of the first line that mentions
      "Version:", provided it is non-empty. */
  function VersionLineValue(lines: seq<string>): (r: Option<string>)
    ensures forall i: nat :: IsFirst(lines, HasSubstring(VersionKey), i) ==>
              r == NonEmpty(Trim(Field(lines[i], ':', 1)))
    ensures (forall i :: 0 <= i < |lines| ==> !Contains(lines[i], VersionKey)) ==> r.None?
    ensures r.Some? ==> IsToken(r.value) && ':' !in r.value
  {
    match FindFirst(lines, HasSubstring(VersionKey))
    case None => None
    case Some(i) =>
      assert forall j: nat :: IsFirst(lines, HasSubstring(VersionKey), j) ==> j == i by {
        forall j: nat | IsFirst(lines, HasSubstring(VersionKey), j) ensures j == i {
          FirstUnique(lines, HasSubstring(VersionKey), i, j);
        }
      }
      TrimKeepsOut(Field(lines[i], ':', 1), ':');
      NonEmpty(Trim(Field(lines[i], ':', 1)))
  }

  /** The version `pip show` reports: nothing when the not-found notice appears
      anywhere in the output, even next to a "Version:" line; otherwise the
      value of the first "Version:" line of the trimmed output. */
  function PipShowVersion(output: string): (r: Option<string>)
    ensures Contains(output, PipNotFound) ==> r.None?
    ensures !Contains(output, PipNotFound) ==> r == VersionLineValue(TrimmedLines(output))
    ensures r.Some? ==> IsToken(r.value) && ':' !in r.value
  {
    var out := Trim(output);
    ContainsTrimmed(output, PipNotFound);
    if out != [] && !Contains(out, PipNotFound) then
      VersionLineValue(Lines(out))
    else
      None
  }

  // ---------------------------------------------------------------------------
  // `conda list <package>`
  // ---------------------------------------------------------------------------

  /** The second whitespace-separated token of a line, if it has one. */
  function SecondToken(line: string): (r: Option<string>)
    ensures r.Some? ==> IsToken(r.value) && NoWhitespace(r.value)
    ensures |SplitWhitespace(line)| >= 2 ==> r == Some(SplitWhitespace(line)[1])
    ensures |SplitWhitespace(line)| < 2 ==> r.None?
  {
    var parts := SplitWhitespace(line);
    if |parts| >= 2 then Some(parts[1]) else None
  }

  /** A line of words separated by spaces, with any whitespace around it: the
      second word is its value, and a single word has none. */
  lemma SecondTokenOfWords(pre: string, words: seq<string>, post: string)
    requires AllWhitespace(pre) && AllWhitespace(post) && |words| > 0
    requires forall k :: 0 <= k < |words| ==> |words[k]| > 0 && NoWhitespace(words[k])
    ensures |words| >= 2 ==> SecondToken(pre + Join(words, ' ') + post) == Some(words[1])
    ensures |words| == 1 ==> SecondToken(pre + Join(words, ' ') + post).None?
  {
    SplitWhitespacePadded(pre, words, post);
  }

  /** The second token of the first line that starts with the package name;
      later lines are never consulted, even when that first line is too short. */
  function PackageLineVersion(lines: seq<string>, package: string): (r: Option<string>)
    ensures forall i: nat :: IsFirst(lines, HasPrefix(package), i) ==> r == SecondToken(lines[i])
    ensures (forall i :: 0 <= i < |lines| ==> !StartsWith(lines[i], package)) ==> r.None?
    ensures r.Some? ==> IsToken(r.value) && NoWhitespace(r.value)
  {
    match FindFirst(lines, HasPrefix(package))
    case None => None
    case Some(i) =>
      assert forall j: nat :: IsFirst(lines, HasPrefix(package), j) ==> j == i by {
        forall j: nat | IsFirst(lines, HasPrefix(package), j) ensures j == i {
          FirstUnique(lines, HasPrefix(package), i, j);
        }
      }
      SecondToken(lines[i])
  }

  /** The version `conda list <package>` reports: the second whitespace token of
      the first line of the trimmed output that starts with the package name.
      When that line has a single token there is no version, whatever later
      lines say. */
  function CondaListVersion(package: string, output: string): (r: Option<string>)
    ensures (forall i :: 0 <= i < |TrimmedLines(output)| ==> !StartsWith(TrimmedLines(output)[i], package)) ==> r.None?
    ensures forall i: nat :: IsFirst(TrimmedLines(output), HasPrefix(package), i) ==> r == SecondToken(TrimmedLines(output)[i])
    ensures r.Some? ==> IsToken(r.value) && NoWhitespace(r.value)
  {
    if Trim(output) != [] then
      PackageLineVersion(TrimmedLines(output), package)
    else
      assert TrimmedLines(output) == [];
      None
  }

  /** Text made of lines free of line endings, starting and ending with a
      non-whitespace character and padded with whitespace, has those lines once
      trimmed. */
  lemma TrimmedLinesOfJoin(pre: string, ls: seq<string>, post: string)
    requires AllWhitespace(pre) && AllWhitespace(post) && |ls| > 0
    requires forall k :: 0 <= k < |ls| ==> '\n' !in ls[k] && '\r' !in ls[k]
    requires ls[0] != [] && !IsWhitespace(ls[0][0])
    requires var last := ls[|ls| - 1]; last != [] && !IsWhitespace(last[|last| - 1])
    ensures TrimmedLines(pre + Join(ls, '\n') + post) == ls
  {
    var j := Join(ls, '\n');
    JoinStartsWithFirst(ls, '\n');
    LastGroupEndsJoin(ls, '\n');
    TrimOfPadded(pre, j, post);
    LinesOfJoin(ls);
  }

  /** A whole `conda list` listing: header lines that do not start with the
      package name, the package's row of space-separated columns, and further
      rows. The second column of the package's row is the version. */
  lemma CondaListOfListing(package: string, header: seq<string>, columns: seq<string>, rest: seq<string>)
    requires |columns| >= 2 && StartsWith(columns[0], package)
    requires forall k :: 0 <= k < |columns| ==> |columns[k]| > 0 && NoWhitespace(columns[k])
    requires forall k :: 0 <= k < |header| ==> !StartsWith(header[k], package)
    requires forall k :: 0 <= k < |header| ==> '\n' !in header[k] && '\r' !in header[k]
    requires forall k :: 0 <= k < |rest| ==> '\n' !in rest[k] && '\r' !in rest[k]
    requires header != [] ==> header[0] != [] && !IsWhitespace(header[0][0])
    requires rest != [] ==> var last := rest[|rest| - 1]; last != [] && !IsWhitespace(last[|last| - 1])
    ensures CondaListVersion(package, Join(header + [Join(columns, ' ')] + rest, '\n') + "\n") == Some(columns[1])
  {
    var row := Join(columns, ' ');
    var ls := header + [row] + rest;
    ColumnsRow(package, columns);
    ListingTrimmedLines(header, row, rest);
    PackageRowFirst(package, header, row, rest);
  }

  /** The trimmed lines of a listing ended by a line feed are its lines. */
  lemma ListingTrimmedLines(header: seq<string>, row: string, rest: seq<string>)
    requires '\n' !in row && '\r' !in row
    requires row != [] && !IsWhitespace(row[0]) && !IsWhitespace(row[|row| - 1])
    requires forall k :: 0 <= k < |header| ==> '\n' !in header[k] && '\r' !in header[k]
    requires forall k :: 0 <= k < |rest| ==> '\n' !in rest[k] && '\r' !in rest[k]
    requires header != [] ==> header[0] != [] && !IsWhitespace(header[0][0])
    requires rest != [] ==> var last := rest[|rest| - 1]; last != [] && !IsWhitespace(last[|last| - 1])
    ensures TrimmedLines(Join(header + [row] + rest, '\n') + "\n") == header + [row] + rest
  {
    var ls := header + [row] + rest;
    ListingLines(header, row, rest);
    EndedByLineFeed(ls);
  }

  /** `TrimmedLinesOfJoin` for text that is the lines followed by one line feed. */
  lemma EndedByLineFeed(ls: seq<string>)
    requires |ls| > 0
    requires forall k :: 0 <= k < |ls| ==> '\n' !in ls[k] && '\r' !in ls[k]
    requires ls[0] != [] && !IsWhitespace(ls[0][0])
    requires var last := ls[|ls| - 1]; last != [] && !IsWhitespace(last[|last| - 1])
    ensures TrimmedLines(Join(ls, '\n') + "\n") == ls
  {
    var j := Join(ls, '\n');
    assert AllWhitespace("\n");
    TrimmedLinesOfJoin([], ls, "\n");
    assert [] + j + "\n" == j + "\n";
  }

  /** The package's row, after header lines that do not start with the package
      name, is the first line that does. */
  lemma PackageRowFirst(package: string, header: seq<string>, row: string, rest: seq<string>)
    requires StartsWith(row, package)
    requires forall k :: 0 <= k < |header| ==> !StartsWith(header[k], package)
    ensures IsFirst(header + [row] + rest, HasPrefix(package), |header|)
  {
    var ls := header + [row] + rest;
    assert ls[|header|] == row;
    assert forall k :: 0 <= k < |header| ==> ls[k] == header[k];
  }

  /** The package's row, columns joined by spaces. */
  lemma ColumnsRow(package: string, columns: seq<string>)
    requires |columns| >= 2 && StartsWith(columns[0], package)
    requires forall k :: 0 <= k < |columns| ==> |columns[k]| > 0 && NoWhitespace(columns[k])
    ensures var row := Join(columns, ' ');
      && '\n' !in row && '\r' !in row
      && row != [] && !IsWhitespace(row[0]) && !IsWhitespace(row[|row| - 1])
      && StartsWith(row, package)
      && SecondToken(row) == Some(columns[1])
  {
    var row := Join(columns, ' ');
    forall k | 0 <= k < |columns| ensures '\n' !in columns[k] && '\r' !in columns[k] {
      assert forall c :: c in columns[k] ==> !IsWhitespace(c);
    }
    JoinAvoids(columns, ' ', '\n');
    JoinAvoids(columns, ' ', '\r');
    JoinStartsWithFirst(columns, ' ');
    LastGroupEndsJoin(columns, ' ');
    var last := columns[|columns| - 1];
    assert !IsWhitespace(last[|last| - 1]);
    assert row == columns[0] + " " + Join(columns[1..], ' ');
    assert row[..|package|] == columns[0][..|package|];
    SecondTokenOfWords([], columns, []);
    assert [] + row + [] == row;
  }

  /** The lines of a listing satisfy what `TrimmedLinesOfJoin` needs. */
  lemma ListingLines(header: seq<string>, row: string, rest: seq<string>)
    requires '\n' !in row && '\r' !in row
    requires row != [] && !IsWhitespace(row[0]) && !IsWhitespace(row[|row| - 1])
    requires forall k :: 0 <= k < |header| ==> '\n' !in header[k] && '\r' !in header[k]
    requires forall k :: 0 <= k < |rest| ==> '\n' !in rest[k] && '\r' !in rest[k]
    requires header != [] ==> header[0] != [] && !IsWhitespace(header[0][0])
    requires rest != [] ==> var last := rest[|rest| - 1]; last != [] && !IsWhitespace(last[|last| - 1])
    ensures var ls := header + [row] + rest;
      && (forall k :: 0 <= k < |ls| ==> '\n' !in ls[k] && '\r' !in ls[k])
      && ls[0] != [] && !IsWhitespace(ls[0][0])
      && var last := ls[|ls| - 1]; last != [] && !IsWhitespace(last[|last| - 1])
  {
    var ls := header + [row] + rest;
    assert ls[|ls| - 1] == if rest == [] then row else rest[|rest| - 1];
    assert ls[0] == if header == [] then row else header[0];
  }

  // ---------------------------------------------------------------------------
  // Output of a direct Python import (`print(tf.__version__)`)
  // ---------------------------------------------------------------------------

  const NotFoundNoise: string := "not found"
  const NoModuleNoise: string := "No module"
  const WarningNoise: string := "WARNING"

  predicate IsImportNoise(output: string)
  {
    Contains(output, NotFoundNoise) || Contains(output, NoModuleNoise) || Contains(output, WarningNoise)
  }

  /** The trimmed output of a framework import, rejected when it is blank or
      carries any of the three noise markers anywhere. */
  function ImportedVersion(output: string): (r: Option<string>)
    ensures r.Some? ==> r.value == Trim(output) && IsToken(r.value)
    ensures r.None? <==> Trim(output) == [] || IsImportNoise(output)
  {
    var out := Trim(output);
    ContainsTrimmed(output, NotFoundNoise);
    ContainsTrimmed(output, NoModuleNoise);
    ContainsTrimmed(output, WarningNoise);
    if out != [] && !IsImportNoise(out) then Some(out) else None
  }

  /** An accepted import token parses to itself. */
  lemma ImportedVersionStable(output: string)
    requires ImportedVersion(output).Some?
    ensures ImportedVersion(ImportedVersion(output).value) == ImportedVersion(output)
  {
    var v := Trim(output);
    TrimIdempotent(output);
    ContainsTrimmed(output, NotFoundNoise);
    ContainsTrimmed(output, NoModuleNoise);
    ContainsTrimmed(output, WarningNoise);
    assert !IsImportNoise(v);
  }

  // ---------------------------------------------------------------------------
  // Output of a Python build-info query (`print(torch.version.cuda)`)
  // ---------------------------------------------------------------------------

  const PythonNone: string := "None"

  /** The trimmed output of a build-info query, rejected when it is blank or is
      Python's `None` (the framework was built without the library). */
  function ReportedVersion(output: string): (r: Option<string>)
    ensures r.Some? ==> r.value == Trim(output) && IsToken(r.value) && r.value != PythonNone
    ensures r.None? <==> Trim(output) == [] || Trim(output) == PythonNone
  {
    var out := Trim(output);
    if out != [] && out != PythonNone then Some(out) else None
  }

  /** An accepted build-info token parses to itself. */
  lemma ReportedVersionStable(output: string)
    requires ReportedVersion(output).Some?
    ensures ReportedVersion(ReportedVersion(output).value) == ReportedVersion(output)
  {
    TrimIdempotent(output);
  }

  // ---------------------------------------------------------------------------
  // `nvcc --version` and `version.txt`
  // ---------------------------------------------------------------------------

  const ReleasePrefix: string := "release "
  const BuildPrefix: string := "V"
  const VersionFilePrefix: string := "CUDA Version "

  ghost predicate HasMatch(output: string, prefix: string, n: nat)
  {
    exists i: nat :: MatchesAt(output, prefix, n, i)
  }

  /** `release (\d+\.\d+)`: the leftmost "release X.Y" numeral. */
  function ReleaseVersion(output: string): (r: Option<string>)
    ensures r.None? <==> !HasMatch(output, ReleasePrefix, 2)
    ensures r.Some? ==> IsNumeral(r.value, 2)
    ensures r.Some? ==>
              exists i: nat :: IsLeftmostMatch(output, ReleasePrefix, 2, i) && IsLongestNumeralAt(output, i + |ReleasePrefix|, 2, r.value)
  {
    Capture(output, ReleasePrefix, 2)
  }

  /** `V(\d+\.\d+\.\d+)`: the leftmost "VX.Y.Z" numeral. */
  function BuildVersion(output: string): (r: Option<string>)
    ensures r.None? <==> !HasMatch(output, BuildPrefix, 3)
    ensures r.Some? ==> IsNumeral(r.value, 3)
    ensures r.Some? ==>
              exists i: nat :: IsLeftmostMatch(output, BuildPrefix, 3, i) && IsLongestNumeralAt(output, i + |BuildPrefix|, 3, r.value)
  {
    Capture(output, BuildPrefix, 3)
  }

  /** `CUDA Version (\d+\.\d+)` on the contents of `version.txt`. */
  function VersionFileVersion(output: string): (r: Option<string>)
    ensures r.None? <==> !HasMatch(output, VersionFilePrefix, 2)
    ensures r.Some? ==> IsNumeral(r.value, 2)
    ensures r.Some? ==>
              exists i: nat :: IsLeftmostMatch(output, VersionFilePrefix, 2, i) && IsLongestNumeralAt(output, i + |VersionFilePrefix|, 2, r.value)
  {
    Capture(output, VersionFilePrefix, 2)
  }

  /** The version an `nvcc --version` probe reports: the "release X.Y" pattern
      has priority, and the "VX.Y.Z" pattern is consulted only when the first
      matches nowhere in the output. */
  function NvccVersion(output: string): (r: Option<string>)
    ensures HasMatch(output, ReleasePrefix, 2) ==> r == ReleaseVersion(output) && IsNumeral(r.value, 2)
    ensures !HasMatch(output, ReleasePrefix, 2) ==> r == BuildVersion(output)
    ensures r.None? <==> !HasMatch(output, ReleasePrefix, 2) && !HasMatch(output, BuildPrefix, 3)
  {
    match ReleaseVersion(output)
    case Some(v) => Some(v)
    case None => BuildVersion(output)
  }

  /** A numeral is a normalized token. */
  lemma NumeralIsToken(v: string, n: nat)
    requires n >= 1 && IsNumeral(v, n)
    ensures IsToken(v)
  {
    var groups := Split(v, '.');
    assert groups[0] != [];
    assert v == Join(groups, '.');
    if |groups| == 1 {
      assert v == groups[0];
    } else {
      assert v[0] == groups[0][0];
    }
    assert IsDigit(v[0]);
    LastGroupEndsJoin(groups, '.');
    var last := groups[|groups| - 1];
    assert IsDigit(last[|last| - 1]);
  }

  // ---------------------------------------------------------------------------
  // `cudnn_version.h`
  // ---------------------------------------------------------------------------

  const MajorDirective: string := "#define CUDNN_MAJOR"
  const MinorDirective: string := "#define CUDNN_MINOR"
  const PatchDirective: string := "#define CUDNN_PATCHLEVEL"

  /** Some line mentions the directive. */
  ghost predicate Mentions(lines: seq<string>, directive: string)
  {
    exists i :: 0 <= i < |lines| && Contains(lines[i], directive)
  }

  /** The last whitespace-separated token of a line, or "" when it has none. */
  function LastToken(line: string): (v: string)
    ensures v != [] ==> NoWhitespace(v)
    ensures |SplitWhitespace(line)| > 0 ==> v == SplitWhitespace(line)[|SplitWhitespace(line)| - 1]
    ensures |SplitWhitespace(line)| == 0 ==> v == []
  {
    var parts := SplitWhitespace(line);
    if |parts| > 0 then parts[|parts| - 1] else []
  }

  /** A line of words separated by spaces, with any whitespace around it: its
      last word is the value, so `#define CUDNN_MAJOR 8` defines `8`. */
  lemma LastTokenOfWords(pre: string, words: seq<string>, post: string)
    requires AllWhitespace(pre) && AllWhitespace(post) && |words| > 0
    requires forall k :: 0 <= k < |words| ==> |words[k]| > 0 && NoWhitespace(words[k])
    ensures LastToken(pre + Join(words, ' ') + post) == words[|words| - 1]
  {
    SplitWhitespacePadded(pre, words, post);
  }

  /** The value a directive defines: the last token of the first line that
      mentions it, or "" when no line does. It is non-empty exactly when some
      line mentions a directive that starts with a non-whitespace character. */
  function DirectiveValue(lines: seq<string>, directive: string): (v: string)
    ensures forall i: nat :: IsFirst(lines, HasSubstring(directive), i) ==> v == LastToken(lines[i])
    ensures !Mentions(lines, directive) ==> v == []
    ensures |directive| > 0 && !IsWhitespace(directive[0]) ==> (v != [] <==> Mentions(lines, directive))
    ensures v != [] ==> NoWhitespace(v)
  {
    match FindFirst(lines, HasSubstring(directive))
    case None => []
    case Some(i) =>
      if |directive| > 0 && !IsWhitespace(directive[0]) then
        var k: nat :| OccursAt(lines[i], directive, k);
        assert lines[i][k] == lines[i][k..k + |directive|][0];
        SplitWhitespaceNonEmpty(lines[i], k);
        LastToken(lines[i])
      else LastToken(lines[i])
  }

  /** The cuDNN version a header declares, from its lines: present exactly when
      all three directives are mentioned, in any order, and then the three
      values joined with dots. */
  function HeaderVersion(lines: seq<string>): (r: Option<string>)
    ensures r.Some? <==> Mentions(lines, MajorDirective) && Mentions(lines, MinorDirective) && Mentions(lines, PatchDirective)
    ensures r.Some? ==> r.value == DirectiveValue(lines, MajorDirective) + "." + DirectiveValue(lines, MinorDirective)
                                   + "." + DirectiveValue(lines, PatchDirective)
    ensures r.Some? ==> IsToken(r.value)
  {
    var major := DirectiveValue(lines, MajorDirective);
    var minor := DirectiveValue(lines, MinorDirective);
    var patch := DirectiveValue(lines, PatchDirective);
    DirectivesStartNonBlank();
    if major != [] && minor != [] && patch != [] then
      DottedIsToken(major, minor, patch);
      Some(major + "." + minor + "." + patch)
    else
      None
  }

  /** The three directives start with a non-whitespace character. */
  lemma DirectivesStartNonBlank()
    ensures !IsWhitespace(MajorDirective[0]) && !IsWhitespace(MinorDirective[0]) && !IsWhitespace(PatchDirective[0])
  {
  }

  lemma DottedIsToken(major: string, minor: string, patch: string)
    requires major != [] && minor != [] && patch != []
    requires NoWhitespace(major) && NoWhitespace(patch)
    ensures IsToken(major + "." + minor + "." + patch)
  {
    var v := major + "." + minor + "." + patch;
    assert v[0] == major[0];
    assert v[|v| - 1] == patch[|patch| - 1];
  }

  /** `extract_cudnn_version_from_header` on the text of the header: a version
      exists exactly when all three directives occur in the text, and it is the
      last tokens of the first line mentioning each, joined by dots. */
  function CudnnHeaderVersion(content: string): (r: Option<string>)
    ensures r.Some? <==> Contains(content, MajorDirective) && Contains(content, MinorDirective) && Contains(content, PatchDirective)
    ensures forall i: nat, j: nat, k: nat ::
              && IsFirst(Lines(content), HasSubstring(MajorDirective), i)
              && IsFirst(Lines(content), HasSubstring(MinorDirective), j)
              && IsFirst(Lines(content), HasSubstring(PatchDirective), k)
              ==> var ls := Lines(content);
                  r == Some(LastToken(ls[i]) + "." + LastToken(ls[j]) + "." + LastToken(ls[k]))
    ensures r.Some? ==> IsToken(r.value)
  {
    HeaderMentions(content);
    HeaderValues(Lines(content));
    HeaderVersion(Lines(content))
  }

  /** The directives are mentioned by some line exactly when they occur in the text. */
  lemma HeaderMentions(content: string)
    ensures HeaderVersion(Lines(content)).Some? <==>
              Contains(content, MajorDirective) && Contains(content, MinorDirective) && Contains(content, PatchDirective)
  {
    DirectivesArePlain();
    var ls := Lines(content);
    LinesMention(content, MajorDirective);
    LinesMention(content, MinorDirective);
    LinesMention(content, PatchDirective);
    assert Mentions(ls, MajorDirective) <==> Contains(content, MajorDirective);
    assert Mentions(ls, MinorDirective) <==> Contains(content, MinorDirective);
    assert Mentions(ls, PatchDirective) <==> Contains(content, PatchDirective);
  }

  /** The directives hold no line ending, so each lies within one line. */
  lemma DirectivesArePlain()
    ensures |MajorDirective| > 0 && '\n' !in MajorDirective && MajorDirective[|MajorDirective| - 1] != '\r'
    ensures |MinorDirective| > 0 && '\n' !in MinorDirective && MinorDirective[|MinorDirective| - 1] != '\r'
    ensures |PatchDirective| > 0 && '\n' !in PatchDirective && PatchDirective[|PatchDirective| - 1] != '\r'
  {
  }

  /** The header version in terms of the first line mentioning each directive. */
  lemma HeaderValues(ls: seq<string>)
    ensures forall i: nat, j: nat, k: nat ::
              && IsFirst(ls, HasSubstring(MajorDirective), i)
              && IsFirst(ls, HasSubstring(MinorDirective), j)
              && IsFirst(ls, HasSubstring(PatchDirective), k)
              ==> HeaderVersion(ls) == Some(LastToken(ls[i]) + "." + LastToken(ls[j]) + "." + LastToken(ls[k]))
  {
    forall i: nat, j: nat, k: nat |
      && IsFirst(ls, HasSubstring(MajorDirective), i)
      && IsFirst(ls, HasSubstring(MinorDirective), j)
      && IsFirst(ls, HasSubstring(PatchDirective), k)
      ensures HeaderVersion(ls) == Some(LastToken(ls[i]) + "." + LastToken(ls[j]) + "." + LastToken(ls[k]))
    {
      assert Mentions(ls, MajorDirective) && Mentions(ls, MinorDirective) && Mentions(ls, PatchDirective);
    }
  }

  /** The first line passing a test, if any. */
  function FirstLine(lines: seq<string>, t: LineTest): Option<string>
  {
    match FindFirst(lines, t)
    case None => None
    case Some(i) => Some(lines[i])
  }

  /** Swapping two adjacent lines that do not both pass a test leaves the first
      passing line unchanged. */
  lemma FirstLineSwap(a: seq<string>, x: string, y: string, b: seq<string>, t: LineTest)
    requires !(Holds(t, x) && Holds(t, y))
    ensures FirstLine(a + [x, y] + b, t) == FirstLine(a + [y, x] + b, t)
  {
    var l1 := a + [x, y] + b;
    var l2 := a + [y, x] + b;
    var n := |a|;
    assert |l1| == |l2|;
    assert forall k :: 0 <= k < |l1| && k != n && k != n + 1 ==> l1[k] == l2[k];
    assert l1[n] == x && l1[n + 1] == y && l2[n] == y && l2[n + 1] == x;
    match FindFirst(l1, t)
    case None =>
      assert forall k :: 0 <= k < |l2| ==> !Holds(t, l2[k]);
    case Some(i) =>
      var j := if i < n then i else if i == n then (if Holds(t, x) then n + 1 else n) else if i == n + 1 then n else i;
      assert l2[j] == l1[i];
      assert IsFirst(l2, t, j);
      FirstUnique(l2, t, j, FindFirst(l2, t).value);
  }

  /** The value of a directive does not change when two adjacent lines that do
      not both mention it are swapped. */
  lemma DirectiveValueSwap(a: seq<string>, x: string, y: string, b: seq<string>, d: string)
    requires !(Contains(x, d) && Contains(y, d))
    ensures DirectiveValue(a + [x, y] + b, d) == DirectiveValue(a + [y, x] + b, d)
  {
    FirstLineSwap(a, x, y, b, HasSubstring(d));
  }

  /** The relative order of the header's lines does not matter: swapping two
      adjacent lines that never mention the same directive gives the same version. */
  lemma HeaderVersionSwap(a: seq<string>, x: string, y: string, b: seq<string>)
    requires !(Contains(x, MajorDirective) && Contains(y, MajorDirective))
    requires !(Contains(x, MinorDirective) && Contains(y, MinorDirective))
    requires !(Contains(x, PatchDirective) && Contains(y, PatchDirective))
    ensures HeaderVersion(a + [x, y] + b) == HeaderVersion(a + [y, x] + b)
  {
    DirectiveValueSwap(a, x, y, b, MajorDirective);
    DirectiveValueSwap(a, x, y, b, MinorDirective);
    DirectiveValueSwap(a, x, y, b, PatchDirective);
  }
}

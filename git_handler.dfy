/**
 * The diff extractor: which pathspecs restrict `git diff`, the argument
 * lists of the two entry points, and how raw unified-diff text is cut into
 * one `DiffInfo` per file.  Running git is a parameter: a function from the
 * argument list to the captured standard output or the failure.
 */
module GitHandler {
  import opened PyStr
  import opened Models

  const DiffHeader: string := "diff --git a/"
  /** What the raw text is split on: a header at the start of a line. */
  const SegmentDelimiter: string := "\ndiff --git a/"
  const OldPathPrefix: string := "--- a/"
  const NewPathPrefix: string := "+++ b/"
  const NullDevice: string := "/dev/null"

  const PythonFilesGlob: string := "**/*.py"
  const ExcludeTestsGlob: string := "**/test_*.py"
  const ExcludeMagic: string := ":(exclude)"

  /** Why running git produced no output: the executable is missing, or it
      exited with a non-zero status. */
  datatype GitError = GitNotFound | CommandFailed(returncode: int, stderr: string)

  // ---------------------------------------------------------------------
  // Pathspecs and the git argument lists
  // ---------------------------------------------------------------------

  /** Both pathspecs of the no-target case: every Python file, no test file. */
  const GlobalPathspecs: seq<string> := [PythonFilesGlob, ExcludeMagic + ExcludeTestsGlob]

  /** The pathspecs that restrict the diff to `target` (the specification of
      `EffectivePathspecs`).  A missing or empty target, or one that is blank
      once trailing slashes are removed, means the whole repository. */
  function Pathspecs(target: Option<string>): seq<string> {
    if target.None? || target.value == "" then GlobalPathspecs
    else
      var clean := RStripChar(target.value, '/');
      if EndsWith(clean, ".py") then [clean, ExcludeMagic + ExcludeTestsGlob]
      else if Strip(clean) == "" then GlobalPathspecs
      else
        var dir := clean + "/";
        [dir + PythonFilesGlob, ExcludeMagic + dir + ExcludeTestsGlob]
  }

  /** The globs end as their names say. */
  lemma GlobSuffixes()
    ensures EndsWith(PythonFilesGlob, ".py")
    ensures EndsWith(ExcludeTestsGlob, "/test_*.py")
  {
  }

  /** Whatever the target, there are two pathspecs: one that selects
      Python files, then one that excludes `test_*.py` files. */
  lemma PathspecsShape(target: Option<string>)
    ensures |Pathspecs(target)| == 2
    ensures EndsWith(Pathspecs(target)[0], ".py")
    ensures StartsWith(Pathspecs(target)[1], ExcludeMagic)
    ensures EndsWith(Pathspecs(target)[1], "/test_*.py")
  {
    GlobSuffixes();
    var r := Pathspecs(target);
    if target.Some? && target.value != "" {
      var clean := RStripChar(target.value, '/');
      if !EndsWith(clean, ".py") && Strip(clean) != "" {
        var dir := clean + "/";
        EndsWithAppend(dir, PythonFilesGlob, ".py");
        EndsWithAppend(ExcludeMagic + dir, ExcludeTestsGlob, "/test_*.py");
        assert ExcludeMagic + dir + ExcludeTestsGlob == ExcludeMagic + (dir + ExcludeTestsGlob);
        StartsWithConcat(ExcludeMagic, dir + ExcludeTestsGlob);
        return;
      }
    }
    assert r[1] == ExcludeMagic + ExcludeTestsGlob;
    EndsWithAppend(ExcludeMagic, ExcludeTestsGlob, "/test_*.py");
    StartsWithConcat(ExcludeMagic, ExcludeTestsGlob);
  }

  /** No target, an empty one, or one that is blank once its trailing
      slashes are removed (such as "/"): every Python file of the
      repository except the test files. */
  lemma GlobalPathspecsWithoutTarget(target: Option<string>)
    requires target.None? || IsBlank(RStripChar(target.value, '/'))
    ensures Pathspecs(target) == [PythonFilesGlob, ExcludeMagic + ExcludeTestsGlob]
  {
    if target.Some? && target.value != "" {
      var clean := RStripChar(target.value, '/');
      StripShape(clean);
      assert clean == [] || IsSpace(clean[|clean| - 1]);
    }
  }

  /** A target naming a Python file is used as it stands (trailing slashes
      removed), with the test-file exclusion of the whole repository. */
  lemma FilePathspecs(target: string)
    requires target != "" && EndsWith(RStripChar(target, '/'), ".py")
    ensures Pathspecs(Some(target)) == [RStripChar(target, '/'), ExcludeMagic + ExcludeTestsGlob]
  {
  }

  /** Any other non-blank target is a directory: Python files below it,
      minus the test files below it. */
  lemma DirectoryPathspecs(target: string)
    requires !EndsWith(RStripChar(target, '/'), ".py") && !IsBlank(RStripChar(target, '/'))
    ensures var dir := RStripChar(target, '/') + "/";
      Pathspecs(Some(target)) == [dir + "**/*.py", ":(exclude)" + dir + "**/test_*.py"]
  {
    StripShape(RStripChar(target, '/'));
    assert target != "";
  }

  /** Trailing slashes on the target make no difference. */
  lemma TrailingSlashIgnored(target: string)
    ensures Pathspecs(Some(target + "/")) == Pathspecs(Some(target))
  {
  }

  /** Builds the pathspec list by appending to it branch by branch. */
  method EffectivePathspecs(target: Option<string>) returns (pathspecs: seq<string>)
    ensures pathspecs == Pathspecs(target)
  {
    pathspecs := [];
    var pythonFilesGlob := PythonFilesGlob;
    var excludeTestsGlob := ExcludeTestsGlob;
    if target.Some? && target.value != "" {
      var cleanTarget := RStripChar(target.value, '/');
      if EndsWith(cleanTarget, ".py") {
        pathspecs := pathspecs + [cleanTarget];
        pathspecs := pathspecs + [ExcludeMagic + excludeTestsGlob];
      } else {
        if Strip(cleanTarget) == "" {
          pathspecs := pathspecs + [pythonFilesGlob];
          pathspecs := pathspecs + [ExcludeMagic + excludeTestsGlob];
        } else {
          pathspecs := pathspecs + [cleanTarget + "/" + pythonFilesGlob];
          pathspecs := pathspecs + [ExcludeMagic + cleanTarget + "/" + excludeTestsGlob];
          assert ExcludeMagic + cleanTarget + "/" == ExcludeMagic + (cleanTarget + "/");
        }
      }
    } else {
      pathspecs := pathspecs + [pythonFilesGlob];
      pathspecs := pathspecs + [ExcludeMagic + excludeTestsGlob];
    }
  }

  /** The argument list `get_current_changes` hands to git. */
  function CurrentChangesArgs(target: Option<string>): seq<string> {
    ["git", "diff", "--unified=3", "HEAD"] + ["--"] + Pathspecs(target)
  }

  /** The argument list `get_diff_between_commits` hands to git. */
  function CommitRangeArgs(commitA: string, commitB: string, target: Option<string>): seq<string> {
    ["git", "diff", "--unified=3", commitA, commitB] + ["--"] + Pathspecs(target)
  }

  /** What a call of git becomes: its standard output parsed, or its error
      passed on unchanged. */
  function ParseGitOutput(output: Result<string, GitError>): Result<seq<DiffInfo>, GitError> {
    match output
    case Ok(raw) => Ok(ParseDiff(raw))
    case Err(e) => Err(e)
  }

  /** Uncommitted changes (HEAD against the working tree and index). */
  method GetCurrentChanges(target: Option<string>, runGit: seq<string> -> Result<string, GitError>)
    returns (r: Result<seq<DiffInfo>, GitError>)
    ensures r == ParseGitOutput(runGit(CurrentChangesArgs(target)))
    ensures r.Ok? ==> forall d :: d in r.value ==> WellFormed(d)
  {
    var gitCommand := ["git", "diff", "--unified=3", "HEAD"];
    var effectivePathspecs := EffectivePathspecs(target);
    if effectivePathspecs != [] {
      gitCommand := gitCommand + (["--"] + effectivePathspecs);
    }
    assert gitCommand == CurrentChangesArgs(target);
    var output := runGit(gitCommand);
    match output {
      case Ok(rawDiff) =>
        var diffs := ParseDiffOutput(rawDiff);
        ParseDiffWellFormed(rawDiff);
        r := Ok(diffs);
      case Err(e) =>
        r := Err(e);
    }
  }

  /** The changes between two commits. */
  method GetDiffBetweenCommits(commitA: string, commitB: string, target: Option<string>,
                               runGit: seq<string> -> Result<string, GitError>)
    returns (r: Result<seq<DiffInfo>, GitError>)
    ensures r == ParseGitOutput(runGit(CommitRangeArgs(commitA, commitB, target)))
    ensures r.Ok? ==> forall d :: d in r.value ==> WellFormed(d)
  {
    var gitCommand := ["git", "diff", "--unified=3", commitA, commitB];
    var effectivePathspecs := EffectivePathspecs(target);
    if effectivePathspecs != [] {
      gitCommand := gitCommand + (["--"] + effectivePathspecs);
    }
    assert gitCommand == CommitRangeArgs(commitA, commitB, target);
    var output := runGit(gitCommand);
    match output {
      case Ok(rawDiff) =>
        var diffs := ParseDiffOutput(rawDiff);
        ParseDiffWellFormed(rawDiff);
        r := Ok(diffs);
      case Err(e) =>
        r := Err(e);
    }
  }

  // ---------------------------------------------------------------------
  // Header scan of one file's segment
  // ---------------------------------------------------------------------

  /** Some line of `lines` starts with `prefix`. */
  predicate HasHeader(lines: seq<string>, prefix: string) {
    exists j | 0 <= j < |lines| :: StartsWith(lines[j], prefix)
  }

  /** The trimmed path after `prefix` on the last line of `lines` that
      starts with `prefix`. */
  function LastHeader(lines: seq<string>, prefix: string): Option<string>
    decreases |lines|
  {
    if lines == [] then None
    else
      var last := lines[|lines| - 1];
      if StartsWith(last, prefix) then Some(Strip(last[|prefix|..]))
      else LastHeader(lines[..|lines| - 1], prefix)
  }

  /** The scan has seen both an old-path and a new-path header in `lines`. */
  predicate BothSeen(lines: seq<string>) {
    LastHeader(lines, OldPathPrefix).Some? && LastHeader(lines, NewPathPrefix).Some?
  }

  /** The least `e >= k` at which the first `e` lines hold both headers, or
      all of the lines when no prefix does. */
  function ScanEndFrom(lines: seq<string>, k: nat): (e: nat)
    requires k <= |lines|
    ensures k <= e <= |lines|
    ensures e < |lines| ==> BothSeen(lines[..e])
    decreases |lines| - k
  {
    if k == |lines| || BothSeen(lines[..k]) then k else ScanEndFrom(lines, k + 1)
  }

  /** The (old, new) header paths the scan reports: the last of each kind
      among the lines read before both kinds have been seen. */
  function Headers(lines: seq<string>): (Option<string>, Option<string>) {
    var e := ScanEndFrom(lines, 0);
    (LastHeader(lines[..e], OldPathPrefix), LastHeader(lines[..e], NewPathPrefix))
  }

  /** Reading line `i` moves both "last header" values forward, as the
      body of the scan loop does. */
  lemma ScanLine(lines: seq<string>, i: nat, pathA: Option<string>, pathB: Option<string>)
    requires i < |lines|
    requires pathA == LastHeader(lines[..i], OldPathPrefix)
    requires pathB == LastHeader(lines[..i], NewPathPrefix)
    ensures LastHeader(lines[..i + 1], OldPathPrefix)
         == if StartsWith(lines[i], OldPathPrefix) then Some(Strip(lines[i][|OldPathPrefix|..])) else pathA
    ensures LastHeader(lines[..i + 1], NewPathPrefix)
         == if !StartsWith(lines[i], OldPathPrefix) && StartsWith(lines[i], NewPathPrefix)
            then Some(Strip(lines[i][|NewPathPrefix|..])) else pathB
  {
    assert lines[..i + 1][..i] == lines[..i];
    assert lines[..i + 1][i] == lines[i];
  }

  /** Scans the lines of a segment for `--- a/` and `+++ b/` headers, each
      later line overwriting the earlier value, and stops as soon as both
      have been found. */
  method ScanHeaders(lines: seq<string>) returns (pathA: Option<string>, pathB: Option<string>)
    ensures (pathA, pathB) == Headers(lines)
  {
    pathA, pathB := None, None;
    ghost var stop := ScanEndFrom(lines, 0);
    var i := 0;
    assert lines[..0] == [];
    while i < |lines|
      invariant 0 <= i <= |lines|
      invariant pathA == LastHeader(lines[..i], OldPathPrefix)
      invariant pathB == LastHeader(lines[..i], NewPathPrefix)
      invariant !BothSeen(lines[..i])
      invariant ScanEndFrom(lines, i) == stop
    {
      var lineContent := lines[i];
      ScanLine(lines, i, pathA, pathB);
      assert ScanEndFrom(lines, i) == ScanEndFrom(lines, i + 1);
      if StartsWith(lineContent, OldPathPrefix) {
        pathA := Some(Strip(lineContent[|OldPathPrefix|..]));
      } else if StartsWith(lineContent, NewPathPrefix) {
        pathB := Some(Strip(lineContent[|NewPathPrefix|..]));
      }
      i := i + 1;
      if pathA.Some? && pathB.Some? {
        assert ScanEndFrom(lines, i) == i;
        break;
      }
    }
    assert lines[..|lines|] == lines;
  }

  /** A header path the record can be named by. */
  predicate Usable(path: Option<string>) {
    path.Some? && path.value != "" && path.value != NullDevice
  }

  /** The record's path: the post-image path when usable, else the
      pre-image path when usable, else none. */
  function EffectivePath(pathA: Option<string>, pathB: Option<string>): (r: Option<string>)
    ensures r.None? || Usable(r)
    ensures r.None? <==> !Usable(pathA) && !Usable(pathB)
    ensures Usable(pathB) ==> r == pathB
    ensures !Usable(pathB) && Usable(pathA) ==> r == pathA
  {
    if Usable(pathB) then pathB
    else if Usable(pathA) then pathA
    else None
  }

  // ---------------------------------------------------------------------
  // Segmentation and parsing
  // ---------------------------------------------------------------------

  /** What every record the parser builds satisfies. */
  predicate WellFormed(d: DiffInfo) {
    d.file_path != "" && d.file_path != NullDevice && StartsWith(d.diff_content, DiffHeader)
  }

  /** The per-file segments of a non-blank raw diff: the stripped text,
      with a newline in front, split on the delimiter; the first piece (what
      precedes the first header) is dropped. */
  function Segments(raw: string): seq<string> {
    Split("\n" + Strip(raw), SegmentDelimiter)[1..]
  }

  /** The record one segment yields, if any. */
  function ParseSegment(segment: string): Option<DiffInfo> {
    var body := Strip(segment);
    var lines := SplitLines(body);
    if lines == [] then None
    else
      var (pathA, pathB) := Headers(lines);
      match EffectivePath(pathA, pathB)
      case None => None
      case Some(path) => Some(DiffInfo(path, DiffHeader + body))
  }

  /** The record a segment yields, as a sequence of zero or one records. */
  function SegmentRecords(segment: string): seq<DiffInfo> {
    match ParseSegment(segment)
    case None => []
    case Some(d) => [d]
  }

  /** The records of a sequence of segments, in segment order: what
      `parse` yields for each segment, concatenated.  The parser uses it
      with `SegmentRecords`. */
  function Collect(segments: seq<string>, parse: string -> seq<DiffInfo>): seq<DiffInfo>
    decreases |segments|
  {
    if segments == [] then []
    else Collect(segments[..|segments| - 1], parse) + parse(segments[|segments| - 1])
  }

  /** Collecting one more segment appends that segment's records. */
  lemma CollectStep(segments: seq<string>, i: nat, parse: string -> seq<DiffInfo>)
    requires i < |segments|
    ensures Collect(segments[..i + 1], parse) == Collect(segments[..i], parse) + parse(segments[i])
  {
    assert segments[..i + 1][..i] == segments[..i];
  }

  /** The records of one segment, in terms of what the loop body of
      `ParseDiffOutput` computes from it. */
  lemma SegmentRecordsByScan(segment: string, lines: seq<string>, pathA: Option<string>, pathB: Option<string>)
    requires lines == SplitLines(Strip(segment))
    requires lines != [] ==> (pathA, pathB) == Headers(lines)
    ensures lines == [] ==> SegmentRecords(segment) == []
    ensures lines != [] ==>
      SegmentRecords(segment) == (match EffectivePath(pathA, pathB)
        case None => []
        case Some(path) => [DiffInfo(path, DiffHeader + Strip(segment))])
  {
  }

  /** What `_parse_diff_output` returns for `raw` (the specification of
      `ParseDiffOutput`). */
  function ParseDiff(raw: string): seq<DiffInfo> {
    if Strip(raw) == [] then [] else Collect(Segments(raw), SegmentRecords)
  }

  /** Cuts raw `git diff` output into one record per file with a usable path. */
  method ParseDiffOutput(rawDiffOutput: string) returns (diffsInfo: seq<DiffInfo>)
    ensures diffsInfo == ParseDiff(rawDiffOutput)
  {
    diffsInfo := [];
    if Strip(rawDiffOutput) == [] {
      return;
    }
    var individualFileDiffs := Split("\n" + Strip(rawDiffOutput), SegmentDelimiter)[1..];
    for i := 0 to |individualFileDiffs|
      invariant diffsInfo == Collect(individualFileDiffs[..i], SegmentRecords)
    {
      var fileDiffSection := individualFileDiffs[i];
      CollectStep(individualFileDiffs, i, SegmentRecords);
      var lines := SplitLines(Strip(fileDiffSection));
      if lines == [] {
        SegmentRecordsByScan(fileDiffSection, lines, None, None);
        continue;
      }
      var fullDiffContent := DiffHeader + Strip(fileDiffSection);
      var filePathA, filePathB := ScanHeaders(lines);
      SegmentRecordsByScan(fileDiffSection, lines, filePathA, filePathB);
      var effectivePath: Option<string> := None;
      if filePathB.Some? && filePathB.value != "" && filePathB.value != NullDevice {
        effectivePath := filePathB;
      } else if filePathA.Some? && filePathA.value != "" && filePathA.value != NullDevice {
        effectivePath := filePathA;
      }
      assert effectivePath == EffectivePath(filePathA, filePathB);
      if effectivePath.Some? && effectivePath.value != "" {
        diffsInfo := diffsInfo + [DiffInfo(effectivePath.value, fullDiffContent)];
      }
    }
    assert individualFileDiffs[..|individualFileDiffs|] == individualFileDiffs;
  }

  // ---------------------------------------------------------------------
  // Properties
  // ---------------------------------------------------------------------

  /** A header value is found exactly when some line carries the prefix. */
  lemma {:induction false} LastHeaderFound(lines: seq<string>, prefix: string)
    ensures LastHeader(lines, prefix).Some? <==> HasHeader(lines, prefix)
    decreases |lines|
  {
    if lines != [] {
      var n := |lines| - 1;
      var front := lines[..n];
      if !StartsWith(lines[n], prefix) {
        LastHeaderFound(front, prefix);
        if HasHeader(lines, prefix) {
          var j :| 0 <= j < |lines| && StartsWith(lines[j], prefix);
          assert front[j] == lines[j];
        }
        if HasHeader(front, prefix) {
          var j :| 0 <= j < n && StartsWith(front[j], prefix);
          assert StartsWith(lines[j], prefix);
        }
      } else {
        assert StartsWith(lines[n], prefix);
      }
    }
  }

  /** The value found is the path of the last line carrying the prefix;
      earlier header lines are overwritten. */
  lemma {:induction false} LastHeaderIsLast(lines: seq<string>, prefix: string, j: nat)
    requires j < |lines| && StartsWith(lines[j], prefix)
    requires forall k | j < k < |lines| :: !StartsWith(lines[k], prefix)
    ensures LastHeader(lines, prefix) == Some(Strip(lines[j][|prefix|..]))
    decreases |lines|
  {
    var n := |lines| - 1;
    if j < n {
      var front := lines[..n];
      assert LastHeader(lines, prefix) == LastHeader(front, prefix) by {
        assert !StartsWith(lines[n], prefix);
      }
      assert forall k | j <= k < n :: front[k] == lines[k];
      LastHeaderIsLast(front, prefix, j);
    }
  }

  /** Lines after the point where both headers have been seen change
      nothing: the scan has already stopped. */
  lemma StopsOnceBothSeen(lines: seq<string>, more: seq<string>)
    requires BothSeen(lines)
    ensures Headers(lines + more) == Headers(lines)
  {
    ScanEndPrefix(lines, more, 0);
    var e := ScanEndFrom(lines, 0);
    assert (lines + more)[..e] == lines[..e];
  }

  /** Helper of StopsOnceBothSeen: the stop point is the same with or
      without the extra lines. */
  lemma {:induction false} ScanEndPrefix(lines: seq<string>, more: seq<string>, k: nat)
    requires BothSeen(lines) && k <= |lines|
    ensures ScanEndFrom(lines + more, k) == ScanEndFrom(lines, k)
    decreases |lines| - k
  {
    assert (lines + more)[..k] == lines[..k];
    if k == |lines| {
      assert lines[..k] == lines;
    } else if !BothSeen(lines[..k]) {
      ScanEndPrefix(lines, more, k + 1);
    }
  }

  /** When one kind of header is missing from the segment (an added or a
      deleted file, whose `/dev/null` header line carries no `a/` or `b/`
      prefix), the scan never stops early: each path is the last header of
      its kind anywhere in the segment, hunk lines included. */
  lemma UnpairedHeadersScanAll(lines: seq<string>)
    requires !HasHeader(lines, OldPathPrefix) || !HasHeader(lines, NewPathPrefix)
    ensures Headers(lines) == (LastHeader(lines, OldPathPrefix), LastHeader(lines, NewPathPrefix))
    ensures !HasHeader(lines, OldPathPrefix) ==> Headers(lines).0.None?
    ensures !HasHeader(lines, NewPathPrefix) ==> Headers(lines).1.None?
  {
    ScanEndNeverStops(lines, 0);
    assert lines[..|lines|] == lines;
    LastHeaderFound(lines, OldPathPrefix);
    LastHeaderFound(lines, NewPathPrefix);
  }

  /** Helper of UnpairedHeadersScanAll. */
  lemma {:induction false} ScanEndNeverStops(lines: seq<string>, k: nat)
    requires !HasHeader(lines, OldPathPrefix) || !HasHeader(lines, NewPathPrefix)
    requires k <= |lines|
    ensures ScanEndFrom(lines, k) == |lines|
    decreases |lines| - k
  {
    if k < |lines| {
      assert forall j | 0 <= j < k :: lines[..k][j] == lines[j];
      if !HasHeader(lines, NewPathPrefix) {
        LastHeaderFound(lines[..k], NewPathPrefix);
      } else {
        LastHeaderFound(lines[..k], OldPathPrefix);
      }
      ScanEndNeverStops(lines, k + 1);
    }
  }

  /** The stop point does not move across lines where both kinds have not
      been seen yet. */
  lemma {:induction false} ScanEndSkips(lines: seq<string>, k: nat, e: nat)
    requires k <= e <= |lines|
    requires forall m | k <= m < e :: !BothSeen(lines[..m])
    ensures ScanEndFrom(lines, k) == ScanEndFrom(lines, e)
    decreases e - k
  {
    if k < e {
      ScanEndSkips(lines, k + 1, e);
    }
  }

  /** The usual header of a modified or renamed file: one `--- a/` line,
      then the first `+++ b/` line.  The scan stops there and reports both
      paths, whatever follows. */
  lemma RegularHeaders(lines: seq<string>, i: nat, j: nat)
    requires i < j < |lines|
    requires StartsWith(lines[i], OldPathPrefix) && StartsWith(lines[j], NewPathPrefix)
    requires forall k | 0 <= k < j && k != i :: !StartsWith(lines[k], OldPathPrefix)
    requires forall k | 0 <= k < j :: !StartsWith(lines[k], NewPathPrefix)
    ensures Headers(lines) == (Some(Strip(lines[i][|OldPathPrefix|..])), Some(Strip(lines[j][|NewPathPrefix|..])))
  {
    forall m | 0 <= m < j + 1
      ensures !BothSeen(lines[..m])
    {
      LastHeaderFound(lines[..m], NewPathPrefix);
      assert forall k | 0 <= k < m :: lines[..m][k] == lines[k];
    }
    ScanEndSkips(lines, 0, j);
    var front := lines[..j + 1];
    assert forall k | 0 <= k < j + 1 :: front[k] == lines[k];
    LastHeaderIsLast(front, OldPathPrefix, i);
    LastHeaderIsLast(front, NewPathPrefix, j);
  }

  /** Collecting is a homomorphism over concatenation: records keep the
      order of their segments, and none is dropped, merged or reordered. */
  lemma {:induction false} CollectAppend(a: seq<string>, b: seq<string>, parse: string -> seq<DiffInfo>)
    ensures Collect(a + b, parse) == Collect(a, parse) + Collect(b, parse)
    decreases |b|
  {
    if b == [] {
      assert a + b == a;
    } else {
      var n := |b| - 1;
      assert (a + b)[..|a + b| - 1] == a + b[..n];
      assert (a + b)[|a + b| - 1] == b[n];
      CollectAppend(a, b[..n], parse);
      assert b[..n + 1] == b;
      CollectStep(b, n, parse);
    }
  }

  /** Every record the parser builds is well formed: it is named by a
      usable path and its content starts with the `diff --git a/` header. */
  lemma ParseSegmentWellFormed(segment: string)
    ensures ParseSegment(segment).Some? ==>
      && WellFormed(ParseSegment(segment).value)
      && ParseSegment(segment).value.diff_content == DiffHeader + Strip(segment)
  {
  }

  /** Collecting the segments' records yields well-formed records only,
      at most one per segment. */
  lemma {:induction false} CollectWellFormed(segments: seq<string>)
    ensures |Collect(segments, SegmentRecords)| <= |segments|
    ensures forall d | d in Collect(segments, SegmentRecords) :: WellFormed(d)
    decreases |segments|
  {
    if segments != [] {
      var n := |segments| - 1;
      CollectWellFormed(segments[..n]);
      ParseSegmentWellFormed(segments[n]);
    }
  }

  /** What the parser returns for any raw text is well formed. */
  lemma ParseDiffWellFormed(raw: string)
    ensures forall d | d in ParseDiff(raw) :: WellFormed(d)
    ensures Strip(raw) != [] ==> |ParseDiff(raw)| <= |Segments(raw)|
  {
    if Strip(raw) != [] {
      CollectWellFormed(Segments(raw));
    }
  }

  /** Raw output that is empty or whitespace only has no records. */
  lemma BlankDiffHasNoRecords(raw: string)
    requires IsBlank(raw)
    ensures ParseDiff(raw) == []
  {
    StripShape(raw);
  }

  /** Without a `diff --git a/` header at the start of a line there is no
      segment, hence no record, whatever the text says. */
  lemma HeaderlessDiffHasNoRecords(raw: string)
    requires !Contains("\n" + Strip(raw), SegmentDelimiter)
    ensures Segments(raw) == [] && ParseDiff(raw) == []
  {
  }

  /** Segmentation loses nothing: a header-free preamble, then the
      segments, joined with the delimiter, give back the stripped input
      with the newline put in front; and no segment holds a further
      header, so each is one file's part of the diff. */
  lemma SegmentsCoverInput(raw: string)
    ensures exists preamble ::
      && !Contains(preamble, SegmentDelimiter)
      && Join([preamble] + Segments(raw), SegmentDelimiter) == "\n" + Strip(raw)
    ensures forall k | 0 <= k < |Segments(raw)| :: !Contains(Segments(raw)[k], SegmentDelimiter)
  {
    var text := "\n" + Strip(raw);
    var pieces := Split(text, SegmentDelimiter);
    SplitJoin(text, SegmentDelimiter);
    SplitPiecesFree(text, SegmentDelimiter);
    assert pieces == [pieces[0]] + Segments(raw);
    assert !Contains(pieces[0], SegmentDelimiter);
    assert forall k | 0 <= k < |Segments(raw)| :: Segments(raw)[k] == pieces[k + 1];
  }

  /** A segment with the usual header names its record by the `+++ b/`
      path, and the record holds the whole stripped segment behind the
      `diff --git a/` header. */
  lemma RegularSegmentRecord(segment: string, i: nat, j: nat)
    requires var lines := SplitLines(Strip(segment));
      && i < j < |lines|
      && StartsWith(lines[i], OldPathPrefix) && StartsWith(lines[j], NewPathPrefix)
      && (forall k | 0 <= k < j && k != i :: !StartsWith(lines[k], OldPathPrefix))
      && (forall k | 0 <= k < j :: !StartsWith(lines[k], NewPathPrefix))
      && Usable(Some(Strip(lines[j][|NewPathPrefix|..])))
    ensures var lines := SplitLines(Strip(segment));
      ParseSegment(segment) == Some(DiffInfo(Strip(lines[j][|NewPathPrefix|..]), DiffHeader + Strip(segment)))
  {
    RegularHeaders(SplitLines(Strip(segment)), i, j);
  }

  /** With no target, the two entry points pass git exactly these
      arguments. */
  lemma DefaultArguments(commitA: string, commitB: string)
    ensures CurrentChangesArgs(None)
         == ["git", "diff", "--unified=3", "HEAD", "--", "**/*.py", ":(exclude)**/test_*.py"]
    ensures CommitRangeArgs(commitA, commitB, None)
         == ["git", "diff", "--unified=3", commitA, commitB, "--", "**/*.py", ":(exclude)**/test_*.py"]
  {
    GlobalPathspecsWithoutTarget(None);
    assert ExcludeMagic + ExcludeTestsGlob == ":(exclude)**/test_*.py";
    var specs := ["**/*.py", ":(exclude)**/test_*.py"];
    assert Pathspecs(None) == specs;
    assert ["git", "diff", "--unified=3", "HEAD"] + ["--"] + specs
        == ["git", "diff", "--unified=3", "HEAD", "--", "**/*.py", ":(exclude)**/test_*.py"];
    assert ["git", "diff", "--unified=3", commitA, commitB] + ["--"] + specs
        == ["git", "diff", "--unified=3", commitA, commitB, "--", "**/*.py", ":(exclude)**/test_*.py"];
  }

  /** A line whose `i`-th character differs from the prefix's does not
      start with it. */
  lemma DiffersAt(line: string, prefix: string, i: nat)
    requires i < |prefix| && i < |line| && line[i] != prefix[i]
    ensures !StartsWith(line, prefix)
  {
  }

  /** Stripping text that starts with the header only trims its end. */
  lemma StripAfterHeader(segment: string)
    ensures Strip(DiffHeader + segment) == DiffHeader + RStrip(segment)
  {
    var r := RStrip(segment);
    RStripShape(segment);
    var t := segment[|r|..];
    assert segment == r + t;
    var front := DiffHeader + r;
    assert front[0] == 'd';
    assert !IsSpace(front[|front| - 1]);
    assert DiffHeader + segment == front + t;
    StripBlankTail(front, t);
  }

  /** Text that starts with the delimiter and holds no other occurrence
      of it splits into an empty preamble and the rest. */
  lemma SplitAfterDelimiter(rest: string)
    requires !Contains(rest, SegmentDelimiter)
    ensures Split(SegmentDelimiter + rest, SegmentDelimiter) == ["", rest]
  {
    var text := SegmentDelimiter + rest;
    assert text[..|SegmentDelimiter|] == SegmentDelimiter;
    assert FindFrom(text, SegmentDelimiter, 0) == Some(0);
    assert text[|SegmentDelimiter|..] == rest;
    SplitAbsent(rest, SegmentDelimiter);
  }

  /** A diff of one file: the header, then a segment holding no further
      header.  Its records are those of the segment. */
  lemma SingleFileDiff(segment: string)
    requires !Contains(segment, SegmentDelimiter)
    ensures ParseDiff(DiffHeader + segment) == SegmentRecords(segment)
  {
    var raw := DiffHeader + segment;
    var r := RStrip(segment);
    RStripShape(segment);
    StripAfterHeader(segment);
    assert !Contains(r, SegmentDelimiter) by {
      if Contains(r, SegmentDelimiter) {
        assert segment[0..|r|] == r;
        ContainsSlice(segment, 0, |r|, SegmentDelimiter);
      }
    }
    assert "\n" + Strip(raw) == SegmentDelimiter + r;
    SplitAfterDelimiter(r);
    assert Segments(raw) == [r];
    assert Collect([r], SegmentRecords) == Collect([], SegmentRecords) + SegmentRecords(r);
    StripRStrip(segment);
  }

  /** A one-file diff written as boundary-free lines, then blank text:
      its record is the one the header scan of exactly those lines names,
      holding the lines behind the `diff --git a/` header. */
  lemma OneFileLines(lines: seq<string>, tail: string, raw: string)
    requires |lines| >= 1 && forall k | 0 <= k < |lines| :: LineFree(lines[k])
    requires lines[0] != "" && !IsSpace(lines[0][0])
    requires var last := lines[|lines| - 1]; last != "" && !IsSpace(last[|last| - 1])
    requires IsBlank(tail) && !Contains(Join(lines, "\n") + tail, SegmentDelimiter)
    requires raw == DiffHeader + (Join(lines, "\n") + tail)
    ensures ParseDiff(raw) == match EffectivePath(Headers(lines).0, Headers(lines).1)
      case None => []
      case Some(path) => [DiffInfo(path, DiffHeader + Join(lines, "\n"))]
  {
    var text := Join(lines, "\n");
    JoinEnds(lines, "\n");
    var last := lines[|lines| - 1];
    assert text[0] == lines[0][0];
    assert text[|text| - 1] == last[|last| - 1];
    StripBlankTail(text, tail);
    SplitLinesJoin(lines);
    SingleFileDiff(text + tail);
  }

  /** An occurrence after the header is an occurrence in the record. */
  lemma ContainsAfterHeader(text: string, x: string)
    requires Contains(text, x)
    ensures Contains(DiffHeader + text, x)
  {
    var s := DiffHeader + text;
    assert s[|DiffHeader|..|s|] == text;
    ContainsSlice(s, |DiffHeader|, |s|, x);
  }

  /** The header scan of a modified file's lines: it stops at the
      `+++ b/` line, and both headers name the file. */
  lemma ModifiedFileHeaders(path: string, hunk: seq<string>, lines: seq<string>)
    requires path != "" && !IsSpace(path[0]) && !IsSpace(path[|path| - 1]) && path[0] != '-' && path[0] != '+'
    requires lines == [path + " b/" + path, OldPathPrefix + path, NewPathPrefix + path] + hunk
    ensures Headers(lines) == (Some(path), Some(path))
  {
    assert lines[0][0] == path[0];
    DiffersAt(lines[0], OldPathPrefix, 0);
    DiffersAt(lines[0], NewPathPrefix, 0);
    DiffersAt(lines[1], NewPathPrefix, 0);
    assert lines[1][|OldPathPrefix|..] == path;
    assert lines[2][|NewPathPrefix|..] == path;
    StripFixed(path);
    RegularHeaders(lines, 1, 2);
  }

  /** The lines `git diff` builds around a path hold no line boundary
      when the path holds none. */
  lemma PathLinesFree(path: string)
    requires LineFree(path)
    ensures LineFree(path + " b/" + path)
    ensures LineFree(OldPathPrefix + path) && LineFree(NewPathPrefix + path)
  {
    LineFreeConcat(path, " b/");
    LineFreeConcat(path + " b/", path);
    LineFreeConcat(OldPathPrefix, path);
    LineFreeConcat(NewPathPrefix, path);
  }

  /** A modified file's lines are lines of text, the first starting and
      the last ending with a non-space. */
  lemma ModifiedFileLines(path: string, hunk: seq<string>, lines: seq<string>)
    requires path != "" && LineFree(path) && !IsSpace(path[0]) && !IsSpace(path[|path| - 1])
    requires forall k | 0 <= k < |hunk| :: LineFree(hunk[k])
    requires hunk != [] ==> var last := hunk[|hunk| - 1]; last != "" && !IsSpace(last[|last| - 1])
    requires lines == [path + " b/" + path, OldPathPrefix + path, NewPathPrefix + path] + hunk
    ensures forall k | 0 <= k < |lines| :: LineFree(lines[k])
    ensures !IsSpace(lines[0][0])
    ensures var last := lines[|lines| - 1]; last != "" && !IsSpace(last[|last| - 1])
  {
    PathLinesFree(path);
    assert lines[0][0] == path[0];
    if hunk == [] {
      var last := lines[2];
      assert last[|last| - 1] == path[|path| - 1];
    }
  }

  /** A modified file, as `git diff` prints it: the diff yields exactly
      one record, named by the file's path, and every line of the hunks is
      in the record's content. */
  lemma ModifiedFileRecord(path: string, hunk: seq<string>, tail: string, lines: seq<string>, raw: string)
    requires path != "" && path != NullDevice && LineFree(path)
    requires !IsSpace(path[0]) && !IsSpace(path[|path| - 1]) && path[0] != '-' && path[0] != '+'
    requires forall k | 0 <= k < |hunk| :: LineFree(hunk[k])
    requires hunk != [] ==> var last := hunk[|hunk| - 1]; last != "" && !IsSpace(last[|last| - 1])
    requires lines == [path + " b/" + path, OldPathPrefix + path, NewPathPrefix + path] + hunk
    requires IsBlank(tail) && !Contains(Join(lines, "\n") + tail, SegmentDelimiter)
    requires raw == DiffHeader + (Join(lines, "\n") + tail)
    ensures ParseDiff(raw) == [DiffInfo(path, DiffHeader + Join(lines, "\n"))]
    ensures forall k | 0 <= k < |hunk| :: Contains(ParseDiff(raw)[0].diff_content, hunk[k])
  {
    ModifiedFileLines(path, hunk, lines);
    ModifiedFileHeaders(path, hunk, lines);
    OneFileLines(lines, tail, raw);
    forall k | 0 <= k < |hunk| ensures Contains(DiffHeader + Join(lines, "\n"), hunk[k]) {
      assert lines[3 + k] == hunk[k];
      JoinContainsPart(lines, "\n", 3 + k);
      ContainsAfterHeader(Join(lines, "\n"), hunk[k]);
    }
  }

  /** The header scan of an added file's lines: no `--- a/` line at all,
      so the scan reads every line and the last `+++ b/` line wins. */
  lemma AddedFileHeaders(path: string, other: string, lines: seq<string>)
    requires path != "" && path[0] != '-'
    requires lines == [path + " b/" + path, "new file mode 100644", "--- /dev/null",
                       NewPathPrefix + path, "@@ -0,0 +1,2 @@", NewPathPrefix + other]
    ensures Headers(lines) == (None, Some(Strip(other)))
  {
    assert lines[0][0] == path[0];
    assert lines[3][0] == '+';
    assert lines[5][0] == '+';
    DiffersAt(lines[0], OldPathPrefix, 0);
    DiffersAt(lines[1], OldPathPrefix, 0);
    DiffersAt(lines[2], OldPathPrefix, 4);
    DiffersAt(lines[3], OldPathPrefix, 0);
    DiffersAt(lines[4], OldPathPrefix, 0);
    DiffersAt(lines[5], OldPathPrefix, 0);
    UnpairedHeadersScanAll(lines);
    assert lines[5][|NewPathPrefix|..] == other;
    LastHeaderIsLast(lines, NewPathPrefix, 5);
  }

  /** An added file's lines are lines of text, the first starting and
      the last ending with a non-space. */
  lemma AddedFileLines(path: string, other: string, lines: seq<string>)
    requires path != "" && LineFree(path) && !IsSpace(path[0])
    requires other != "" && LineFree(other) && !IsSpace(other[|other| - 1])
    requires lines == [path + " b/" + path, "new file mode 100644", "--- /dev/null",
                       NewPathPrefix + path, "@@ -0,0 +1,2 @@", NewPathPrefix + other]
    ensures forall k | 0 <= k < |lines| :: LineFree(lines[k])
    ensures !IsSpace(lines[0][0])
    ensures var last := lines[|lines| - 1]; last != "" && !IsSpace(last[|last| - 1])
  {
    PathLinesFree(path);
    PathLinesFree(other);
    assert lines[0][0] == path[0];
    assert lines[5][|lines[5]| - 1] == other[|other| - 1];
  }

  /** An added file: git writes its old header as `--- /dev/null`, which
      lacks the `a/` prefix, so the old path is never seen and the scan runs
      on into the added lines; an added line reading `++ b/<other>` shows
      as `+++ b/<other>` and the diff's one record is named `<other>`. */
  lemma AddedFileBodyRenamesRecord(path: string, other: string, tail: string, lines: seq<string>, raw: string)
    requires path != "" && LineFree(path) && !IsSpace(path[0]) && path[0] != '-'
    requires other != "" && LineFree(other) && !IsSpace(other[|other| - 1]) && Strip(other) != NullDevice
    requires lines == [path + " b/" + path, "new file mode 100644", "--- /dev/null",
                       NewPathPrefix + path, "@@ -0,0 +1,2 @@", NewPathPrefix + other]
    requires IsBlank(tail) && !Contains(Join(lines, "\n") + tail, SegmentDelimiter)
    requires raw == DiffHeader + (Join(lines, "\n") + tail)
    ensures ParseDiff(raw) == [DiffInfo(Strip(other), DiffHeader + Join(lines, "\n"))]
  {
    AddedFileLines(path, other, lines);
    AddedFileHeaders(path, other, lines);
    StripShape(other);
    OneFileLines(lines, tail, raw);
  }

  /** The header scan of a deleted file's lines: no `+++ b/` line at all,
      so the scan reads every line and the last `--- a/` line wins. */
  lemma DeletedFileHeaders(path: string, other: string, lines: seq<string>)
    requires path != "" && path[0] != '+'
    requires lines == [path + " b/" + path, "deleted file mode 100644", OldPathPrefix + path,
                       "+++ /dev/null", "@@ -1,2 +0,0 @@", OldPathPrefix + other]
    ensures Headers(lines) == (Some(Strip(other)), None)
  {
    assert lines[0][0] == path[0];
    assert lines[2][0] == '-';
    assert lines[5][0] == '-';
    DiffersAt(lines[0], NewPathPrefix, 0);
    DiffersAt(lines[1], NewPathPrefix, 0);
    DiffersAt(lines[2], NewPathPrefix, 0);
    DiffersAt(lines[3], NewPathPrefix, 4);
    DiffersAt(lines[4], NewPathPrefix, 0);
    DiffersAt(lines[5], NewPathPrefix, 0);
    UnpairedHeadersScanAll(lines);
    assert lines[5][|OldPathPrefix|..] == other;
    LastHeaderIsLast(lines, OldPathPrefix, 5);
  }

  /** A deleted file's lines are lines of text, the first starting and
      the last ending with a non-space. */
  lemma DeletedFileLines(path: string, other: string, lines: seq<string>)
    requires path != "" && LineFree(path) && !IsSpace(path[0])
    requires other != "" && LineFree(other) && !IsSpace(other[|other| - 1])
    requires lines == [path + " b/" + path, "deleted file mode 100644", OldPathPrefix + path,
                       "+++ /dev/null", "@@ -1,2 +0,0 @@", OldPathPrefix + other]
    ensures forall k | 0 <= k < |lines| :: LineFree(lines[k])
    ensures !IsSpace(lines[0][0])
    ensures var last := lines[|lines| - 1]; last != "" && !IsSpace(last[|last| - 1])
  {
    PathLinesFree(path);
    PathLinesFree(other);
    assert lines[0][0] == path[0];
    assert lines[5][|lines[5]| - 1] == other[|other| - 1];
  }

  /** A deleted file: git writes its new header as `+++ /dev/null`, which
      lacks the `b/` prefix, so the new path is never seen and the scan
      runs on into the removed lines; a removed line reading `-- a/<other>`
      shows as `--- a/<other>` and the diff's one record is named
      `<other>`. */
  lemma DeletedFileBodyRenamesRecord(path: string, other: string, tail: string, lines: seq<string>, raw: string)
    requires path != "" && LineFree(path) && !IsSpace(path[0]) && path[0] != '+'
    requires other != "" && LineFree(other) && !IsSpace(other[|other| - 1]) && Strip(other) != NullDevice
    requires lines == [path + " b/" + path, "deleted file mode 100644", OldPathPrefix + path,
                       "+++ /dev/null", "@@ -1,2 +0,0 @@", OldPathPrefix + other]
    requires IsBlank(tail) && !Contains(Join(lines, "\n") + tail, SegmentDelimiter)
    requires raw == DiffHeader + (Join(lines, "\n") + tail)
    ensures ParseDiff(raw) == [DiffInfo(Strip(other), DiffHeader + Join(lines, "\n"))]
  {
    DeletedFileLines(path, other, lines);
    DeletedFileHeaders(path, other, lines);
    StripShape(other);
    OneFileLines(lines, tail, raw);
  }
}

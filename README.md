# diff2test, modelled in Dafny

diff2test turns a `git diff` into a prompt for a code-generating model, and turns the model's reply into a test file on disk. This project models the deterministic steps of that pipeline and proves what they promise:

- **`GitHandler`** (`git_handler.dfy`): the diff extractor.
  - Computes the pathspecs that restrict `git diff` to a target.
  - Builds the argument lists of `get_current_changes` and `get_diff_between_commits`.
  - Cuts raw unified-diff text into one `DiffInfo` per file.
  - The scanning loops are methods proved against specification functions. Running git is a function parameter.
- **`ResponseParser`** (`response_parser.dfy`): `extract_python_code_from_response`.
  - The fence regular expression is modelled as the search a backtracking engine performs: leftmost start, tag order `python`, `py`, none, whitespace longest first, content shortest first.
  - It is proved sound and complete against a declarative definition of a match, and to return the leftmost match.
- **`PromptBuilder`** (`prompt_builder.dfy`): the nineteen-line prompt joined with newlines.
  - The constant wording is a `Wording` record. The lemmas hold for every wording, and `SourceWording` is the program's.
- **`PosixPath`** (`posix_path.dfy`): the `pathlib` pure-path operations the file writer uses. These are parsing, `str`, `name`, `parent` and `/`.
- **`FileWriter`** (`file_writer.dfy`): saving the generated code.
  - The test file's path is pure.
  - The save is a `FileSystem` class whose methods create directories and write files, each failing the way `mkdir` and `open` raise.
- **`PyStr`** (`py_str.dfy`): the Python `str` builtins the code relies on: `strip` (Python's full whitespace set), `split`, `join`, `splitlines` (Python's full set of line boundaries), `startswith`, `endswith`, `in` and `rstrip('/')`.
- **`Models`** (`models.dfy`): `DiffInfo` and `AIConfig`.

Where the code and its own tests disagree, the model follows the code:

- **The sentinel.** A reply that strips to `NO_TESTS_NEEDED` yields `None`; the test at `diff2test/tests/test_response_parser.py:95-106` expects the sentinel back (`ResponseParser.BareSentinelYieldsNothing`).
- **Plain prose.** Fence-free prose is returned, stripped, as code; the test at `diff2test/tests/test_response_parser.py:35-46` expects `None` (`ResponseParser.UnfencedTextIsCode`).
- **An empty block.** "```python\n```" yields `None`, because the pattern needs two newlines; the test at `diff2test/tests/test_response_parser.py:109-121` expects `""` (`ResponseParser.EmptyPythonBlockYieldsNothing`).

Three behaviours of the header scan in `_parse_diff_output`:

- **The last header wins.** The comment at `diff2test/git_handler.py:103` speaks of the `--- a/` and `+++ b/` lines. The loop at `diff2test/git_handler.py:104-114` keeps the last line of each kind seen before both have been seen.
- **Added files.** For an added file the pre-image line is `--- /dev/null`, which never matches `--- a/`, so the scan runs on into the hunk. A body line `++ b/x` of the new file (shown in the diff as `+++ b/x`) then renames the record. `GitHandler.AddedFileBodyRenamesRecord` states this.
- **Deleted files.** For a deleted file the post-image line is `+++ /dev/null`, which never matches `+++ b/`, so the scan again runs on into the hunk. A removed body line `-- a/y` (shown in the diff as `--- a/y`) then replaces the pre-image path, and the record is named `y`. `GitHandler.DeletedFileBodyRenamesRecord` states this.

## Model

| member | source | states |
|---|---|---|
| GitHandler.PathspecsShape | diff2test/git_handler.py:139-179 | every target gives exactly two pathspecs; the first ends in `.py`, the second starts with `:(exclude)` and ends in `/test_*.py` |
| GitHandler.GlobalPathspecsWithoutTarget | diff2test/git_handler.py:151-177 | no target, the empty target, or one blank after `rstrip('/')` gives exactly `["**/*.py", ":(exclude)**/test_*.py"]` |
| GitHandler.FilePathspecs | diff2test/git_handler.py:152-161 | a target ending in `.py` after trailing slashes are removed gives the cleaned target and the global test exclusion |
| GitHandler.DirectoryPathspecs | diff2test/git_handler.py:163-173 | any other non-blank target `t` gives `t/**/*.py` and `:(exclude)t/**/test_*.py` |
| GitHandler.TrailingSlashIgnored | diff2test/git_handler.py:152 | a trailing slash on the target changes nothing |
| GitHandler.EffectivePathspecs | diff2test/git_handler.py:139-179 | the list the branches append to is the pathspec specification |
| GitHandler.DefaultArguments | diff2test/git_handler.py:17-41 | with no target, the argument lists are the fixed `git diff --unified=3` base with `HEAD` or the two commits, then `--`, then the two global pathspecs |
| GitHandler.GetCurrentChanges | diff2test/git_handler.py:28-44 | runs git on `git diff --unified=3 HEAD -- <pathspecs>` and parses its output, or passes its failure on; every record is well formed |
| GitHandler.GetDiffBetweenCommits | diff2test/git_handler.py:10-25 | the same with the two commits in place of `HEAD` |
| GitHandler.ScanLine | diff2test/git_handler.py:104-108 | one pass of the scan loop updates the last `--- a/` and the last `+++ b/` path seen, trimmed |
| GitHandler.ScanHeaders | diff2test/git_handler.py:100-114 | the loop ends with the last header paths of each kind up to the first point where both have been seen |
| GitHandler.LastHeaderFound | diff2test/git_handler.py:104-108 | a header path is found exactly when some line starts with the prefix |
| GitHandler.LastHeaderIsLast | diff2test/git_handler.py:104-108 | the path found is the one on the last line with the prefix, trimmed |
| GitHandler.StopsOnceBothSeen | diff2test/git_handler.py:113-114 | once both headers have been seen, later lines do not matter |
| GitHandler.UnpairedHeadersScanAll | diff2test/git_handler.py:104-114 | when one kind of header is missing, every line is scanned and the missing path stays unset |
| GitHandler.RegularHeaders | diff2test/git_handler.py:104-114 | a `--- a/` line followed by the first `+++ b/` line yields exactly those two paths |
| GitHandler.EffectivePath | diff2test/git_handler.py:120-124 | the path is the post-image path if usable, else the pre-image path if usable, else none; usable means non-empty and not `/dev/null` |
| GitHandler.ParseDiffOutput | diff2test/git_handler.py:74-136 | the loop over segments yields the records of the specification, in segment order |
| GitHandler.CollectStep | diff2test/git_handler.py:126-131 | each segment appends its record, if any, after those of the segments before it |
| GitHandler.CollectAppend | diff2test/git_handler.py:91-136 | the records of concatenated segment lists are the concatenated records: no sorting, no deduplication |
| GitHandler.ParseSegmentWellFormed | diff2test/git_handler.py:92-131 | a segment's record has a non-empty path other than `/dev/null`, and content `diff --git a/` followed by the stripped segment |
| GitHandler.CollectWellFormed | diff2test/git_handler.py:120-131 | every record is well formed, and there are at most as many records as segments |
| GitHandler.ParseDiffWellFormed | diff2test/git_handler.py:74-136 | every parsed record is well formed and there are no more records than segments |
| GitHandler.BlankDiffHasNoRecords | diff2test/git_handler.py:80-81 | empty or whitespace-only output gives no records |
| GitHandler.HeaderlessDiffHasNoRecords | diff2test/git_handler.py:87-89 | text without a `diff --git a/` header at a line start gives no segments and no records |
| GitHandler.SegmentsCoverInput | diff2test/git_handler.py:87-89 | a header-free preamble and the segments, joined with the delimiter, rebuild the newline-prefixed stripped input; no segment holds the delimiter |
| GitHandler.RegularSegmentRecord | diff2test/git_handler.py:92-131 | a segment with a `--- a/` line and then a usable `+++ b/` line yields the record of the post-image path and the whole segment |
| GitHandler.SingleFileDiff | diff2test/git_handler.py:80-131 | a diff made of the `diff --git a/` header and one segment free of further headers yields exactly that segment's records |
| GitHandler.OneFileLines | diff2test/git_handler.py:87-131 | such a diff written as lines without line boundaries, then blank text, yields the record the header scan of exactly those lines names, holding the lines behind the header |
| GitHandler.ModifiedFileHeaders | diff2test/git_handler.py:104-114 | for a modified file's lines the scan stops at the `+++ b/` line, and both headers are the file's path |
| GitHandler.ModifiedFileRecord | diff2test/tests/test_git_handler.py:15-38 | a modified file's diff, as in the test, yields exactly one record, named by the file's path, whose content holds every hunk line (`+import os` among them) |
| GitHandler.AddedFileHeaders | diff2test/git_handler.py:104-114 | for an added file's lines no `--- a/` path is found and the last `+++ b/` line, in the hunk body, gives the post-image path |
| GitHandler.AddedFileBodyRenamesRecord | diff2test/git_handler.py:87-131 | an added file's diff whose hunk body adds a line `++ b/x` yields exactly one record, named `x` |
| GitHandler.DeletedFileHeaders | diff2test/git_handler.py:104-114 | for a deleted file's lines no `+++ b/` path is found and the last `--- a/` line, in the hunk body, gives the pre-image path |
| GitHandler.DeletedFileBodyRenamesRecord | diff2test/git_handler.py:87-131 | a deleted file's diff whose hunk body removes a line `-- a/y` yields exactly one record, named `y` |
| ResponseParser.TagLengths | diff2test/response_parser.py:34 | the tag alternatives tried are ones that are present, ending with the empty tag |
| ResponseParser.SpaceRun | diff2test/response_parser.py:34 | `\s*` first takes the whole whitespace run |
| ResponseParser.SpaceRunBlank | diff2test/response_parser.py:34 | the run taken is all whitespace |
| ResponseParser.SpaceRunCovers | diff2test/response_parser.py:34 | the run reaches past every all-whitespace stretch |
| ResponseParser.Backtrack | diff2test/response_parser.py:34 | a group found starts after a newline and ends at a closing fence |
| ResponseParser.BacktrackSound | diff2test/response_parser.py:34 | a group found by giving back whitespace is a match of what follows the tag |
| ResponseParser.BacktrackComplete | diff2test/response_parser.py:34 | if any shorter run ends on a newline that a closing fence follows, a group is found |
| ResponseParser.TagTry | diff2test/response_parser.py:34 | a group found after one tag starts past the tag and ends at a closing fence |
| ResponseParser.TryTags | diff2test/response_parser.py:34 | a group found by trying the tags ends at a closing fence |
| ResponseParser.TryTagsPicks | diff2test/response_parser.py:34 | the group found is the one of a single tag alternative |
| ResponseParser.TryTagsSound | diff2test/response_parser.py:34 | that group is a match after one of the tags |
| ResponseParser.TryTagsComplete | diff2test/response_parser.py:34 | if any tag leads to a group, one is found |
| ResponseParser.MatchAt | diff2test/response_parser.py:34 | a match at a position captures text after the opening fence, ending at a closing fence |
| ResponseParser.MatchAtSound | diff2test/response_parser.py:33-35 | the engine's match at a position satisfies the declarative pattern |
| ResponseParser.MatchAtComplete | diff2test/response_parser.py:33-35 | where the pattern matches, the engine finds a match |
| ResponseParser.MatchAtPicks | diff2test/response_parser.py:34 | the engine's match at a position is the backtracking over the whitespace run after one tag, and is a match with that tag |
| ResponseParser.AfterTagStartsWithSpace | diff2test/response_parser.py:34 | what follows a tag in a match starts with whitespace (`\s*` then `\n`) |
| ResponseParser.OneTagMatches | diff2test/response_parser.py:34 | at one position, at most one of `python`, `py` and the empty tag leads to a match |
| ResponseParser.RunCoversGroup | diff2test/response_parser.py:34 | the whitespace before any match's group lies within the run greedy `\s*` first takes |
| ResponseParser.BacktrackLongest | diff2test/response_parser.py:34 | giving back whitespace one character at a time finds the match whose group starts furthest right |
| ResponseParser.MatchAtLongest | diff2test/response_parser.py:34 | among the matches at a position, the engine's has the longest whitespace run, so its group starts furthest right |
| ResponseParser.LongestAt | diff2test/response_parser.py:34 | every match at a position starts its group no later than the engine's |
| ResponseParser.NoMatchBefore | diff2test/response_parser.py:37 | where the engine's scan found nothing, the pattern matches nowhere |
| ResponseParser.Search | diff2test/response_parser.py:37 | the group found lies within the reply |
| ResponseParser.SearchSound | diff2test/response_parser.py:37 | the search returns the engine's match at the first position where there is one |
| ResponseParser.SearchComplete | diff2test/response_parser.py:37 | a match at or after the start is never missed |
| ResponseParser.SearchIsLeftmost | diff2test/response_parser.py:34-37 | the search's group is a match, no match starts further left, and among the matches at that position its group starts furthest right (greedy `\s*`) |
| ResponseParser.SearchFailsOnlyWithoutMatch | diff2test/response_parser.py:37-45 | the search fails if and only if the pattern matches nowhere |
| ResponseParser.SearchWithoutFence | diff2test/response_parser.py:37 | without three backticks there is no match |
| ResponseParser.SentinelMeansNoTests | diff2test/response_parser.py:24-26 | the outcome is "no tests needed" if and only if the stripped reply is exactly `NO_TESTS_NEEDED`, and then the result is `None` |
| ResponseParser.BlankReplyYieldsNothing | diff2test/response_parser.py:20-58 | an empty or whitespace-only reply yields nothing |
| ResponseParser.ExtractUnfenced | diff2test/response_parser.py:45-58 | a fence-free reply yields its stripped text, or nothing when that is empty |
| ResponseParser.ExtractFenced | diff2test/response_parser.py:34-44 | when the pattern matches, the result is the stripped group of the leftmost match, the one whose whitespace run after the tag is longest |
| ResponseParser.FenceWithoutMatch | diff2test/response_parser.py:45-58 | three backticks with no match yield nothing |
| ResponseParser.GroupHasNoClosingFence | diff2test/response_parser.py:34 | the lazily captured group never contains a newline followed by three backticks |
| ResponseParser.ExtractedCodeIsClean | diff2test/response_parser.py:39-53 | returned code is already stripped and holds no closing fence |
| ResponseParser.FencedPythonBlock | diff2test/response_parser.py:33-44 | a `python` block after backtick-free text yields its stripped content, whatever follows it, including further blocks |
| ResponseParser.EmptyFencedBlock | diff2test/response_parser.py:33-58 | a fence, a tag without newlines, one newline and a fence yield nothing |
| ResponseParser.EmptyPythonBlockYieldsNothing | diff2test/tests/test_response_parser.py:109-121 | "```python\n```" yields `None`; the test expects `""` |
| ResponseParser.UnfencedTextIsCode | diff2test/response_parser.py:49-53 | backtick-free text without surrounding whitespace is returned unchanged; the test at 35-46 expects `None` for prose |
| ResponseParser.BareSentinelYieldsNothing | diff2test/tests/test_response_parser.py:95-106 | `NO_TESTS_NEEDED` yields `None`; the test expects the sentinel |
| PromptBuilder.PromptLayout | diff2test/prompt_builder.py:21-47 | the prompt is fixed text, the file path, fixed text, the diff verbatim, and fixed text; the fixed texts depend only on the framework |
| PromptBuilder.PromptDeterminesDiffInfo | diff2test/prompt_builder.py:26-30 | for the same file, equal prompts mean equal diffs; for the same diff, equal prompts mean equal paths |
| PromptBuilder.DiffIsFenced | diff2test/prompt_builder.py:29-31 | the prompt contains "```diff", newline, the diff, newline, "```" |
| PromptBuilder.PromptFrame | diff2test/prompt_builder.py:22-47 | the prompt starts with the role line naming the framework and ends with the comments instruction; it contains the file line, the `NO_TESTS_NEEDED` escape, the request to analyze, the instructions heading and the request for code only |
| PromptBuilder.FrameworkOnlyInItsLines | diff2test/prompt_builder.py:22-40 | there are nineteen lines; changing the framework changes only lines 0, 11 and 13, and each of those contains it |
| PromptBuilder.DefaultFrameworkIsPytest | diff2test/prompt_builder.py:4-8 | the default framework is `pytest`, and the prompt then starts with the `pytest` role line |
| PromptBuilder.EmptyDiffIsFenced | diff2test/tests/test_prompt_builder.py:34-51 | an empty diff leaves "```diff\n\n```" in the prompt |
| PosixPath.Name | diff2test/file_writer.py:37 | the name of a path with components is a single component |
| PosixPath.Parent | diff2test/file_writer.py:41 | the parent keeps the root and is a prefix of the components |
| PosixPath.Div | diff2test/file_writer.py:45 | `/` keeps paths well formed |
| PosixPath.ParseValid | diff2test/file_writer.py:33-34 | parsing gives a root among "", "/", "//" and components that are non-empty, not "." and slash-free |
| PosixPath.ParseToString | diff2test/file_writer.py:55 | the text of a path parses back to the same path |
| PosixPath.ParseNormalizes | diff2test/file_writer.py:33-34 | parsing the text of a parsed path changes nothing |
| PosixPath.ParseJoined | diff2test/file_writer.py:33-34 | components joined with "/" parse to the relative path of those components |
| PosixPath.ParentDivName | diff2test/file_writer.py:37-45 | `parent / name` is the path itself |
| FileWriter.TestFileNameIsPart | diff2test/file_writer.py:37 | `test_` + the original's name is a single component |
| FileWriter.TestFileLocation | diff2test/file_writer.py:37-45 | the test file is named `test_` + the original's name and sits in `base / parent(original)` |
| FileWriter.MirrorsOriginalLayout | diff2test/file_writer.py:39-45 | for relative paths, the saved path is the base, the original's directories and `test_<name>`, joined with "/" |
| FileWriter.TopLevelFile | diff2test/file_writer.py:41-45 | a top-level original goes straight into the base directory |
| FileWriter.NestedModuleLayout | diff2test/tests/test_file_writer.py:18-41 | `d/p/f` under `b` is saved as `b/d/p/test_f`, as `src/my_module/main.py` under `generated_tests` is |
| FileWriter.FileSystem.MakeDirs | diff2test/file_writer.py:49 | `mkdir(parents=True, exist_ok=True)`: succeeds exactly when no missing ancestor is blocked; then every ancestor exists. On failure, the ancestors above the first blocked one exist; files are untouched; no path becomes both a directory and a file |
| FileWriter.FileSystem.Write | diff2test/file_writer.py:52-53 | `open(p, "w").write(code)`: succeeds exactly when the parent exists and `p` is neither a directory nor denied; the file then holds exactly the code; no path becomes both a directory and a file |
| FileWriter.FileSystem.SaveTestCodeToFile | diff2test/file_writer.py:6-65 | empty code changes nothing and yields `None`; otherwise the directory is created and the code written, and the path text is returned exactly when both succeed; on failure no file changes and the result is `None`; when `mkdir` raises, exactly the ancestors above the first blocked one have been created, and when only the write raises, the whole directory has; no path becomes both a directory and a file |

## Left out

- `_run_git_command` (`diff2test/git_handler.py:47-71`): running a subprocess. It is a function parameter of the entry points, returning the output or a `GitError`; the exception is modelled as that error value.
- `diff2test/ai_client.py`: network calls through a vendor SDK.
- `diff2test/cli_parser.py`: command-line glue.
- `diff2test/logger.py` and every logging call or `print`.
- `diff2test/__init__.py`: stubs returning fixed strings; there is no orchestration between the stages to model.
- The `__main__` demonstration blocks, and the stray test functions at `diff2test/response_parser.py:75-81`.
- `test_files/`: sample input and output, no logic.
- GitHandler.ModifiedFileRecord: stated for a non-empty path other than `/dev/null` that holds no line boundary, does not start with whitespace, `-` or `+`, and does not end with whitespace; for hunk lines that hold no line boundary, the last of them non-empty and not ending with whitespace; for a blank tail; and for a diff with no second `diff --git a/` header; the diff in `diff2test/tests/test_git_handler.py:15-23` is of this shape, with the path `sample.py`.
- FileWriter.FileSystem.SaveTestCodeToFile: returns the unresolved path text rather than `str(path.resolve())`, because resolving against the process's working directory is I/O.
- FileWriter.FileSystem.Write: an error raised by `write` after `open` has truncated the file is not modelled; an open that succeeds always writes the whole code.
- FileWriter.FileSystem: directories and files are keyed by `PosixPath.Path` values, which are lexical: `a/../b` and `b`, or a relative path and the absolute path of the same place, are different entries, so two spellings of one location are not seen as the same directory or file.
- FileWriter.FileSystem: symbolic links, permissions other than the `denied` set, and concurrent changes by other processes are not modelled.
- ResponseParser.WordAt: case-insensitive matching of the tag covers ASCII upper and lower case only. Python's `IGNORECASE` also matches the Kelvin sign and the long s to `k` and `s`, and neither letter occurs in `python` or `py`, so no input is affected.
- ResponseParser.UnfencedTextIsCode: the prose example from the test is covered by this general lemma on backtick-free text, not stated on that literal reply.
- PosixPath: only the POSIX flavour of `pathlib`, and only the operations the file writer uses.
- `AIConfig` is modelled as a datatype only; nothing in the modelled core uses it.

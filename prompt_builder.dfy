/**
 * The prompt sent to the model: a fixed list of nineteen lines, three of
 * which name the test framework, one the changed file, and one the diff
 * itself, joined with newlines.
 *
 * The constant text of the lines is gathered in a `Wording` value, and
 * the lemmas hold for every wording: they are about the shape of the
 * prompt, and the wording the program uses is `SourceWording`.
 */
module PromptBuilder {
  import opened PyStr
  import opened Models

  const DefaultTestFramework: string := "pytest"

  const Newline: string := "\n"

  /** The constant text of the prompt: whole lines, and the text around
      the framework and the file path in the lines that embed them. */
  datatype Wording = Wording(
    rolePrefix: string,
    roleSuffix: string,
    task: string,
    noTests: string,
    filePrefix: string,
    analyze: string,
    fenceOpen: string,
    fenceClose: string,
    usingPrefix: string,
    target: string,
    conventionsPrefix: string,
    instructions: string,
    onlyCode: string,
    noProse: string,
    comments: string)

  /** The wording `create_test_prompt_for_diff` uses. */
  const SourceWording: Wording := Wording(
    "You are an expert AI programming assistant specializing in Python and the ",
    " testing framework.",
    "Your task is to generate unit tests for the provided code changes.",
    "If the code changes are not sufficient to write tests, respond with 'NO_TESTS_NEEDED'.",
    "The code changes are in the file: `",
    "Please analyze the following diff carefully:",
    "```diff",
    "```",
    "Based on these changes, please write concise and effective unit tests using ",
    "The tests should specifically target the modified or newly introduced behavior.",
    "Follow standard testing conventions and best practices for ",
    "Instructions for your response:",
    "- Provide only the Python code for the tests.",
    "- Do not include any explanatory text, introductions, or summaries before or after the code block.",
    "- If you need to include comments, place them within the Python code itself (e.g., `# This test checks...`).")

  // The lines that embed an input.
  function RoleLine(w: Wording, testFramework: string): string {
    w.rolePrefix + testFramework + w.roleSuffix
  }
  function FileLine(w: Wording, filePath: string): string {
    w.filePrefix + filePath + "`"
  }
  function UsingLine(w: Wording, testFramework: string): string {
    w.usingPrefix + testFramework + "."
  }
  function ConventionsLine(w: Wording, testFramework: string): string {
    w.conventionsPrefix + testFramework + "."
  }

  /** Lines 0-3: the role, the request for tests, the escape, a blank line. */
  function Opening(w: Wording, testFramework: string): seq<string> {
    [RoleLine(w, testFramework), w.task, w.noTests, ""]
  }

  /** Lines 5-7: a blank line, the request to analyze, the opening fence. */
  function Lead(w: Wording): seq<string> {
    ["", w.analyze, w.fenceOpen]
  }

  /** Lines 9-18: the closing fence and the instructions. */
  function Closing(w: Wording, testFramework: string): seq<string> {
    [ w.fenceClose, "", UsingLine(w, testFramework), w.target, ConventionsLine(w, testFramework),
      "", w.instructions, w.onlyCode, w.noProse, w.comments ]
  }

  /** The prompt's nineteen lines in order: the opening, the file line
      (line 4), the lead-in, the diff (line 8) and the closing. */
  function PromptLines(w: Wording, diffInfo: DiffInfo, testFramework: string): seq<string> {
    Opening(w, testFramework) + ([FileLine(w, diffInfo.file_path)] + (Lead(w) + ([diffInfo.diff_content] + Closing(w, testFramework))))
  }

  /** The lines joined with newlines. */
  function Render(w: Wording, diffInfo: DiffInfo, testFramework: string): string {
    Join(PromptLines(w, diffInfo, testFramework), Newline)
  }

  /** `create_test_prompt_for_diff`. */
  function CreateTestPromptForDiff(diffInfo: DiffInfo, testFramework: string := DefaultTestFramework): string {
    Render(SourceWording, diffInfo, testFramework)
  }

  // ---------------------------------------------------------------------
  // The prompt around its two inputs from the diff
  // ---------------------------------------------------------------------

  /** The text before the file path. */
  function BeforePath(w: Wording, testFramework: string): string {
    Join(Opening(w, testFramework), Newline) + (Newline + w.filePrefix)
  }

  /** The text between the file path and the diff. */
  function BetweenPathAndDiff(w: Wording): string {
    "`" + (Newline + (Join(Lead(w), Newline) + Newline))
  }

  /** The text after the diff. */
  function AfterDiff(w: Wording, testFramework: string): string {
    Newline + Join(Closing(w, testFramework), Newline)
  }

  /** Concatenation is associative. */
  lemma Assoc(a: string, b: string, c: string)
    ensures a + (b + c) == (a + b) + c
  {
  }

  /** Joining two non-empty lists of lines puts one separator between
      their joins. */
  lemma JoinConcat(a: seq<string>, b: seq<string>, sep: string)
    requires |a| >= 1 && |b| >= 1
    ensures Join(a + b, sep) == Join(a, sep) + (sep + Join(b, sep))
  {
    var ab := a + b;
    JoinAt(ab, sep, |a|);
    assert ab[..|a|] == a;
    assert ab[|a|..] == b;
    var ja, jb := Join(a, sep), Join(b, sep);
    assert ja + sep + jb == ja + (sep + jb);
  }

  /** Joining a line in front of a non-empty list. */
  lemma JoinCons(x: string, b: seq<string>, sep: string)
    requires |b| >= 1
    ensures Join([x] + b, sep) == x + (sep + Join(b, sep))
  {
  }

  /** The joined lines, with the file line and the diff line singled out. */
  lemma JoinAround(opening: seq<string>, file: string, lead: seq<string>, diff: string, closing: seq<string>, sep: string)
    requires |opening| >= 1 && |lead| >= 1 && |closing| >= 1
    ensures Join(opening + ([file] + (lead + ([diff] + closing))), sep)
      == Join(opening, sep) + (sep + (file + (sep + (Join(lead, sep) + (sep + (diff + (sep + Join(closing, sep))))))))
  {
    JoinCons(diff, closing, sep);
    JoinConcat(lead, [diff] + closing, sep);
    JoinCons(file, lead + ([diff] + closing), sep);
    JoinConcat(opening, [file] + (lead + ([diff] + closing)), sep);
  }

  /** Regrouping the joined lines around the file path and the diff. */
  lemma RegroupAroundPath(opening: string, sep: string, prefix: string, path: string, lead: string, diff: string, closing: string)
    ensures opening + (sep + ((prefix + path + "`") + (sep + (lead + (sep + (diff + (sep + closing)))))))
      == (opening + (sep + prefix)) + (path + (("`" + (sep + (lead + sep))) + (diff + (sep + closing))))
  {
  }

  /** The prompt is a fixed text, then the file path, then a fixed text,
      then the diff verbatim, then a fixed text; the fixed texts depend on
      the framework only. */
  lemma PromptLayout(w: Wording, diffInfo: DiffInfo, testFramework: string)
    ensures Render(w, diffInfo, testFramework)
      == BeforePath(w, testFramework) + (diffInfo.file_path + (BetweenPathAndDiff(w) + (diffInfo.diff_content + AfterDiff(w, testFramework))))
  {
    JoinAround(Opening(w, testFramework), FileLine(w, diffInfo.file_path), Lead(w), diffInfo.diff_content, Closing(w, testFramework), Newline);
    RegroupAroundPath(Join(Opening(w, testFramework), Newline), Newline, w.filePrefix, diffInfo.file_path,
                      Join(Lead(w), Newline), diffInfo.diff_content, Join(Closing(w, testFramework), Newline));
  }

  // ---------------------------------------------------------------------
  // What the prompt promises
  // ---------------------------------------------------------------------

  /** Equal strings with the same prefix agree after it. */
  lemma CancelPrefix(a: string, x: string, y: string)
    requires a + x == a + y
    ensures x == y
  {
    assert (a + x)[|a|..] == x;
    assert (a + y)[|a|..] == y;
  }

  /** Equal strings with the same suffix agree before it. */
  lemma CancelSuffix(x: string, y: string, b: string)
    requires x + b == y + b
    ensures x == y
  {
    assert (x + b)[..|x|] == x;
    assert (y + b)[..|y|] == y;
  }

  /** In a fixed frame, the two slots are determined by the whole: the
      second given the first, and the first given the second. */
  lemma FrameSlots(before: string, between: string, after: string, x1: string, x2: string, y1: string, y2: string)
    requires before + (x1 + (between + (y1 + after))) == before + (x2 + (between + (y2 + after)))
    ensures x1 == x2 ==> y1 == y2
    ensures y1 == y2 ==> x1 == x2
  {
    CancelPrefix(before, x1 + (between + (y1 + after)), x2 + (between + (y2 + after)));
    if x1 == x2 {
      CancelPrefix(x1, between + (y1 + after), between + (y2 + after));
      CancelPrefix(between, y1 + after, y2 + after);
      CancelSuffix(y1, y2, after);
    }
    if y1 == y2 {
      CancelSuffix(x1, x2, between + (y1 + after));
    }
  }

  /** The prompt carries its diff recoverably: two diffs of the same file
      give the same prompt only if they are the same diff, and two paths
      with the same diff only if they are the same path. */
  lemma PromptDeterminesDiffInfo(w: Wording, diffInfo1: DiffInfo, diffInfo2: DiffInfo, testFramework: string)
    requires Render(w, diffInfo1, testFramework) == Render(w, diffInfo2, testFramework)
    ensures diffInfo1.file_path == diffInfo2.file_path ==> diffInfo1 == diffInfo2
    ensures diffInfo1.diff_content == diffInfo2.diff_content ==> diffInfo1 == diffInfo2
  {
    PromptLayout(w, diffInfo1, testFramework);
    PromptLayout(w, diffInfo2, testFramework);
    FrameSlots(BeforePath(w, testFramework), BetweenPathAndDiff(w), AfterDiff(w, testFramework),
               diffInfo1.file_path, diffInfo2.file_path, diffInfo1.diff_content, diffInfo2.diff_content);
  }

  /** The middle of a right-nested concatenation occurs in it. */
  lemma ContainsNested(a: string, x: string, b: string)
    ensures Contains(a + (x + b), x)
  {
    Assoc(a, x, b);
    ContainsMiddle(a, x, b);
  }

  /** Where the lead-in ends with the opening fence and the closing starts
      with the closing fence, the framed diff occurs in the whole. */
  lemma FramedInFrame(before: string, path: string, head: string, sep: string, open: string, diff: string, close: string, rest: string)
    ensures Contains(before + (path + (("`" + (sep + ((head + (sep + open)) + sep))) + (diff + (sep + (close + (sep + rest)))))),
                     open + (sep + (diff + (sep + close))))
  {
    var framed := open + (sep + (diff + (sep + close)));
    var back := sep + rest;
    var body := diff + (sep + (close + back));
    Assoc(sep, close, back);
    Assoc(diff, sep + close, back);
    Assoc(sep, diff + (sep + close), back);
    Assoc(open, sep + (diff + (sep + close)), back);
    assert open + (sep + body) == framed + back;
    var front := "`" + (sep + (head + sep));
    assert ("`" + (sep + ((head + (sep + open)) + sep))) + body == front + (framed + back) by {
      Assoc(sep, open, sep);
      Assoc(head, sep + open, sep);
      Assoc(head, sep, open + sep);
      Assoc(open, sep, body);
      Assoc(sep, open + sep, body);
      Assoc(head + sep, open + sep, body);
      Assoc(sep, head + sep, (open + sep) + body);
      Assoc(sep, (head + sep) + (open + sep), body);
      Assoc("`", sep + ((head + sep) + (open + sep)), body);
      Assoc(sep, head + sep, open + (sep + body));
      Assoc("`", sep + (head + sep), open + (sep + body));
    }
    Assoc(path, front, framed + back);
    Assoc(before, path + front, framed + back);
    ContainsNested(before + (path + front), framed, back);
  }

  /** The diff appears verbatim between the opening and the closing fence
      lines. */
  lemma DiffIsFenced(w: Wording, diffInfo: DiffInfo, testFramework: string)
    ensures Contains(Render(w, diffInfo, testFramework),
                     w.fenceOpen + (Newline + (diffInfo.diff_content + (Newline + w.fenceClose))))
  {
    var closing := Closing(w, testFramework);
    var lead := Lead(w);
    PromptLayout(w, diffInfo, testFramework);
    assert lead == lead[..2] + [w.fenceOpen];
    JoinConcat(lead[..2], [w.fenceOpen], Newline);
    assert closing == [w.fenceClose] + closing[1..];
    JoinCons(w.fenceClose, closing[1..], Newline);
    FramedInFrame(BeforePath(w, testFramework), diffInfo.file_path, Join(lead[..2], Newline), Newline,
                  w.fenceOpen, diffInfo.diff_content, w.fenceClose, Join(closing[1..], Newline));
  }

  /** The prompt opens with the line naming the framework, names the file,
      holds the escape, the request to analyze, the instructions heading
      and the request for code only, and ends with the instruction about
      comments. */
  lemma PromptFrame(w: Wording, diffInfo: DiffInfo, testFramework: string)
    ensures var prompt := Render(w, diffInfo, testFramework);
      && StartsWith(prompt, RoleLine(w, testFramework))
      && EndsWith(prompt, w.comments)
      && Contains(prompt, FileLine(w, diffInfo.file_path))
      && Contains(prompt, w.noTests)
      && Contains(prompt, w.analyze)
      && Contains(prompt, w.instructions)
      && Contains(prompt, w.onlyCode)
  {
    var lines := PromptLines(w, diffInfo, testFramework);
    JoinEnds(lines, Newline);
    JoinContainsPart(lines, Newline, 2);
    JoinContainsPart(lines, Newline, 4);
    JoinContainsPart(lines, Newline, 6);
    JoinContainsPart(lines, Newline, 15);
    JoinContainsPart(lines, Newline, 16);
  }

  /** The framework is substituted into lines 0, 11 and 13 and nowhere
      else: changing it leaves every other line as it was. */
  lemma FrameworkOnlyInItsLines(w: Wording, diffInfo: DiffInfo, framework1: string, framework2: string)
    ensures |PromptLines(w, diffInfo, framework1)| == |PromptLines(w, diffInfo, framework2)| == 19
    ensures forall i | 0 <= i < 19 && i != 0 && i != 11 && i != 13 ::
      PromptLines(w, diffInfo, framework1)[i] == PromptLines(w, diffInfo, framework2)[i]
    ensures var lines := PromptLines(w, diffInfo, framework1);
      && Contains(lines[0], framework1) && Contains(lines[11], framework1) && Contains(lines[13], framework1)
  {
    ContainsMiddle(w.rolePrefix, framework1, w.roleSuffix);
    ContainsMiddle(w.usingPrefix, framework1, ".");
    ContainsMiddle(w.conventionsPrefix, framework1, ".");
  }

  // ---------------------------------------------------------------------
  // The program's own prompt
  // ---------------------------------------------------------------------

  /** Left at its default, the framework is `pytest`. */
  lemma DefaultFrameworkIsPytest(diffInfo: DiffInfo)
    ensures CreateTestPromptForDiff(diffInfo) == CreateTestPromptForDiff(diffInfo, "pytest")
    ensures StartsWith(CreateTestPromptForDiff(diffInfo), RoleLine(SourceWording, "pytest"))
  {
  }

  /** An empty diff leaves the fence lines adjacent: "```diff\n\n```". */
  lemma EmptyDiffIsFenced(filePath: string, testFramework: string)
    ensures Contains(CreateTestPromptForDiff(DiffInfo(filePath, ""), testFramework), "```diff\n\n```")
  {
    var w := SourceWording;
    DiffIsFenced(w, DiffInfo(filePath, ""), testFramework);
    assert w.fenceOpen + (Newline + ("" + (Newline + w.fenceClose))) == "```diff\n\n```";
  }
}

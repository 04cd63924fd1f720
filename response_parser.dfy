/**
 * Extraction of the generated test code from the model's reply: the
 * "no tests needed" sentinel, then the first fenced Python block, then the
 * whole reply when it holds no fence at all.
 *
 * The one regular expression involved,
 *     ```(?:python|py)?\s*\n(.*?)\n```     (DOTALL, IGNORECASE)
 * is modelled by the search a backtracking engine performs for it: start
 * positions left to right; at each, the tag alternatives `python`, `py`,
 * none, in that order; for each, the whitespace run longest first; for each
 * run length that ends on a newline, the shortest content that is followed
 * by a newline and three backticks.  `IsMatch` states declaratively what a
 * match is, and the lemmas below tie the two together.
 */
module ResponseParser {
  import opened PyStr

  const Fence: string := "```"
  /** What ends the lazily captured content. */
  const ClosingFence: string := "\n```"
  const NoTestsNeededSentinel: string := "NO_TESTS_NEEDED"

  /** What the reply yields: code, the model's statement that no test is
      needed, or nothing usable.  The caller sees `None` for both of the
      latter. */
  datatype Extraction = Code(text: string) | NoTestsNeeded | NoCode

  /** The captured group of a match: `s[start..end]`. */
  datatype Group = Group(start: nat, end: nat)

  // ---------------------------------------------------------------------
  // The fence pattern, as the engine searches for it
  // ---------------------------------------------------------------------

  /** ASCII upper case of a lower-case letter. */
  function Upper(c: char): char {
    if 'a' <= c <= 'z' then (c as int - 32) as char else c
  }

  /** `word` (lower case) occurs at `i` when case is ignored.  None of the
      letters of `python` has a case-insensitive partner outside ASCII. */
  predicate WordAt(s: string, i: nat, word: string) {
    i + |word| <= |s| && forall k | 0 <= k < |word| :: s[i + k] == word[k] || s[i + k] == Upper(word[k])
  }

  /** A tag of length `t` may be read at `q`: the empty tag, `py` or
      `python`. */
  predicate TagAt(s: string, q: nat, t: nat) {
    t == 0 || (t == 2 && WordAt(s, q, "py")) || (t == 6 && WordAt(s, q, "python"))
  }

  /** The lengths of the tag alternatives that apply at `q`, in the order
      the engine tries them: `python`, `py`, then the empty tag. */
  function TagLengths(s: string, q: nat): (r: seq<nat>)
    requires q <= |s|
    ensures |r| >= 1 && r[|r| - 1] == 0
    ensures forall i | 0 <= i < |r| :: q + r[i] <= |s| && TagAt(s, q, r[i])
  {
    (if WordAt(s, q, "python") then [6] else []) + (if WordAt(s, q, "py") then [2] else []) + [0]
  }

  /** The length of the whitespace run starting at `q` (what a greedy `\s*`
      first takes). */
  function SpaceRun(s: string, q: nat): (n: nat)
    requires q <= |s|
    ensures q + n <= |s|
    ensures q + n < |s| ==> !IsSpace(s[q + n])
    decreases |s| - q
  {
    if q < |s| && IsSpace(s[q]) then 1 + SpaceRun(s, q + 1) else 0
  }

  /** `\s*\n(.*?)\n``` ` tried at `q` with the whitespace run cut to `k`,
      then `k - 1`, ..., `0` characters: the first cut that ends on a newline
      and has a closing fence somewhere after it wins, with the shortest
      content. */
  function Backtrack(s: string, q: nat, k: nat): (r: Option<Group>)
    requires q + k <= |s|
    ensures r.Some? ==> q < r.value.start <= q + k + 1 && r.value.start <= r.value.end
    ensures r.Some? ==> OccursAt(s, ClosingFence, r.value.end) && s[r.value.start - 1] == '\n'
    decreases k
  {
    var close := if q + k < |s| && s[q + k] == '\n' then FindFrom(s, ClosingFence, q + k + 1) else None;
    if close.Some? then Some(Group(q + k + 1, close.value))
    else if k == 0 then None
    else Backtrack(s, q, k - 1)
  }

  /** The tag alternatives `tags`, tried in order after the opening fence
      that ends at `q`. */
  function TryTags(s: string, q: nat, tags: seq<nat>): (r: Option<Group>)
    requires forall i | 0 <= i < |tags| :: q + tags[i] <= |s|
    ensures r.Some? ==> q < r.value.start <= r.value.end
    ensures r.Some? ==> OccursAt(s, ClosingFence, r.value.end)
    decreases |tags|
  {
    if tags == [] then None
    else
      var r := TagTry(s, q, tags[0]);
      if r.Some? then r else TryTags(s, q, tags[1..])
  }

  /** The tag alternative of length `t` alone: a greedy whitespace run after
      it, backtracked. */
  function TagTry(s: string, q: nat, t: nat): (r: Option<Group>)
    requires q + t <= |s|
    ensures r.Some? ==> q + t < r.value.start <= r.value.end && OccursAt(s, ClosingFence, r.value.end)
  {
    Backtrack(s, q + t, SpaceRun(s, q + t))
  }

  /** The match the engine finds when it starts at `p`, if any. */
  function MatchAt(s: string, p: nat): (r: Option<Group>)
    ensures r.Some? ==> p + 3 < r.value.start <= r.value.end && OccursAt(s, ClosingFence, r.value.end)
  {
    if OccursAt(s, Fence, p) then TryTags(s, p + 3, TagLengths(s, p + 3)) else None
  }

  /** `re.search`: the match at the first start position, from `p` on,
      where there is one. */
  function Search(s: string, p: nat): (r: Option<Group>)
    ensures r.Some? ==> r.value.start <= r.value.end <= |s|
    decreases |s| + 1 - p
  {
    if p > |s| then None
    else match MatchAt(s, p)
      case Some(g) => Some(g)
      case None => Search(s, p + 1)
  }

  // ---------------------------------------------------------------------
  // The pattern, stated declaratively
  // ---------------------------------------------------------------------

  /** After a tag ending at `at`: whitespace that ends in a newline, then
      the group `g`, which runs up to the first closing fence after it. */
  predicate AfterTag(s: string, at: nat, g: Group) {
    && at < g.start <= g.end
    && OccursAt(s, ClosingFence, g.end)
    && IsBlank(s[at .. g.start - 1]) && s[g.start - 1] == '\n'
    && forall k | g.start <= k < g.end :: !OccursAt(s, ClosingFence, k)
  }

  /** `s` matches the fence pattern from `p`, with a tag of length `t` and
      captured group `g`. */
  predicate IsMatch(s: string, p: nat, t: nat, g: Group) {
    OccursAt(s, Fence, p) && TagAt(s, p + 3, t) && AfterTag(s, p + 3 + t, g)
  }

  /** The whitespace run is blank. */
  lemma {:induction false} SpaceRunBlank(s: string, q: nat)
    requires q <= |s|
    ensures IsBlank(s[q .. q + SpaceRun(s, q)])
    decreases |s| - q
  {
    if q < |s| && IsSpace(s[q]) {
      SpaceRunBlank(s, q + 1);
      var run := s[q .. q + SpaceRun(s, q)];
      var rest := s[q + 1 .. q + SpaceRun(s, q)];
      assert run == [s[q]] + rest;
    }
  }

  /** The whitespace run takes in every space character up to `j`. */
  lemma {:induction false} SpaceRunCovers(s: string, q: nat, j: nat)
    requires q <= j < |s|
    requires forall i | q <= i <= j :: IsSpace(s[i])
    ensures SpaceRun(s, q) > j - q
    decreases j - q
  {
  }

  /** What the backtracking over the whitespace run returns is a match of
      the rest of the pattern. */
  lemma {:induction false} BacktrackSound(s: string, q: nat, k: nat)
    requires q + k <= |s| && IsBlank(s[q .. q + k])
    ensures Backtrack(s, q, k).Some? ==> AfterTag(s, q, Backtrack(s, q, k).value)
    decreases k
  {
    var close := if q + k < |s| && s[q + k] == '\n' then FindFrom(s, ClosingFence, q + k + 1) else None;
    if close.None? && k > 0 {
      var run := s[q .. q + k];
      var shorter := s[q .. q + k - 1];
      assert IsBlank(shorter) by {
        forall i | 0 <= i < |shorter| ensures IsSpace(shorter[i]) {
          assert shorter[i] == run[i];
        }
      }
      BacktrackSound(s, q, k - 1);
    }
  }

  /** If some cut of the whitespace run, no longer than `k`, ends on a
      newline that a closing fence follows, the backtracking finds a match. */
  lemma {:induction false} BacktrackComplete(s: string, q: nat, k: nat, j: nat)
    requires q + k <= |s| && j <= k && q + j < |s| && s[q + j] == '\n'
    requires FindFrom(s, ClosingFence, q + j + 1).Some?
    ensures Backtrack(s, q, k).Some?
    decreases k
  {
    if j < k && !(q + k < |s| && s[q + k] == '\n' && FindFrom(s, ClosingFence, q + k + 1).Some?) {
      BacktrackComplete(s, q, k - 1, j);
    }
  }

  /** The rest of the pattern after a tag matches exactly when the
      backtracking over the whitespace run finds a match. */
  lemma AfterTagFound(s: string, at: nat, g: Group)
    requires at <= |s| && AfterTag(s, at, g)
    ensures Backtrack(s, at, SpaceRun(s, at)).Some?
  {
    var j := g.start - 1 - at;
    assert forall i | at <= i <= at + j :: IsSpace(s[i]) by {
      forall i | at <= i <= at + j ensures IsSpace(s[i]) {
        if i < at + j {
          assert s[i] == s[at .. g.start - 1][i - at];
        }
      }
    }
    SpaceRunCovers(s, at, at + j);
    assert FindFrom(s, ClosingFence, g.start).Some?;
    BacktrackComplete(s, at, SpaceRun(s, at), j);
  }

  /** What the tag alternatives return is a match of the pattern after the
      opening fence, with one of the tags. */
  lemma {:induction false} TryTagsSound(s: string, q: nat, tags: seq<nat>)
    requires forall i | 0 <= i < |tags| :: q + tags[i] <= |s| && TagAt(s, q, tags[i])
    ensures TryTags(s, q, tags).Some? ==>
      exists t: nat :: TagAt(s, q, t) && AfterTag(s, q + t, TryTags(s, q, tags).value)
    decreases |tags|
  {
    if tags != [] {
      var at := q + tags[0];
      SpaceRunBlank(s, at);
      BacktrackSound(s, at, SpaceRun(s, at));
      if Backtrack(s, at, SpaceRun(s, at)).None? {
        TryTagsSound(s, q, tags[1..]);
      }
    }
  }

  /** If any of the tag alternatives leads to a match, trying them in order
      finds one. */
  lemma {:induction false} TryTagsComplete(s: string, q: nat, tags: seq<nat>, i: nat)
    requires forall i | 0 <= i < |tags| :: q + tags[i] <= |s|
    requires i < |tags| && Backtrack(s, q + tags[i], SpaceRun(s, q + tags[i])).Some?
    ensures TryTags(s, q, tags).Some?
    decreases |tags|
  {
    if i > 0 && Backtrack(s, q + tags[0], SpaceRun(s, q + tags[0])).None? {
      TryTagsComplete(s, q, tags[1..], i - 1);
    }
  }

  /** The engine's match at `p` is a match of the pattern. */
  lemma MatchAtSound(s: string, p: nat)
    ensures MatchAt(s, p).Some? ==> exists t: nat :: IsMatch(s, p, t, MatchAt(s, p).value)
  {
    if MatchAt(s, p).Some? {
      var g := MatchAt(s, p).value;
      TryTagsSound(s, p + 3, TagLengths(s, p + 3));
      var t: nat :| TagAt(s, p + 3, t) && AfterTag(s, p + 3 + t, g);
      assert IsMatch(s, p, t, g);
    }
  }

  /** Wherever the pattern matches, the engine finds a match at that
      position (not necessarily the same one: the tag and cut it prefers
      come first). */
  lemma MatchAtComplete(s: string, p: nat, t: nat, g: Group)
    requires IsMatch(s, p, t, g)
    ensures MatchAt(s, p).Some?
  {
    var q := p + 3;
    var tags := TagLengths(s, q);
    var i: nat := if t == 6 then 0 else if t == 2 then |tags| - 2 else |tags| - 1;
    assert tags[i] == t;
    AfterTagFound(s, q + t, g);
    TryTagsComplete(s, q, tags, i);
  }

  /** The whitespace after a tag starts right away: its first character
      is a space (the newline ending it, when it is empty). */
  lemma AfterTagStartsWithSpace(s: string, at: nat, g: Group)
    requires AfterTag(s, at, g)
    ensures at < |s| && IsSpace(s[at])
  {
    if at < g.start - 1 {
      assert s[at] == s[at .. g.start - 1][0];
    }
  }

  /** A letter of a word read with case ignored is not whitespace. */
  lemma LetterNotSpace(s: string, i: nat, word: string, k: nat)
    requires WordAt(s, i, word) && k < |word| && 'a' <= word[k] <= 'z'
    ensures !IsSpace(s[i + k])
  {
  }

  /** At most one tag alternative leads to a match at a position: `python`
      continues with `t` where `py` needs whitespace, and both start with
      `p` where the empty tag needs whitespace. */
  lemma OneTagMatches(s: string, p: nat, t: nat, g: Group, t': nat, g': Group)
    requires IsMatch(s, p, t, g) && IsMatch(s, p, t', g')
    ensures t == t'
  {
    var q := p + 3;
    AfterTagStartsWithSpace(s, q + t, g);
    AfterTagStartsWithSpace(s, q + t', g');
    if t == 6 || t' == 6 {
      LetterNotSpace(s, q, "python", 0);
      LetterNotSpace(s, q, "python", 2);
    } else if t == 2 || t' == 2 {
      LetterNotSpace(s, q, "py", 0);
    }
  }

  /** The backtracking over a whitespace run of `k` characters returns the
      match with the longest run: no match after the tag whose run fits in
      `k` characters starts later. */
  lemma {:induction false} BacktrackLongest(s: string, q: nat, k: nat, g: Group)
    requires q + k <= |s| && Backtrack(s, q, k).Some?
    requires AfterTag(s, q, g) && g.start - 1 - q <= k
    ensures g.start <= Backtrack(s, q, k).value.start
    decreases k
  {
    assert s[g.start - 1] == '\n';
    assert FindFrom(s, ClosingFence, g.start).Some?;
    var close := if q + k < |s| && s[q + k] == '\n' then FindFrom(s, ClosingFence, q + k + 1) else None;
    if close.None? {
      BacktrackLongest(s, q, k - 1, g);
    }
  }

  /** The tag alternatives return what the backtracking returns for one of
      them. */
  lemma {:induction false} TryTagsPicks(s: string, q: nat, tags: seq<nat>) returns (i: nat)
    requires forall i | 0 <= i < |tags| :: q + tags[i] <= |s|
    requires TryTags(s, q, tags).Some?
    ensures i < |tags| && TryTags(s, q, tags) == TagTry(s, q, tags[i])
    decreases |tags|
  {
    if TagTry(s, q, tags[0]).Some? {
      i := 0;
    } else {
      var j := TryTagsPicks(s, q, tags[1..]);
      i := j + 1;
    }
  }

  /** The engine's match at `p` is the backtracking's over the whitespace
      run after one tag, and it is a match with that tag. */
  lemma MatchAtPicks(s: string, p: nat) returns (t: nat)
    requires MatchAt(s, p).Some?
    ensures p + 3 + t <= |s| && MatchAt(s, p) == Backtrack(s, p + 3 + t, SpaceRun(s, p + 3 + t))
    ensures IsMatch(s, p, t, MatchAt(s, p).value)
  {
    var q := p + 3;
    var tags := TagLengths(s, q);
    var i := TryTagsPicks(s, q, tags);
    t := tags[i];
    var at := q + t;
    SpaceRunBlank(s, at);
    BacktrackSound(s, at, SpaceRun(s, at));
  }

  /** The whitespace before a match's group is within the run a greedy
      `\s*` takes. */
  lemma RunCoversGroup(s: string, at: nat, g: Group)
    requires at <= |s| && AfterTag(s, at, g)
    ensures g.start - 1 - at <= SpaceRun(s, at)
  {
    var j := g.start - 1 - at;
    assert forall m | at <= m <= at + j :: IsSpace(s[m]) by {
      forall m | at <= m <= at + j ensures IsSpace(s[m]) {
        if m < at + j {
          assert s[m] == s[at .. g.start - 1][m - at];
        }
      }
    }
    SpaceRunCovers(s, at, at + j);
  }

  /** Of the matches at `p`, the engine takes the one with the longest
      whitespace run before the group, as a greedy `\s*` does. */
  lemma MatchAtLongest(s: string, p: nat, t: nat, g: Group)
    requires IsMatch(s, p, t, g)
    ensures MatchAt(s, p).Some? && g.start <= MatchAt(s, p).value.start
  {
    MatchAtComplete(s, p, t, g);
    var t0 := MatchAtPicks(s, p);
    OneTagMatches(s, p, t, g, t0, MatchAt(s, p).value);
    var at := p + 3 + t;
    RunCoversGroup(s, at, g);
    BacktrackLongest(s, at, SpaceRun(s, at), g);
  }

  /** The engine finds no match at any position in `[p0, p)`. */
  predicate NoMatchBetween(s: string, p0: nat, p: nat) {
    forall p' | p0 <= p' < p :: MatchAt(s, p').None?
  }

  /** The search from `p0` returns the engine's match at the first position
      where it finds one. */
  lemma {:induction false} SearchSound(s: string, p0: nat)
    ensures Search(s, p0).Some? ==>
      exists p: nat :: p0 <= p <= |s| && MatchAt(s, p) == Search(s, p0) && NoMatchBetween(s, p0, p)
    decreases |s| + 1 - p0
  {
    if p0 <= |s| {
      var here := MatchAt(s, p0);
      if here.Some? {
        assert Search(s, p0) == here;
        assert NoMatchBetween(s, p0, p0);
        assert p0 <= p0 <= |s| && MatchAt(s, p0) == Search(s, p0) && NoMatchBetween(s, p0, p0);
      } else {
        assert Search(s, p0) == Search(s, p0 + 1);
        if Search(s, p0 + 1).Some? {
          SearchSound(s, p0 + 1);
          var p :| p0 + 1 <= p <= |s| && MatchAt(s, p) == Search(s, p0 + 1) && NoMatchBetween(s, p0 + 1, p);
          assert NoMatchBetween(s, p0, p) by {
            forall p' | p0 <= p' < p ensures MatchAt(s, p').None? {
              if p' > p0 {
                assert p0 + 1 <= p' < p;
              }
            }
          }
          assert p0 <= p <= |s| && MatchAt(s, p) == Search(s, p0) && NoMatchBetween(s, p0, p);
        }
      }
    }
  }

  /** A match at or after `p0` is not missed. */
  lemma {:induction false} SearchComplete(s: string, p0: nat, p: nat)
    requires p0 <= p && MatchAt(s, p).Some?
    ensures Search(s, p0).Some?
    decreases p - p0
  {
    if p0 < p && MatchAt(s, p0).None? {
      SearchComplete(s, p0 + 1, p);
    }
  }

  /** The search result is the leftmost match of the pattern: it matches
      from some position `p`, and the pattern matches nowhere before `p`;
      of the matches at `p`, it is the one whose group starts last (the
      longest whitespace run). */
  lemma SearchIsLeftmost(s: string)
    ensures Search(s, 0).Some? ==> exists p: nat, t: nat ::
      && IsMatch(s, p, t, Search(s, 0).value)
      && (forall p': nat, t': nat, g' | p' < p :: !IsMatch(s, p', t', g'))
      && (forall t': nat, g' | IsMatch(s, p, t', g') :: g'.start <= Search(s, 0).value.start)
  {
    SearchSound(s, 0);
    if Search(s, 0).Some? {
      var p: nat :| p <= |s| && MatchAt(s, p) == Search(s, 0) && NoMatchBetween(s, 0, p);
      MatchAtSound(s, p);
      var t: nat :| IsMatch(s, p, t, MatchAt(s, p).value);
      NoMatchBefore(s, p);
      LongestAt(s, p);
    }
  }

  /** Where the engine finds no match, the pattern matches nowhere. */
  lemma NoMatchBefore(s: string, p: nat)
    requires NoMatchBetween(s, 0, p)
    ensures forall p': nat, t': nat, g' | p' < p :: !IsMatch(s, p', t', g')
  {
    forall p': nat, t': nat, g' | p' < p ensures !IsMatch(s, p', t', g') {
      if IsMatch(s, p', t', g') {
        MatchAtComplete(s, p', t', g');
      }
    }
  }

  /** Every match at `p` starts its group no later than the engine's. */
  lemma LongestAt(s: string, p: nat)
    requires MatchAt(s, p).Some?
    ensures forall t': nat, g' | IsMatch(s, p, t', g') :: g'.start <= MatchAt(s, p).value.start
  {
    forall t': nat, g' | IsMatch(s, p, t', g') ensures g'.start <= MatchAt(s, p).value.start {
      MatchAtLongest(s, p, t', g');
    }
  }

  /** The search finds nothing exactly when the pattern matches nowhere. */
  lemma SearchFailsOnlyWithoutMatch(s: string)
    ensures Search(s, 0).None? <==> forall p: nat, t: nat, g :: !IsMatch(s, p, t, g)
  {
    SearchIsLeftmost(s);
    forall p: nat, t: nat, g | IsMatch(s, p, t, g) ensures Search(s, 0).Some? {
      MatchAtComplete(s, p, t, g);
      SearchComplete(s, 0, p);
    }
  }

  // ---------------------------------------------------------------------
  // The extraction
  // ---------------------------------------------------------------------

  /** What `extract_python_code_from_response` makes of the reply, before
      the two empty outcomes are merged into `None`. */
  function Extract(aiResponse: string): Extraction {
    if aiResponse == "" then NoCode
    else if Strip(aiResponse) == NoTestsNeededSentinel then NoTestsNeeded
    else match Search(aiResponse, 0)
      case Some(g) => Code(Strip(aiResponse[g.start..g.end]))
      case None =>
        if !Contains(aiResponse, Fence) && Strip(aiResponse) != "" then Code(Strip(aiResponse))
        else NoCode
  }

  /** `extract_python_code_from_response`: the code, or `None`. */
  function ExtractPythonCodeFromResponse(aiResponse: string): Option<string> {
    match Extract(aiResponse)
    case Code(text) => Some(text)
    case _ => None
  }

  // ---------------------------------------------------------------------
  // What the extraction promises
  // ---------------------------------------------------------------------

  /** Without an opening fence anywhere, the search finds nothing. */
  lemma {:induction false} SearchWithoutFence(s: string, p0: nat)
    requires !Contains(s, Fence)
    ensures Search(s, p0).None?
    decreases |s| + 1 - p0
  {
    if p0 <= |s| {
      assert !OccursAt(s, Fence, p0);
      SearchWithoutFence(s, p0 + 1);
    }
  }

  /** A reply that strips to the sentinel means "no tests needed", which
      the caller sees as `None`; no other reply does. */
  lemma SentinelMeansNoTests(aiResponse: string)
    ensures Extract(aiResponse) == NoTestsNeeded <==> Strip(aiResponse) == NoTestsNeededSentinel
    ensures Strip(aiResponse) == NoTestsNeededSentinel ==> ExtractPythonCodeFromResponse(aiResponse) == None
  {
  }

  /** A reply with no fence at all is taken as code, stripped, unless it is
      blank or the sentinel. */
  lemma ExtractUnfenced(aiResponse: string)
    requires !Contains(aiResponse, Fence) && Strip(aiResponse) != NoTestsNeededSentinel
    ensures Strip(aiResponse) == "" ==> Extract(aiResponse) == NoCode
    ensures Strip(aiResponse) != "" ==> Extract(aiResponse) == Code(Strip(aiResponse))
  {
    SearchWithoutFence(aiResponse, 0);
    if aiResponse == "" {
      assert Strip(aiResponse) == "";
    }
  }

  /** When the fence pattern matches somewhere, the result is the stripped
      group of the leftmost match, and of the matches there, of the one
      with the longest whitespace run before the group. */
  lemma ExtractFenced(aiResponse: string, p: nat, t: nat, g: Group)
    requires IsMatch(aiResponse, p, t, g) && Strip(aiResponse) != NoTestsNeededSentinel
    ensures exists p': nat, t': nat, g' ::
      && p' <= p
      && IsMatch(aiResponse, p', t', g')
      && (forall p'': nat, t'': nat, g'' | p'' < p' :: !IsMatch(aiResponse, p'', t'', g''))
      && (forall t'': nat, g'' | IsMatch(aiResponse, p', t'', g'') :: g''.start <= g'.start)
      && Extract(aiResponse) == Code(Strip(aiResponse[g'.start .. g'.end]))
  {
    SearchFailsOnlyWithoutMatch(aiResponse);
    SearchIsLeftmost(aiResponse);
    var r := Search(aiResponse, 0).value;
    assert aiResponse != "";
    assert Extract(aiResponse) == Code(Strip(aiResponse[r.start .. r.end]));
    var p': nat, t': nat :| && IsMatch(aiResponse, p', t', r)
      && (forall p'': nat, t'': nat, g'' | p'' < p' :: !IsMatch(aiResponse, p'', t'', g''))
      && (forall t'': nat, g'' | IsMatch(aiResponse, p', t'', g'') :: g''.start <= r.start);
    assert p' <= p;
  }

  /** A reply that holds a fence but no match of the fence pattern (an
      unterminated block, a block tagged with another language) yields
      nothing. */
  lemma FenceWithoutMatch(aiResponse: string)
    requires Contains(aiResponse, Fence)
    requires forall p: nat, t: nat, g :: !IsMatch(aiResponse, p, t, g)
    ensures Extract(aiResponse) == NoCode
  {
    SearchFailsOnlyWithoutMatch(aiResponse);
    var i :| 0 <= i <= |aiResponse| && OccursAt(aiResponse, Fence, i);
    FenceIsNotSentinel(aiResponse, i);
  }

  /** A reply holding a fence is not the sentinel, however stripped. */
  lemma FenceIsNotSentinel(s: string, i: nat)
    requires OccursAt(s, Fence, i)
    ensures Strip(s) != NoTestsNeededSentinel
  {
    assert s[i] == s[i .. i + 3][0];
    StripKeepsNonSpace(s, i);
    assert '`' !in NoTestsNeededSentinel;
  }

  /** A closing fence contains an opening one. */
  lemma ClosingFenceHasFence(s: string)
    requires Contains(s, ClosingFence)
    ensures Contains(s, Fence)
  {
    var k :| 0 <= k <= |s| && OccursAt(s, ClosingFence, k);
    assert s[k + 1 .. k + 4] == ClosingFence[1..];
    assert OccursAt(s, Fence, k + 1);
  }

  /** The group of a match holds no closing fence. */
  lemma GroupHasNoClosingFence(s: string, at: nat, g: Group)
    requires AfterTag(s, at, g) && g.end <= |s|
    ensures !Contains(s[g.start .. g.end], ClosingFence)
  {
    var group := s[g.start .. g.end];
    forall k | 0 <= k <= |group| && OccursAt(group, ClosingFence, k) ensures false {
      assert group[k .. k + 4] == s[g.start + k .. g.start + k + 4];
      assert OccursAt(s, ClosingFence, g.start + k);
    }
  }

  /** Stripping a text free of closing fences gives a text that is its own
      strip and still free of them. */
  lemma StripKeepsClean(raw: string)
    requires !Contains(raw, ClosingFence)
    ensures Strip(Strip(raw)) == Strip(raw) && !Contains(Strip(raw), ClosingFence)
  {
    StripIdempotent(raw);
    var c := Strip(raw);
    var i := StripSlice(raw);
    if Contains(c, ClosingFence) {
      ContainsSlice(raw, i, i + |c|, ClosingFence);
    }
  }

  /** Extracted code has no surrounding whitespace and never contains the
      newline-and-fence that would have closed its block. */
  lemma ExtractedCodeIsClean(aiResponse: string)
    ensures Extract(aiResponse).Code? ==>
      var c := Extract(aiResponse).text;
      Strip(c) == c && !Contains(c, ClosingFence)
  {
    var found := Search(aiResponse, 0);
    if found.Some? {
      var g := found.value;
      SearchIsLeftmost(aiResponse);
      var p: nat, t: nat :| IsMatch(aiResponse, p, t, g);
      GroupHasNoClosingFence(aiResponse, p + 3 + t, g);
      StripKeepsClean(aiResponse[g.start .. g.end]);
    } else if !Contains(aiResponse, Fence) {
      if Contains(aiResponse, ClosingFence) {
        ClosingFenceHasFence(aiResponse);
      }
      StripKeepsClean(aiResponse);
    }
  }

  /** The whitespace after a tag, the newline that ends it included, is
      all space. */
  lemma BlankBeforeGroup(s: string, at: nat, g: Group)
    requires AfterTag(s, at, g)
    ensures forall i | at <= i < g.start :: IsSpace(s[i])
  {
  }

  /** When the text between `st` and a newline at `e` holds no closing
      fence, the first closing fence from `st` on is not before `e`. */
  lemma NoClosingFenceBefore(s: string, st: nat, e: nat)
    requires st <= e < |s| && s[e] == '\n' && !Contains(s[st..e], ClosingFence)
    ensures forall k | st <= k < e :: !OccursAt(s, ClosingFence, k)
  {
    var cut := s[st..e];
    assert |ClosingFence| == 4;
    forall k | st <= k < e ensures !OccursAt(s, ClosingFence, k) {
      if k + 4 <= e {
        var inCut, inS := cut[k - st .. k - st + 4], s[k .. k + 4];
        forall m | 0 <= m < 4 ensures inCut[m] == inS[m] {
          assert cut[k - st + m] == s[st + (k - st + m)];
        }
        assert inCut == inS;
        assert !OccursAt(cut, ClosingFence, k - st);
      } else if k + 4 <= |s| {
        assert s[k .. k + 4][e - k] == '\n';
      }
    }
  }

  /** Where the parts of a reply holding a ```python block lie. */
  lemma PythonBlockLayout(pre: string, code: string, post: string)
    ensures var s := pre + Fence + "python" + "\n" + code + ClosingFence + post;
      var P := |pre|;
      var e := P + 10 + |code|;
      && |s| == e + 4 + |post|
      && s[..P] == pre && s[P .. P + 3] == Fence && s[P + 3 .. P + 9] == "python"
      && s[P + 9] == '\n' && s[P + 10 .. e] == code && s[e .. e + 4] == ClosingFence
  {
  }

  /** The block is a match of the fence pattern, with the tag `python`
      and the code as its group. */
  lemma PythonBlockMatches(pre: string, code: string, post: string)
    requires !Contains(code, ClosingFence)
    ensures var s := pre + Fence + "python" + "\n" + code + ClosingFence + post;
      IsMatch(s, |pre|, 6, Group(|pre| + 10, |pre| + 10 + |code|))
  {
    var s := pre + Fence + "python" + "\n" + code + ClosingFence + post;
    PythonBlockLayout(pre, code, post);
    var P := |pre|;
    var q := P + 3;
    var st := P + 10;
    var e := st + |code|;
    assert WordAt(s, q, "python") by {
      forall k | 0 <= k < 6 ensures s[q + k] == "python"[k] {
        assert s[q + k] == s[q .. q + 6][k];
      }
    }
    NoClosingFenceBefore(s, st, e);
    assert s[P + 9 .. st - 1] == [];
    assert AfterTag(s, P + 9, Group(st, e));
  }

  /** With no backtick before `P`, and a ```python tag followed by a
      newline and a non-space at `P`, the block at `P` is the only match
      that starts at or before `P`. */
  lemma OnlyMatchUpTo(s: string, P: nat, g: Group)
    requires P + 10 < |s| && (forall i | 0 <= i < P :: s[i] != '`')
    requires s[P + 3] == 'p' && s[P + 5] == 't' && s[P + 9] == '\n' && !IsSpace(s[P + 10])
    requires IsMatch(s, P, 6, g) && g.start == P + 10
    ensures forall p': nat, t': nat, g' | p' <= P && IsMatch(s, p', t', g') :: p' == P && g' == g
  {
    forall p': nat, t': nat, g' | p' <= P && IsMatch(s, p', t', g') ensures p' == P && g' == g {
      assert s[p'] == s[p' .. p' + 3][0];
      BlankBeforeGroup(s, P + 3 + t', g');
      assert t' == 6;
    }
  }

  /** The block at `P` described above is what the reply yields. */
  lemma FencedAt(s: string, P: nat, g: Group)
    requires P + 10 < |s| && (forall i | 0 <= i < P :: s[i] != '`')
    requires s[P + 3] == 'p' && s[P + 5] == 't' && s[P + 9] == '\n' && !IsSpace(s[P + 10])
    requires IsMatch(s, P, 6, g) && g.start == P + 10
    ensures Extract(s) == Code(Strip(s[g.start .. g.end]))
  {
    FenceIsNotSentinel(s, P);
    OnlyMatchUpTo(s, P, g);
    ExtractFenced(s, P, 6, g);
  }

  /** The characters of a reply holding a ```python block that the
      uniqueness argument looks at. */
  lemma PythonBlockShape(pre: string, code: string, post: string)
    requires forall i | 0 <= i < |pre| :: pre[i] != '`'
    requires code != [] && !IsSpace(code[0])
    ensures var s := pre + Fence + "python" + "\n" + code + ClosingFence + post;
      var P := |pre|;
      && P + 10 < |s| && (forall i | 0 <= i < P :: s[i] != '`')
      && s[P + 3] == 'p' && s[P + 5] == 't' && s[P + 9] == '\n' && !IsSpace(s[P + 10])
      && P + 10 + |code| <= |s| && s[P + 10 .. P + 10 + |code|] == code
  {
  }

  /** A reply holding a ```python block whose code starts with a
      non-space and holds no closing fence, with no backtick before the
      block, yields that code, stripped, whatever follows the block. */
  lemma FencedPythonBlock(pre: string, code: string, post: string)
    requires forall i | 0 <= i < |pre| :: pre[i] != '`'
    requires code != [] && !IsSpace(code[0]) && !Contains(code, ClosingFence)
    ensures Extract(pre + Fence + "python" + "\n" + code + ClosingFence + post) == Code(Strip(code))
  {
    var s := pre + Fence + "python" + "\n" + code + ClosingFence + post;
    PythonBlockShape(pre, code, post);
    PythonBlockMatches(pre, code, post);
    FencedCode(s, |pre|, code);
  }

  /** The conclusion of `FencedAt` for a block whose group is `code`. */
  lemma FencedCode(s: string, P: nat, code: string)
    requires P + 10 < |s| && (forall i | 0 <= i < P :: s[i] != '`')
    requires s[P + 3] == 'p' && s[P + 5] == 't' && s[P + 9] == '\n' && !IsSpace(s[P + 10])
    requires P + 10 + |code| <= |s| && s[P + 10 .. P + 10 + |code|] == code
    requires IsMatch(s, P, 6, Group(P + 10, P + 10 + |code|))
    ensures Extract(s) == Code(Strip(code))
  {
    FencedAt(s, P, Group(P + 10, P + 10 + |code|));
  }

  /** A match has a newline before its group and another opening its
      closing fence. */
  lemma MatchNewlines(s: string, p: nat, t: nat, g: Group)
    ensures IsMatch(s, p, t, g) ==>
      (g.start - 1 < g.end < |s| && s[g.start - 1] == '\n' && s[g.end] == '\n')
  {
  }

  /** A reply where only one newline occurs matches the fence pattern
      nowhere. */
  lemma OneNewlineNoMatch(s: string, n: nat)
    requires forall i | 0 <= i < |s| && s[i] == '\n' :: i == n
    ensures forall p: nat, t: nat, g :: !IsMatch(s, p, t, g)
  {
    forall p: nat, t: nat, g ensures !IsMatch(s, p, t, g) {
      MatchNewlines(s, p, t, g);
    }
  }

  /** An opening fence with its tag, a newline and at once the closing
      three backticks is no match: the pattern wants a newline before the
      closing fence as well, so such a reply yields nothing. */
  lemma EmptyFencedBlock(tag: string)
    requires forall i | 0 <= i < |tag| :: tag[i] != '\n'
    ensures Extract(Fence + tag + "\n" + Fence) == NoCode
  {
    var s := Fence + tag + "\n" + Fence;
    var n := 3 + |tag|;
    forall i | 0 <= i < |s| && i != n ensures s[i] != '\n' {
      if i < 3 {
        assert s[i] == Fence[i];
      } else if i < n {
        assert s[i] == tag[i - 3];
      } else {
        assert s[i] == Fence[i - n - 1];
      }
    }
    OneNewlineNoMatch(s, n);
    assert OccursAt(s, Fence, 0);
    FenceWithoutMatch(s);
  }

  /** The reply "```python\n```" yields `None`, not the empty string. */
  lemma EmptyPythonBlockYieldsNothing(aiResponse: string)
    requires aiResponse == "```python\n```"
    ensures ExtractPythonCodeFromResponse(aiResponse) == None
  {
    assert aiResponse == Fence + "python" + "\n" + Fence;
    EmptyFencedBlock("python");
  }

  /** A reply without backticks whose ends are not blank is returned
      whole. */
  lemma UnfencedTextIsCode(aiResponse: string)
    requires '`' !in aiResponse
    requires aiResponse != [] && !IsSpace(aiResponse[0]) && !IsSpace(aiResponse[|aiResponse| - 1])
    requires aiResponse != NoTestsNeededSentinel
    ensures ExtractPythonCodeFromResponse(aiResponse) == Some(aiResponse)
  {
    assert !Contains(aiResponse, Fence) by {
      forall i | 0 <= i <= |aiResponse| ensures !OccursAt(aiResponse, Fence, i) {
        if i < |aiResponse| {
          assert i + 3 > |aiResponse| || aiResponse[i .. i + 3][0] == aiResponse[i];
          assert aiResponse[i] != '`';
        }
      }
    }
    StripFixed(aiResponse);
    ExtractUnfenced(aiResponse);
  }

  /** The bare sentinel yields `None`. */
  lemma BareSentinelYieldsNothing(aiResponse: string)
    requires aiResponse == NoTestsNeededSentinel
    ensures ExtractPythonCodeFromResponse(aiResponse) == None
  {
  }

  /** A blank reply, empty or whitespace only, yields nothing. */
  lemma BlankReplyYieldsNothing(aiResponse: string)
    requires IsBlank(aiResponse)
    ensures Extract(aiResponse) == NoCode
  {
    StripShape(aiResponse);
    assert !Contains(aiResponse, Fence) by {
      forall i | 0 <= i <= |aiResponse| ensures !OccursAt(aiResponse, Fence, i) {
        if i < |aiResponse| {
          assert i + 3 > |aiResponse| || aiResponse[i .. i + 3][0] == aiResponse[i];
          assert IsSpace(aiResponse[i]);
        }
      }
    }
    ExtractUnfenced(aiResponse);
  }
}

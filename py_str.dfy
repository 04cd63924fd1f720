/**
 * The handful of Python `str` built-ins the diff2test pipeline is made of:
 * `strip`, `rstrip`, `startswith`, `endswith`, `in`, `split`, `splitlines`
 * and `join`, each modelled on `seq<char>` with the semantics CPython gives
 * them for `str` (Unicode) values.
 */
module PyStr {

  /** Python's `None`-or-value. */
  datatype Option<T> = None | Some(value: T)

  /** A value, or the exception that replaced it. */
  datatype Result<T, E> = Ok(value: T) | Err(error: E)

  /** The characters `str.isspace()` accepts; `strip()` and the regex class
      `\s` use the same set for `str` values. */
  predicate IsSpace(c: char) {
    || ('\t' <= c <= '\r')                    // \t \n \v \f \r
    || ('\U{1C}' <= c <= '\U{1F}')            // file, group, record, unit separators
    || c == ' ' || c == '\U{85}' || c == '\U{A0}' || c == '\U{1680}'
    || ('\U{2000}' <= c <= '\U{200A}')
    || c == '\U{2028}' || c == '\U{2029}' || c == '\U{202F}' || c == '\U{205F}'
    || c == '\U{3000}'
  }

  /** A string made of whitespace only (the empty string included). */
  predicate IsBlank(s: string) {
    forall i :: 0 <= i < |s| ==> IsSpace(s[i])
  }

  predicate StartsWith(s: string, prefix: string) {
    |prefix| <= |s| && s[..|prefix|] == prefix
  }

  predicate EndsWith(s: string, suffix: string) {
    |suffix| <= |s| && s[|s| - |suffix|..] == suffix
  }

  /** `pat` occurs in `s` starting at index `i`. */
  predicate OccursAt(s: string, pat: string, i: int) {
    0 <= i && i + |pat| <= |s| && s[i..i + |pat|] == pat
  }

  /** Python's `pat in s`. */
  predicate Contains(s: string, pat: string) {
    exists i | 0 <= i <= |s| :: OccursAt(s, pat, i)
  }

  /** `str.lstrip()` with no argument. */
  function LStrip(s: string): string
    decreases |s|
  {
    if s != [] && IsSpace(s[0]) then LStrip(s[1..]) else s
  }

  /** `str.rstrip()` with no argument. */
  function RStrip(s: string): string
    decreases |s|
  {
    if s != [] && IsSpace(s[|s| - 1]) then RStrip(s[..|s| - 1]) else s
  }

  /** `lstrip` removes a blank prefix, and exactly the longest one: what is
      left is empty or starts with a non-space. */
  lemma {:induction false} LStripShape(s: string)
    ensures var r := LStrip(s);
      && |r| <= |s| && r == s[|s| - |r|..]
      && (r == [] || !IsSpace(r[0]))
      && IsBlank(s[..|s| - |r|])
    decreases |s|
  {
    if s != [] && IsSpace(s[0]) {
      var t := s[1..];
      var r := LStrip(t);
      LStripShape(t);
      assert r == s[|s| - |r|..] by {
        assert t[|t| - |r|..] == s[|s| - |r|..];
      }
      assert IsBlank(s[..|s| - |r|]) by {
        var cut := s[..|s| - |r|];
        forall i | 0 <= i < |cut| ensures IsSpace(cut[i]) {
          if i > 0 {
            assert cut[i] == t[..|t| - |r|][i - 1];
          }
        }
      }
    }
  }

  /** `rstrip` removes a blank suffix, and exactly the longest one: what is
      left is empty or ends with a non-space. */
  lemma {:induction false} RStripShape(s: string)
    ensures var r := RStrip(s);
      && |r| <= |s| && r == s[..|r|]
      && (r == [] || !IsSpace(r[|r| - 1]))
      && IsBlank(s[|r|..])
    decreases |s|
  {
    if s != [] && IsSpace(s[|s| - 1]) {
      var t := s[..|s| - 1];
      var r := RStrip(t);
      RStripShape(t);
      assert r == s[..|r|] by {
        assert t[..|r|] == s[..|r|];
      }
      assert IsBlank(s[|r|..]) by {
        var cut := s[|r|..];
        forall i | 0 <= i < |cut| ensures IsSpace(cut[i]) {
          if i < |cut| - 1 {
            assert cut[i] == t[|r|..][i];
          }
        }
      }
    }
  }

  /** A string ends with its last part. */
  lemma EndsWithConcat(a: string, b: string)
    ensures EndsWith(a + b, b)
  {
  }

  /** A string starts with its first part. */
  lemma StartsWithConcat(a: string, b: string)
    ensures StartsWith(a + b, a)
  {
  }

  /** A suffix of the right operand is a suffix of the concatenation. */
  lemma EndsWithAppend(a: string, b: string, suffix: string)
    requires EndsWith(b, suffix)
    ensures EndsWith(a + b, suffix)
  {
  }

  /** `str.strip()` with no argument. */
  function Strip(s: string): string {
    RStrip(LStrip(s))
  }

  /** `str.rstrip(c)` for a single character `c`. */
  function RStripChar(s: string, c: char): (r: string)
    ensures |r| <= |s| && r == s[..|r|]
    ensures r == [] || r[|r| - 1] != c
    ensures forall i :: |r| <= i < |s| ==> s[i] == c
    decreases |s|
  {
    if s != [] && s[|s| - 1] == c then RStripChar(s[..|s| - 1], c) else s
  }

  /** The first index `j >= i` at which `pat` occurs in `s`, as `str.find` does. */
  function FindFrom(s: string, pat: string, i: nat): (r: Option<nat>)
    requires pat != []
    ensures r.Some? ==> i <= r.value && OccursAt(s, pat, r.value)
    ensures r.Some? ==> forall k :: i <= k < r.value ==> !OccursAt(s, pat, k)
    ensures r.None? ==> forall k :: i <= k ==> !OccursAt(s, pat, k)
    decreases |s| - i
  {
    if i + |pat| > |s| then None
    else if s[i..i + |pat|] == pat then Some(i)
    else FindFrom(s, pat, i + 1)
  }

  /** `s.split(sep)` for a non-empty separator: cut at every occurrence of
      `sep`, scanning left to right without overlaps. */
  function Split(s: string, sep: string): (r: seq<string>)
    requires sep != []
    ensures |r| >= 1
    decreases |s|
  {
    match FindFrom(s, sep, 0)
    case None => [s]
    case Some(j) => [s[..j]] + Split(s[j + |sep|..], sep)
  }

  /** `sep.join(parts)`. */
  function Join(parts: seq<string>, sep: string): string
    decreases |parts|
  {
    if |parts| == 0 then ""
    else if |parts| == 1 then parts[0]
    else parts[0] + sep + Join(parts[1..], sep)
  }

  /** The characters `str.splitlines` ends a line at. */
  predicate IsLineBoundary(c: char) {
    || c == '\n' || c == '\r' || c == '\U{0B}' || c == '\U{0C}'
    || c == '\U{1C}' || c == '\U{1D}' || c == '\U{1E}' || c == '\U{85}'
    || c == '\U{2028}' || c == '\U{2029}'
  }

  /** Length of the line boundary `str.splitlines` recognises at index `i`
      (2 for "\r\n", 1 for a single boundary character, 0 for none). */
  function BreakLength(s: string, i: nat): (n: nat)
    requires i < |s|
    ensures n <= |s| - i
    ensures n == 0 <==> !IsLineBoundary(s[i])
  {
    var c := s[i];
    if c == '\r' && i + 1 < |s| && s[i + 1] == '\n' then 2
    else if IsLineBoundary(c) then 1
    else 0
  }

  /** The first index at or after `i` holding a line boundary, or `|s|`. */
  function NextBreak(s: string, i: nat): (j: nat)
    requires i <= |s|
    ensures i <= j <= |s|
    ensures j < |s| ==> BreakLength(s, j) > 0
    ensures forall k :: i <= k < j ==> BreakLength(s, k) == 0
    decreases |s| - i
  {
    if i == |s| || BreakLength(s, i) > 0 then i else NextBreak(s, i + 1)
  }

  /** `s.splitlines()`: the lines of `s` without their boundaries; a final
      boundary does not open an extra empty line. */
  function SplitLines(s: string): (r: seq<string>)
    ensures r == [] <==> s == []
    decreases |s|
  {
    if s == [] then []
    else
      var j := NextBreak(s, 0);
      if j == |s| then [s] else [s[..j]] + SplitLines(s[j + BreakLength(s, j)..])
  }

  /** A string without line boundaries: one line of `splitlines`. */
  predicate LineFree(s: string) {
    forall k | 0 <= k < |s| :: !IsLineBoundary(s[k])
  }

  /** Stripping exposes no whitespace at either end, and it removes
      everything exactly when the string is blank. */
  lemma StripShape(s: string)
    ensures var r := Strip(s);
      && (r == [] || (!IsSpace(r[0]) && !IsSpace(r[|r| - 1])))
      && (r == [] <==> IsBlank(s))
  {
    var l := LStrip(s);
    var r := RStrip(l);
    LStripShape(s);
    RStripShape(l);
    if r == [] {
      // a non-empty l starts with a non-space, which RStrip would keep
      assert l == [];
      assert s[..|s| - |l|] == s;
    } else {
      assert r[0] == l[0];
      assert !IsSpace(s[|s| - |l|]);
    }
  }

  /** `strip()` is idempotent. */
  lemma StripIdempotent(s: string)
    ensures Strip(Strip(s)) == Strip(s)
  {
    StripShape(s);
    StripFixed(Strip(s));
  }

  /** A string with no whitespace at its ends is its own strip. */
  lemma StripFixed(s: string)
    requires s != [] ==> !IsSpace(s[0]) && !IsSpace(s[|s| - 1])
    ensures Strip(s) == s
  {
  }

  /** A non-space character survives stripping. */
  lemma StripKeepsNonSpace(s: string, i: nat)
    requires i < |s| && !IsSpace(s[i])
    ensures s[i] in Strip(s)
  {
    var l := LStrip(s);
    var r := RStrip(l);
    LStripShape(s);
    RStripShape(l);
    var d := |s| - |l|;
    assert forall k | 0 <= k < d :: IsSpace(s[k]) by {
      forall k | 0 <= k < d ensures IsSpace(s[k]) {
        assert s[..d][k] == s[k];
      }
    }
    assert s[i] == l[i - d];
    assert forall k | |r| <= k < |l| :: IsSpace(l[k]) by {
      forall k | |r| <= k < |l| ensures IsSpace(l[k]) {
        assert l[|r|..][k - |r|] == l[k];
      }
    }
    assert r[i - d] == l[i - d];
  }

  /** The stripped string is a slice of the original. */
  lemma StripSlice(s: string) returns (i: nat)
    ensures i + |Strip(s)| <= |s| && Strip(s) == s[i .. i + |Strip(s)|]
  {
    var l := LStrip(s);
    LStripShape(s);
    RStripShape(l);
    i := |s| - |l|;
  }

  /** An occurrence in a slice is an occurrence in the whole. */
  lemma ContainsSlice(s: string, i: nat, j: nat, pat: string)
    requires i <= j <= |s| && Contains(s[i..j], pat)
    ensures Contains(s, pat)
  {
    var k :| 0 <= k <= j - i && OccursAt(s[i..j], pat, k);
    var cut := s[i..j];
    var found := cut[k .. k + |pat|];
    var w := s[i + k .. i + k + |pat|];
    forall m | 0 <= m < |w| ensures w[m] == found[m] {
      assert w[m] == s[i + k + m] == cut[k + m];
    }
    assert w == found;
    assert OccursAt(s, pat, i + k);
  }

  /** Splitting and re-joining with the same separator loses nothing: every
      character of the input is in exactly one piece or one separator. */
  lemma {:induction false} SplitJoin(s: string, sep: string)
    requires sep != []
    ensures Join(Split(s, sep), sep) == s
    decreases |s|
  {
    var f := FindFrom(s, sep, 0);
    if f.Some? {
      var j := f.value;
      var rest := s[j + |sep|..];
      var tail := Split(rest, sep);
      assert Split(s, sep) == [s[..j]] + tail;
      calc {
        Join(Split(s, sep), sep);
        Join([s[..j]] + tail, sep);
        { assert ([s[..j]] + tail)[1..] == tail; }
        s[..j] + sep + Join(tail, sep);
        { SplitJoin(rest, sep); }
        s[..j] + sep + rest;
        { assert s[j..j + |sep|] == sep; }
        s;
      }
    }
  }

  /** No piece of a split contains the separator. */
  lemma {:induction false} SplitPiecesFree(s: string, sep: string)
    requires sep != []
    ensures forall k :: 0 <= k < |Split(s, sep)| ==> !Contains(Split(s, sep)[k], sep)
    decreases |s|
  {
    var f := FindFrom(s, sep, 0);
    if f.Some? {
      var j := f.value;
      var rest := s[j + |sep|..];
      SplitPiecesFree(rest, sep);
      assert !Contains(s[..j], sep) by {
        forall k | 0 <= k <= j && OccursAt(s[..j], sep, k) ensures false {
          assert s[..j][k..k + |sep|] == s[k..k + |sep|];
          assert OccursAt(s, sep, k);
        }
      }
      assert Split(s, sep) == [s[..j]] + Split(rest, sep);
    }
  }

  /** A string that does not contain the separator splits into itself. */
  lemma SplitAbsent(s: string, sep: string)
    requires sep != [] && !Contains(s, sep)
    ensures Split(s, sep) == [s]
  {
  }

  /** Joining around a cut point: the parts before it, the separator, the
      parts from it on. */
  lemma {:induction false} JoinAt(parts: seq<string>, sep: string, k: nat)
    requires 0 < k < |parts|
    ensures Join(parts, sep) == Join(parts[..k], sep) + sep + Join(parts[k..], sep)
    decreases k
  {
    if k > 1 {
      JoinAt(parts[1..], sep, k - 1);
      assert parts[1..][..k - 1] == parts[..k][1..];
      assert parts[1..][k - 1..] == parts[k..];
    }
  }

  /** The joined string starts with the first part and ends with the last. */
  lemma {:induction false} JoinEnds(parts: seq<string>, sep: string)
    requires |parts| >= 1
    ensures StartsWith(Join(parts, sep), parts[0])
    ensures EndsWith(Join(parts, sep), parts[|parts| - 1])
    decreases |parts|
  {
    if |parts| > 1 {
      JoinEnds(parts[1..], sep);
      StartsWithConcat(parts[0], sep + Join(parts[1..], sep));
      assert parts[0] + sep + Join(parts[1..], sep) == parts[0] + (sep + Join(parts[1..], sep));
      EndsWithAppend(parts[0] + sep, Join(parts[1..], sep), parts[|parts| - 1]);
    } else {
      StartsWithConcat(parts[0], []);
      EndsWithConcat([], parts[0]);
    }
  }

  /** Every part occurs in the joined string. */
  lemma JoinContainsPart(parts: seq<string>, sep: string, k: nat)
    requires k < |parts|
    ensures Contains(Join(parts, sep), parts[k])
  {
    var tail := Join(parts[k..], sep);
    JoinEnds(parts[k..], sep);
    assert tail[..|parts[k]|] == parts[k];
    if k == 0 {
      assert parts[k..] == parts;
      assert OccursAt(Join(parts, sep), parts[k], 0);
    } else {
      JoinAt(parts, sep, k);
      var front := Join(parts[..k], sep) + sep;
      assert Join(parts, sep) == front + tail;
      assert (front + tail)[|front| .. |front| + |parts[k]|] == tail[..|parts[k]|];
      assert OccursAt(Join(parts, sep), parts[k], |front|);
    }
  }

  /** A string without the character `c` does not contain it as a
      one-character pattern. */
  lemma CharAbsent(s: string, c: char)
    requires c !in s
    ensures !Contains(s, [c])
  {
    forall i | 0 <= i <= |s| ensures !OccursAt(s, [c], i) {
      if i < |s| {
        assert s[i .. i + 1][0] == s[i];
      }
    }
  }

  /** Splitting on a one-character separator undoes joining with it, when
      no part holds that character. */
  lemma {:induction false} SplitUndoesJoin(parts: seq<string>, c: char)
    requires |parts| >= 1
    requires forall k | 0 <= k < |parts| :: c !in parts[k]
    ensures Split(Join(parts, [c]), [c]) == parts
    decreases |parts|
  {
    var sep := [c];
    var first := parts[0];
    if |parts| == 1 {
      CharAbsent(first, c);
      SplitAbsent(first, sep);
    } else {
      var rest := Join(parts[1..], sep);
      var joined := first + sep + rest;
      var n := |first|;
      assert OccursAt(joined, sep, n) by {
        assert joined[n .. n + 1] == sep;
      }
      assert forall k | 0 <= k < n :: !OccursAt(joined, sep, k) by {
        forall k | 0 <= k < n ensures !OccursAt(joined, sep, k) {
          assert joined[k .. k + 1][0] == joined[k] == first[k];
        }
      }
      assert FindFrom(joined, sep, 0) == Some(n);
      assert joined[..n] == first;
      assert joined[n + 1..] == rest;
      SplitUndoesJoin(parts[1..], c);
    }
  }

  /** The middle of a concatenation occurs in it. */
  lemma ContainsMiddle(a: string, x: string, b: string)
    ensures Contains(a + x + b, x)
  {
    assert (a + x + b)[|a| .. |a| + |x|] == x;
    assert OccursAt(a + x + b, x, |a|);
  }

  /** A boundary-free line followed by a newline is the first line of
      `splitlines`, and the rest is split on its own. */
  lemma SplitLinesCons(a: string, b: string)
    requires LineFree(a)
    ensures SplitLines(a + "\n" + b) == [a] + SplitLines(b)
  {
    var s := a + "\n" + b;
    assert forall k | 0 <= k < |a| :: s[k] == a[k];
    assert BreakLength(s, |a|) == 1;
    assert NextBreak(s, 0) == |a|;
    assert s[..|a|] == a;
    assert s[|a| + 1..] == b;
  }

  /** Two boundary-free strings make a boundary-free string. */
  lemma LineFreeConcat(a: string, b: string)
    requires LineFree(a) && LineFree(b)
    ensures LineFree(a + b)
  {
    assert forall k | |a| <= k < |a + b| :: (a + b)[k] == b[k - |a|];
  }

  /** `splitlines` undoes joining boundary-free lines with "\n", as long
      as the last line is not empty (a final newline opens no line). */
  lemma {:induction false} SplitLinesJoin(lines: seq<string>)
    requires forall k | 0 <= k < |lines| :: LineFree(lines[k])
    requires lines != [] ==> lines[|lines| - 1] != ""
    ensures SplitLines(Join(lines, "\n")) == lines
    decreases |lines|
  {
    if |lines| == 1 {
      assert NextBreak(lines[0], 0) == |lines[0]|;
    } else if |lines| > 1 {
      SplitLinesJoin(lines[1..]);
      SplitLinesCons(lines[0], Join(lines[1..], "\n"));
      assert lines == [lines[0]] + lines[1..];
    }
  }

  /** `rstrip` removes exactly a blank tail that follows a non-space. */
  lemma {:induction false} RStripBlankTail(x: string, t: string)
    requires (x == [] || !IsSpace(x[|x| - 1])) && IsBlank(t)
    ensures RStrip(x + t) == x
    decreases |t|
  {
    if t == [] {
      assert x + t == x;
    } else {
      var init := t[..|t| - 1];
      assert (x + t)[..|x + t| - 1] == x + init;
      assert (x + t)[|x + t| - 1] == t[|t| - 1];
      RStripBlankTail(x, init);
    }
  }

  /** Stripping a text that starts and ends with a non-space, followed by
      a blank tail, leaves the text. */
  lemma StripBlankTail(x: string, t: string)
    requires x != [] && !IsSpace(x[0]) && !IsSpace(x[|x| - 1]) && IsBlank(t)
    ensures Strip(x + t) == x
  {
    assert (x + t)[0] == x[0];
    assert LStrip(x + t) == x + t;
    RStripBlankTail(x, t);
  }

  /** `lstrip` empties a blank string. */
  lemma {:induction false} LStripBlank(x: string)
    requires IsBlank(x)
    ensures LStrip(x) == []
    decreases |x|
  {
    if x != [] {
      LStripBlank(x[1..]);
    }
  }

  /** `lstrip` of a string holding a non-space stops inside it, so a
      character appended at the end survives. */
  lemma {:induction false} LStripAppend(x: string, c: char)
    requires !IsBlank(x)
    ensures LStrip(x + [c]) == LStrip(x) + [c]
    decreases |x|
  {
    if IsSpace(x[0]) {
      var i :| 0 <= i < |x| && !IsSpace(x[i]);
      assert x[1..][i - 1] == x[i];
      assert (x + [c])[1..] == x[1..] + [c];
      LStripAppend(x[1..], c);
    }
  }

  /** `rstrip` first changes nothing about `strip`. */
  lemma {:induction false} StripRStrip(s: string)
    ensures Strip(RStrip(s)) == Strip(s)
    decreases |s|
  {
    if s != [] && IsSpace(s[|s| - 1]) {
      var init, c := s[..|s| - 1], s[|s| - 1];
      StripRStrip(init);
      assert s == init + [c];
      if IsBlank(init) {
        LStripBlank(init);
        LStripBlank(s);
      } else {
        LStripAppend(init, c);
        var l := LStrip(init);
        assert (l + [c])[..|l|] == l;
      }
    }
  }
}

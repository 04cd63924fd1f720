/**
 * POSIX pure paths as `pathlib.PurePosixPath` represents them: an anchor
 * ("", "/" or "//") and the list of components left after splitting on
 * "/" and dropping empty and "." components.
 */
module PosixPath {
  import opened PyStr

  const Sep: char := '/'

  /** A path: its root and its components. */
  datatype Path = Path(root: string, parts: seq<string>)

  /** A component as parsing leaves it: non-empty, not ".", no separator. */
  predicate IsPart(x: string) {
    x != "" && x != "." && Sep !in x
  }

  predicate Valid(p: Path) {
    && (p.root == "" || p.root == "/" || p.root == "//")
    && forall k | 0 <= k < |p.parts| :: IsPart(p.parts[k])
  }

  /** The root of a path text: exactly two leading slashes are kept, one
      or three and more become "/". */
  function RootOf(s: string): (r: string)
    ensures r == "" <==> (s == [] || s[0] != Sep)
  {
    if |s| >= 2 && s[0] == Sep && s[1] == Sep && !(|s| >= 3 && s[2] == Sep) then "//"
    else if |s| >= 1 && s[0] == Sep then "/"
    else ""
  }

  /** The pieces of a split that name components. */
  function Components(pieces: seq<string>): seq<string>
    decreases |pieces|
  {
    if pieces == [] then []
    else if pieces[0] == "" || pieces[0] == "." then Components(pieces[1..])
    else [pieces[0]] + Components(pieces[1..])
  }

  /** `PurePosixPath(s)`. */
  function Parse(s: string): Path {
    Path(RootOf(s), Components(Split(s, [Sep])))
  }

  /** `str(p)`: "." for the empty relative path. */
  function ToString(p: Path): string {
    if p.root == "" && p.parts == [] then "." else p.root + Join(p.parts, [Sep])
  }

  /** `p.name`: the last component, or "" when there is none. */
  function Name(p: Path): (r: string)
    ensures Valid(p) && p.parts != [] ==> IsPart(r)
  {
    if p.parts == [] then "" else p.parts[|p.parts| - 1]
  }

  /** `p.parent`: the path without its last component; a path without
      components is its own parent. */
  function Parent(p: Path): (r: Path)
    ensures Valid(p) ==> Valid(r)
    ensures r.root == p.root && |r.parts| <= |p.parts| && r.parts == p.parts[..|r.parts|]
  {
    if p.parts == [] then p else Path(p.root, p.parts[..|p.parts| - 1])
  }

  /** `p / q`: an anchored right operand replaces the left one, otherwise
      the components are appended. */
  function Div(p: Path, q: Path): (r: Path)
    ensures Valid(p) && Valid(q) ==> Valid(r)
  {
    if q.root != "" then q else Path(p.root, p.parts + q.parts)
  }

  // ---------------------------------------------------------------------
  // Lemmas
  // ---------------------------------------------------------------------

  /** A piece without an occurrence of the separator lacks its character. */
  lemma SepAbsent(x: string)
    requires !Contains(x, [Sep])
    ensures Sep !in x
  {
    if Sep in x {
      var i :| 0 <= i < |x| && x[i] == Sep;
      assert x[i .. i + 1] == [Sep];
      assert OccursAt(x, [Sep], i);
    }
  }

  /** Only components survive, all of them. */
  lemma {:induction false} ComponentsOfParts(pieces: seq<string>)
    requires forall k | 0 <= k < |pieces| :: Sep !in pieces[k]
    ensures forall k | 0 <= k < |Components(pieces)| :: IsPart(Components(pieces)[k])
    decreases |pieces|
  {
    if pieces != [] {
      ComponentsOfParts(pieces[1..]);
    }
  }

  /** Pieces that are all components are kept as they are. */
  lemma {:induction false} ComponentsKeepParts(pieces: seq<string>)
    requires forall k | 0 <= k < |pieces| :: IsPart(pieces[k])
    ensures Components(pieces) == pieces
    decreases |pieces|
  {
    if pieces != [] {
      ComponentsKeepParts(pieces[1..]);
      assert pieces == [pieces[0]] + pieces[1..];
    }
  }

  /** Parsing yields a path of the documented shape. */
  lemma ParseValid(s: string)
    ensures Valid(Parse(s))
  {
    var pieces := Split(s, [Sep]);
    SplitPiecesFree(s, [Sep]);
    forall k | 0 <= k < |pieces| ensures Sep !in pieces[k] {
      SepAbsent(pieces[k]);
    }
    ComponentsOfParts(pieces);
  }

  /** A text that is the join of separator-free pieces parses to the root
      of the text and the components among the pieces. */
  lemma ParseFromPieces(s: string, pieces: seq<string>)
    requires |pieces| >= 1 && Join(pieces, [Sep]) == s
    requires forall k | 0 <= k < |pieces| :: Sep !in pieces[k]
    ensures Parse(s) == Path(RootOf(s), Components(pieces))
  {
    SplitUndoesJoin(pieces, Sep);
  }

  /** An empty leading piece puts a separator in front. */
  lemma JoinLead(x: seq<string>)
    requires |x| >= 1
    ensures Join([""] + x, [Sep]) == [Sep] + Join(x, [Sep])
    ensures Components([""] + x) == Components(x)
  {
    JoinAt([""] + x, [Sep], 1);
    assert ([""] + x)[1..] == x;
  }

  /** The text of a path with components starts with its root, then the
      first character of the first component. */
  lemma TextAfterRoot(p: Path)
    requires Valid(p) && p.parts != []
    ensures var s := ToString(p); |s| > |p.root| && s[..|p.root|] == p.root && s[|p.root|] != Sep
  {
    JoinEnds(p.parts, [Sep]);
    var j := Join(p.parts, [Sep]);
    assert j[0] == p.parts[0][0];
    assert ToString(p) == p.root + j;
  }

  /** The three paths without components print as ".", "/" and "//" and
      parse back. */
  lemma ParseBareRoot(p: Path)
    requires Valid(p) && p.parts == []
    ensures Parse(ToString(p)) == p
  {
    var s := ToString(p);
    if p.root == "" {
      assert s == ".";
      CharAbsent(".", Sep);
      SplitAbsent(".", [Sep]);
      assert Components(["."]) == [];
    } else if p.root == "/" {
      assert s == Join(["", ""], [Sep]);
      ParseFromPieces(s, ["", ""]);
    } else {
      JoinLead(["", ""]);
      assert s == Join(["", "", ""], [Sep]);
      ParseFromPieces(s, ["", "", ""]);
    }
  }

  /** A path with components prints as its root, then its components
      joined with the separator, and parses back. */
  lemma ParseWithParts(p: Path)
    requires Valid(p) && p.parts != []
    ensures Parse(ToString(p)) == p
  {
    var s := ToString(p);
    TextAfterRoot(p);
    ComponentsKeepParts(p.parts);
    var j := Join(p.parts, [Sep]);
    assert s == p.root + j;
    if p.root == "" {
      assert s == j;
      ParseFromPieces(s, p.parts);
    } else if p.root == "/" {
      JoinLead(p.parts);
      ParseFromPieces(s, [""] + p.parts);
    } else {
      JoinLead(p.parts);
      JoinLead([""] + p.parts);
      assert s == [Sep] + ([Sep] + j);
      ParseFromPieces(s, [""] + ([""] + p.parts));
    }
  }

  /** `str` and parsing are inverse on paths: the text of a path parses
      back to that path. */
  lemma ParseToString(p: Path)
    requires Valid(p)
    ensures Parse(ToString(p)) == p
  {
    if p.parts == [] {
      ParseBareRoot(p);
    } else {
      ParseWithParts(p);
    }
  }

  /** Parsing is idempotent: the text of a parsed path parses to the same
      path. */
  lemma ParseNormalizes(s: string)
    ensures Parse(ToString(Parse(s))) == Parse(s)
  {
    ParseValid(s);
    ParseToString(Parse(s));
  }

  /** Relative components joined with the separator parse to themselves. */
  lemma ParseJoined(parts: seq<string>)
    requires parts != []
    requires forall k | 0 <= k < |parts| :: IsPart(parts[k])
    ensures Parse(Join(parts, [Sep])) == Path("", parts)
  {
    var p := Path("", parts);
    assert Valid(p);
    assert ToString(p) == Join(parts, [Sep]);
    ParseWithParts(p);
  }

  /** A component parses to the one-component relative path. */
  lemma ParsePart(x: string)
    requires IsPart(x)
    ensures Parse(x) == Path("", [x])
  {
    ParseJoined([x]);
  }

  /** `parent / name` gives the path back. */
  lemma ParentDivName(p: Path)
    requires Valid(p) && p.parts != []
    ensures Div(Parent(p), Parse(Name(p))) == p
  {
    ParsePart(Name(p));
    assert p.parts[..|p.parts| - 1] + [Name(p)] == p.parts;
  }
}

/**
 * Where a generated test file goes, and how it is saved: the test file
 * for `dir/name` is `base/dir/test_name`, its directory is created with
 * all missing parents, and the code replaces whatever the file held.
 */
module FileWriter {
  import opened PyStr
  import opened PosixPath

  const DefaultBaseOutputDir: string := "tests"

  const TestPrefix: string := "test_"

  /** `f"test_{original_file_path.name}"`. */
  function TestFileName(originalFilePath: string): string {
    TestPrefix + Name(Parse(originalFilePath))
  }

  /** `base_output_dir / original.parent / test_file_name`. */
  function TestFilePath(originalFilePath: string, baseOutputDir: string := DefaultBaseOutputDir): Path {
    var original := Parse(originalFilePath);
    Div(Div(Parse(baseOutputDir), Parent(original)), Parse(TestFileName(originalFilePath)))
  }

  /** The test file name is a single component. */
  lemma TestFileNameIsPart(originalFilePath: string)
    ensures IsPart(TestFileName(originalFilePath))
    ensures Parse(TestFileName(originalFilePath)) == Path("", [TestFileName(originalFilePath)])
  {
    var name := Name(Parse(originalFilePath));
    ParseValid(originalFilePath);
    assert Sep !in name;
    assert TestFileName(originalFilePath) == TestPrefix + name;
    assert Sep !in TestPrefix;
    ParsePart(TestFileName(originalFilePath));
  }

  /** The test file is named "test_" + the original's name, and sits in
      the base directory extended by the original's directory (an
      absolute original directory replaces the base, as `/` does). */
  lemma TestFileLocation(originalFilePath: string, baseOutputDir: string)
    ensures var target := TestFilePath(originalFilePath, baseOutputDir);
      && Valid(target)
      && Name(target) == TestPrefix + Name(Parse(originalFilePath))
      && Parent(target) == Div(Parse(baseOutputDir), Parent(Parse(originalFilePath)))
  {
    TestFileNameIsPart(originalFilePath);
    ParseValid(originalFilePath);
    ParseValid(baseOutputDir);
    var dir := Div(Parse(baseOutputDir), Parent(Parse(originalFilePath)));
    assert (dir.parts + [TestFileName(originalFilePath)])[..|dir.parts|] == dir.parts;
  }

  /** For a relative original of components `parts`, under a relative base
      of components `base`, the saved path's text is the base, the
      original's directories and the test file name, joined with "/". */
  lemma MirrorsOriginalLayout(base: seq<string>, parts: seq<string>)
    requires base != [] && parts != []
    requires forall k | 0 <= k < |base| :: IsPart(base[k])
    requires forall k | 0 <= k < |parts| :: IsPart(parts[k])
    ensures ToString(TestFilePath(Join(parts, [Sep]), Join(base, [Sep])))
      == Join(base + parts[..|parts| - 1] + [TestPrefix + parts[|parts| - 1]], [Sep])
  {
    var originalFilePath := Join(parts, [Sep]);
    ParseJoined(parts);
    ParseJoined(base);
    TestFileNameIsPart(originalFilePath);
  }

  /** A file at the top level, such as "single_file.py", goes straight
      into the base directory. */
  lemma TopLevelFile(fileName: string, baseOutputDir: string)
    requires IsPart(fileName)
    ensures TestFilePath(fileName, baseOutputDir)
      == Path(Parse(baseOutputDir).root, Parse(baseOutputDir).parts + [TestPrefix + fileName])
  {
    ParsePart(fileName);
    TestFileNameIsPart(fileName);
  }

  /** Three components joined with the separator. */
  lemma JoinThree(a: string, b: string, c: string)
    ensures Join([a, b, c], [Sep]) == a + [Sep] + b + [Sep] + c
  {
    assert [a, b, c][1..] == [b, c];
    assert [b, c][1..] == [c];
    assert Join([b, c], [Sep]) == b + [Sep] + c;
    assert a + [Sep] + (b + [Sep] + c) == a + [Sep] + b + [Sep] + c;
  }

  /** Four components joined with the separator. */
  lemma JoinFour(a: string, b: string, c: string, d: string)
    ensures Join([a, b, c, d], [Sep]) == a + [Sep] + b + [Sep] + (c + [Sep] + d)
  {
    assert [a, b, c, d][1..] == [b, c, d];
    JoinThree(b, c, d);
    assert a + [Sep] + (b + [Sep] + c + [Sep] + d) == a + [Sep] + b + [Sep] + (c + [Sep] + d);
  }

  /** A module two directories deep, such as "src/my_module/main.py"
      under "generated_tests", is saved as
      "generated_tests/src/my_module/test_main.py". */
  lemma NestedModuleLayout(originalFilePath: string, baseOutputDir: string, dir: string, pkg: string, file: string)
    requires IsPart(dir) && IsPart(pkg) && IsPart(file) && IsPart(baseOutputDir)
    requires originalFilePath == dir + [Sep] + pkg + [Sep] + file
    ensures ToString(TestFilePath(originalFilePath, baseOutputDir))
      == baseOutputDir + [Sep] + dir + [Sep] + (pkg + [Sep] + (TestPrefix + file))
  {
    var parts := [dir, pkg, file];
    var bases := [baseOutputDir];
    JoinThree(dir, pkg, file);
    assert Join(bases, [Sep]) == baseOutputDir;
    MirrorsOriginalLayout(bases, parts);
    var out := bases + parts[..2] + [TestPrefix + file];
    assert out == [baseOutputDir, dir, pkg, TestPrefix + file];
    JoinFour(baseOutputDir, dir, pkg, TestPrefix + file);
  }

  // ---------------------------------------------------------------------
  // Saving
  // ---------------------------------------------------------------------

  /** The ancestor of `p` made of its root and first `i` components. */
  function Prefix(p: Path, i: nat): (r: Path)
    requires i <= |p.parts|
    ensures |r.parts| == i
  {
    Path(p.root, p.parts[..i])
  }

  /** The ancestors `mkdir(parents=True)` creates when missing: those with
      one to `k` components (the root and the working directory exist). */
  function Ancestors(p: Path, k: nat): set<Path>
    requires k <= |p.parts|
  {
    set i | 1 <= i <= k :: Prefix(p, i)
  }

  /** The file system the test file is saved into: directories, files with
      their contents, and the paths at which creating a directory or
      opening a file for writing raises (permission denied, disk full). */
  class FileSystem {
    var dirs: set<Path>
    var files: map<Path, string>
    var denied: set<Path>

    constructor(dirs: set<Path>, files: map<Path, string>, denied: set<Path>)
      ensures this.dirs == dirs && this.files == files && this.denied == denied
    {
      this.dirs := dirs;
      this.files := files;
      this.denied := denied;
    }

    /** No path is both a directory and a file. */
    predicate Valid()
      reads this
    {
      dirs !! files.Keys
    }

    /** A directory that is missing and cannot be created. */
    predicate Blocked(p: Path)
      reads this
    {
      p !in dirs && (p in files || p in denied)
    }

    /** No ancestor of `dir` stands in the way of `mkdir(parents=True,
        exist_ok=True)`. */
    predicate CanMakeDirs(dir: Path)
      reads this
    {
      forall i | 1 <= i <= |dir.parts| :: !Blocked(Prefix(dir, i))
    }

    /** `open(p, "w")` succeeds: `p` is not a directory, is not denied, and
        its parent exists. */
    predicate CanWrite(p: Path)
      reads this
    {
      p.parts != [] && p !in dirs && p !in denied && (Parent(p).parts == [] || Parent(p) in dirs)
    }

    /** `dir.mkdir(parents=True, exist_ok=True)`: creates the missing
        ancestors from the top down; existing directories are fine, and
        the first ancestor that cannot be created raises, leaving the ones
        created before it in place. */
    method MakeDirs(dir: Path) returns (ok: bool)
      modifies this
      ensures files == old(files) && denied == old(denied)
      ensures old(Valid()) ==> Valid()
      ensures ok <==> old(CanMakeDirs(dir))
      ensures ok ==> dirs == old(dirs) + Ancestors(dir, |dir.parts|)
      ensures !ok ==> exists k | 1 <= k <= |dir.parts| ::
        old(Blocked(Prefix(dir, k))) && dirs == old(dirs) + Ancestors(dir, k - 1)
    {
      var i := 1;
      while i <= |dir.parts|
        invariant 1 <= i <= |dir.parts| + 1
        invariant files == old(files) && denied == old(denied)
        invariant old(Valid()) ==> Valid()
        invariant dirs == old(dirs) + Ancestors(dir, i - 1)
        invariant forall j | 1 <= j < i :: !old(Blocked(Prefix(dir, j)))
      {
        var d := Prefix(dir, i);
        assert d !in Ancestors(dir, i - 1);
        if d in dirs {
        } else if d in files || d in denied {
          return false;
        } else {
          dirs := dirs + {d};
        }
        assert Ancestors(dir, i) == Ancestors(dir, i - 1) + {d};
        i := i + 1;
      }
      return true;
    }

    /** `open(p, "w").write(content)`: the file now holds exactly
        `content`, whatever it held before. */
    method Write(p: Path, content: string) returns (ok: bool)
      modifies this
      ensures dirs == old(dirs) && denied == old(denied)
      ensures old(Valid()) ==> Valid()
      ensures ok <==> old(CanWrite(p))
      ensures files == if ok then old(files)[p := content] else old(files)
    {
      if CanWrite(p) {
        files := files[p := content];
        return true;
      }
      return false;
    }

    /** `save_test_code_to_file`: nothing happens for empty code; otherwise
        the test file's directory is created and the code written, and the
        test file's path is returned, or nothing when either step raised.
        When creating the directory raises, the ancestors above the first
        blocked one have been created; when only the write raises, the
        whole directory has. */
    method SaveTestCodeToFile(originalFilePath: string, generatedTestCode: string,
                              baseOutputDir: string := DefaultBaseOutputDir)
      returns (saved: Option<string>)
      modifies this
      ensures generatedTestCode == "" ==> saved == None && unchanged(this)
      ensures denied == old(denied)
      ensures old(Valid()) ==> Valid()
      ensures var target := TestFilePath(originalFilePath, baseOutputDir);
        saved.Some? <==> generatedTestCode != "" && old(CanMakeDirs(Parent(target)))
                         && target !in old(dirs) && target !in denied
      ensures var target := TestFilePath(originalFilePath, baseOutputDir);
        saved.Some? ==> && saved.value == ToString(target)
                        && files == old(files)[target := generatedTestCode]
                        && dirs == old(dirs) + Ancestors(Parent(target), |Parent(target).parts|)
      ensures saved.None? ==> files == old(files)
      ensures var dir := Parent(TestFilePath(originalFilePath, baseOutputDir));
        generatedTestCode != "" && !old(CanMakeDirs(dir)) ==>
          exists k | 1 <= k <= |dir.parts| ::
            old(Blocked(Prefix(dir, k))) && dirs == old(dirs) + Ancestors(dir, k - 1)
      ensures var dir := Parent(TestFilePath(originalFilePath, baseOutputDir));
        generatedTestCode != "" && old(CanMakeDirs(dir)) ==>
          dirs == old(dirs) + Ancestors(dir, |dir.parts|)
    {
      if generatedTestCode == "" {
        return None;
      }
      var target := TestFilePath(originalFilePath, baseOutputDir);
      var dir := Parent(target);
      TestFileLocation(originalFilePath, baseOutputDir);
      var made := MakeDirs(dir);
      if !made {
        return None;
      }
      assert target !in Ancestors(dir, |dir.parts|);
      assert dir.parts != [] ==> dir == Prefix(dir, |dir.parts|);
      var written := Write(target, generatedTestCode);
      if !written {
        return None;
      }
      return Some(ToString(target));
    }
  }
}

/**
 * The Rust port's cleanup guard, `should_cleanup_orphaned_directory`, and the
 * argument handling of its `main`. Same walk as the C# guard, with three
 * differences: a match is an immediate child directory whose full path
 * string contains the target; only the match's own files are checked for an
 * `exe` extension; and `main` passes the program path (argv[0]) along with
 * the user's arguments.
 */
module RustCleanup {
  import opened Outcomes
  import opened Paths
  import opened Guard
  import opened FileSystem
  import GameRoots
  import CsCleanup

  /** Index of the last '.' in `s`, if any. */
  function LastDot(s: string): (r: Option<nat>)
    ensures r.None? ==> '.' !in s
    ensures r.Some? ==> r.value < |s| && s[r.value] == '.' && '.' !in s[r.value + 1..]
  {
    if s == [] then None
    else if s[|s| - 1] == '.' then Some(|s| - 1)
    else
      var r := LastDot(s[..|s| - 1]);
      assert r.Some? ==> s[r.value + 1..] == s[..|s| - 1][r.value + 1..] + [s[|s| - 1]];
      r
  }

  /**
   * `Path::extension` of a file name: the text after the last dot, except
   * that `..`, a name without a dot, or one whose only dot leads it, has none.
   */
  function Extension(name: string): (r: Option<string>)
    ensures r.None? <==> name == ".." || '.' !in name || (name[0] == '.' && '.' !in name[1..])
    ensures r.Some? ==> && '.' !in r.value && |r.value| + 2 <= |name|
                        && name[|name| - |r.value| - 1] == '.' && name[|name| - |r.value|..] == r.value
  {
    if name == ".." then None else
    match LastDot(name)
    case None => None
    case Some(k) => if k == 0 then None else Some(name[k + 1..])
  }

  /** `path.extension().unwrap_or_default() == "exe"`. */
  predicate IsExe(name: string) {
    Extension(name) == Some("exe")
  }

  /** The `read_dir(root)` entries that are directories and whose path string contains the target. */
  function Matches(dirs: set<Path>, root: Path, target: string): set<Path> {
    set d | d in dirs && IsChildOf(root, d) && Contains(PathString(d), target)
  }

  /** The `read_dir(dir)` entries that are files with extension `exe`. */
  function ExeFiles(files: set<Path>, dir: Path): set<Path> {
    set f | f in files && IsChildOf(dir, f) && IsExe(Leaf(f))
  }

  /** What the loop does at one root: a root that exists but is a file makes `read_dir(..).expect(..)` panic. */
  ghost function RustVisit(dirs: set<Path>, files: set<Path>, root: Path, target: string): Visit {
    var found := Matches(dirs, root, target);
    if root !in dirs && root !in files then Skip
    else if root !in dirs then Decided(ReadDirFailed(root))
    else if |found| == 0 then Skip
    else if |found| > 1 then Ambiguous
    else
      var d := Only(found);
      Decided(if |ExeFiles(files, d)| > 0 then Unsafe(d) else Removed(d))
  }

  ghost function RustVisits(dirs: set<Path>, files: set<Path>, roots: seq<Path>, target: string): (r: seq<Visit>)
    ensures |r| == |roots|
    ensures forall j | 0 <= j < |roots| :: r[j] == RustVisit(dirs, files, roots[j], target)
  {
    seq(|roots|, j requires 0 <= j < |roots| => RustVisit(dirs, files, roots[j], target))
  }

  ghost function RustDecide(dirs: set<Path>, files: set<Path>, roots: seq<Path>, target: string): Cleanup {
    Walk(roots, RustVisits(dirs, files, roots, target))
  }

  /** The loop body up to the decision at one root. Reads the disk and changes nothing. */
  method InspectRoot(fs: Drive, root: Path, target: string) returns (visit: Visit)
    ensures visit == RustVisit(fs.dirs, fs.files, root, target)
    ensures visit.Decided? && !visit.decision.ReadDirFailed? ==> visit.decision.dir in fs.dirs
  {
    if !fs.Exists(root) {
      return Skip;
    }
    if !fs.DirectoryExists(root) {
      return Decided(ReadDirFailed(root));
    }
    var dirs := Matches(fs.dirs, root, target);
    if |dirs| == 0 {
      return Skip;
    }
    if |dirs| > 1 {
      return Ambiguous;
    }
    var found :| found in dirs;
    assert found == Only(dirs) by {
      assert dirs == {Only(dirs)};
    }
    var exeFiles := ExeFiles(fs.files, found);
    if |exeFiles| > 0 {
      return Decided(Unsafe(found));
    }
    return Decided(Removed(found));
  }

  /**
   * The `for` loop over the roots up to its `break`. Reads the disk and
   * changes nothing; a `ReadDirFailed` outcome stands for the panic that
   * ends the process at that root.
   */
  method SearchRoots(fs: Drive, roots: seq<Path>, target: string) returns (outcome: Cleanup)
    ensures outcome == RustDecide(fs.dirs, fs.files, roots, target)
    ensures outcome.decision.Removed? ==> outcome.decision.dir in fs.dirs
  {
    ghost var visits := RustVisits(fs.dirs, fs.files, roots, target);
    var ambiguous: seq<Path> := [];
    var decision := NotFound;
    var i := 0;
    while i < |roots|
      invariant 0 <= i <= |roots|
      invariant decision == NotFound
      invariant Walk(roots, visits)
             == Cleanup(ambiguous + Walk(roots[i..], visits[i..]).ambiguous, Walk(roots[i..], visits[i..]).decision)
    {
      var root := roots[i];
      assert roots[i..][1..] == roots[i + 1..] && visits[i..][1..] == visits[i + 1..];
      var visit := InspectRoot(fs, root, target);
      i := i + 1;
      if visit.Skip? {
        continue;
      }
      if visit.Ambiguous? {
        ambiguous := ambiguous + [root];
        continue;
      }
      decision := visit.decision;
      break;
    }
    assert ambiguous + [] == ambiguous;
    return Cleanup(ambiguous, decision);
  }

  /**
   * `should_cleanup_orphaned_directory`: true exactly when some argument is
   * the flag (unless a panic ends the process first); without it the disk
   * is untouched.
   */
  method ShouldCleanupOrphanedDirectory(fs: Drive, args: seq<string>) returns (cleanup: bool, outcome: Cleanup)
    requires fs.Valid()
    modifies fs
    ensures fs.Valid()
    ensures cleanup <==> CleanupArgument in args
    ensures !cleanup ==> outcome == Cleanup([], NotFound) && fs.dirs == old(fs.dirs) && fs.files == old(fs.files)
    ensures cleanup ==> outcome == RustDecide(old(fs.dirs), old(fs.files), GameRoots.RustGameRootDirectories(), TargetName(args))
    ensures outcome.decision.Removed? ==>
      fs.dirs == Prune(old(fs.dirs), outcome.decision.dir) && fs.files == Prune(old(fs.files), outcome.decision.dir)
    ensures !outcome.decision.Removed? ==> fs.dirs == old(fs.dirs) && fs.files == old(fs.files)
  {
    if CleanupArgument !in args {
      return false, Cleanup([], NotFound);
    }
    var target := TargetName(args);
    outcome := SearchRoots(fs, GameRoots.RustGameRootDirectories(), target);
    if outcome.decision.Removed? {
      fs.Delete(outcome.decision.dir);
    }
    return true, outcome;
  }

  /**
   * `main`: `env::args()` is collected unfiltered, so the program path
   * `argv0` is the first argument handed to the guard.
   */
  method RunProgram(fs: Drive, argv0: string, userArgs: seq<string>) returns (outcome: Cleanup)
    requires fs.Valid()
    modifies fs
    ensures fs.Valid()
    ensures CleanupArgument in [argv0] + userArgs ==>
      outcome == RustDecide(old(fs.dirs), old(fs.files), GameRoots.RustGameRootDirectories(), TargetName([argv0] + userArgs))
    ensures CleanupArgument !in [argv0] + userArgs ==> outcome == Cleanup([], NotFound)
    ensures outcome.decision.Removed? ==>
      fs.dirs == Prune(old(fs.dirs), outcome.decision.dir) && fs.files == Prune(old(fs.files), outcome.decision.dir)
    ensures !outcome.decision.Removed? ==> fs.dirs == old(fs.dirs) && fs.files == old(fs.files)
  {
    var _, o := ShouldCleanupOrphanedDirectory(fs, [argv0] + userArgs);
    return o;
  }

  /** With the program path skipped (`env::args().skip(1)`), the guard sees only the user's arguments. */
  method RunProgramIntended(fs: Drive, argv0: string, userArgs: seq<string>) returns (outcome: Cleanup)
    requires fs.Valid()
    modifies fs
    ensures fs.Valid()
    ensures CleanupArgument in userArgs ==>
      outcome == RustDecide(old(fs.dirs), old(fs.files), GameRoots.RustGameRootDirectories(), TargetName(userArgs))
    ensures CleanupArgument !in userArgs ==> outcome == Cleanup([], NotFound)
    ensures outcome.decision.Removed? ==>
      fs.dirs == Prune(old(fs.dirs), outcome.decision.dir) && fs.files == Prune(old(fs.files), outcome.decision.dir)
    ensures !outcome.decision.Removed? ==> fs.dirs == old(fs.dirs) && fs.files == old(fs.files)
  {
    var _, o := ShouldCleanupOrphanedDirectory(fs, userArgs);
    return o;
  }

  /** The root stops the walk: it is a file (the listing panics) or it holds exactly one match. */
  predicate Decisive(dirs: set<Path>, files: set<Path>, root: Path, target: string) {
    (root in files && root !in dirs) || (root in dirs && |Matches(dirs, root, target)| == 1)
  }

  /** The root is a directory holding several matches. */
  predicate Several(dirs: set<Path>, root: Path, target: string) {
    root in dirs && |Matches(dirs, root, target)| > 1
  }

  /**
   * The first decisive root decides: a file root panics; otherwise the
   * decision is about its single match, a removal exactly when the match has
   * no `exe` file of its own. Only the ambiguous roots before it are reported.
   */
  lemma RustFirstDecisiveRootDecides(dirs: set<Path>, files: set<Path>, roots: seq<Path>, target: string, k: nat)
    requires k < |roots| && Decisive(dirs, files, roots[k], target)
    requires forall j | 0 <= j < k :: !Decisive(dirs, files, roots[j], target)
    ensures var c := RustDecide(dirs, files, roots, target);
      && (roots[k] !in dirs ==> c.decision == ReadDirFailed(roots[k]))
      && (roots[k] in dirs ==>
            && (c.decision.Removed? || c.decision.Unsafe?)
            && Matches(dirs, roots[k], target) == {c.decision.dir}
            && (c.decision.Removed? <==> ExeFiles(files, c.decision.dir) == {}))
      && forall p :: p in c.ambiguous <==> exists j | 0 <= j < k :: roots[j] == p && Several(dirs, p, target)
  {
    var visits := RustVisits(dirs, files, roots, target);
    assert NoDecisionBefore(visits, k);
    WalkStopsAtFirstDecision(roots, visits, k);
    var c := RustDecide(dirs, files, roots, target);
    forall p ensures p in c.ambiguous <==> exists j | 0 <= j < k :: roots[j] == p && Several(dirs, p, target) {
      AmbiguousRootsMembers(roots[..k], visits[..k], p);
      if p in c.ambiguous {
        var j :| 0 <= j < k && roots[..k][j] == p && visits[..k][j].Ambiguous?;
        assert roots[j] == p && Several(dirs, p, target);
      }
      if exists j | 0 <= j < k :: roots[j] == p && Several(dirs, p, target) {
        var j :| 0 <= j < k && roots[j] == p && Several(dirs, p, target);
        assert roots[..k][j] == p && visits[..k][j].Ambiguous?;
      }
    }
  }

  /** Nothing is decided exactly when no root is decisive. */
  lemma RustNotFoundIffNoDecisiveRoot(dirs: set<Path>, files: set<Path>, roots: seq<Path>, target: string)
    ensures var c := RustDecide(dirs, files, roots, target);
      && (c.decision == NotFound <==> forall j | 0 <= j < |roots| :: !Decisive(dirs, files, roots[j], target))
      && (c.decision == NotFound ==>
            forall p :: p in c.ambiguous <==> exists j | 0 <= j < |roots| :: roots[j] == p && Several(dirs, p, target))
  {
    var visits := RustVisits(dirs, files, roots, target);
    var c := RustDecide(dirs, files, roots, target);
    if exists j | 0 <= j < |roots| :: Decisive(dirs, files, roots[j], target) {
      var j :| 0 <= j < |roots| && Decisive(dirs, files, roots[j], target);
      assert visits[j].Decided?;
      var k := FirstDecision(visits);
      RustFirstDecisiveRootDecides(dirs, files, roots, target, k);
    } else {
      WalkWithoutDecision(roots, visits);
      forall p ensures p in c.ambiguous <==> exists j | 0 <= j < |roots| :: roots[j] == p && Several(dirs, p, target) {
        AmbiguousRootsMembers(roots, visits, p);
      }
    }
  }

  /**
   * The Rust safety guard: a removed directory is an immediate child of an
   * existing root whose path string contains the target, and none of its own
   * files has the `exe` extension; a refused one has such a file.
   */
  lemma RustRemovalIsSafe(dirs: set<Path>, files: set<Path>, roots: seq<Path>, target: string)
    ensures var c := RustDecide(dirs, files, roots, target);
      c.decision.Removed? || c.decision.Unsafe? ==>
        var d := c.decision.dir;
        && d in dirs && d != [] && Contains(PathString(d), target)
        && (exists r | r in roots :: r in dirs && IsChildOf(r, d))
        && (c.decision.Removed? <==> forall f | f in files && IsChildOf(d, f) :: !IsExe(Leaf(f)))
  {
    var visits := RustVisits(dirs, files, roots, target);
    var c := RustDecide(dirs, files, roots, target);
    if exists j | 0 <= j < |roots| :: visits[j].Decided? {
      var k := FirstDecision(visits);
      RustFirstDecisiveRootDecides(dirs, files, roots, target, k);
      if c.decision.Removed? || c.decision.Unsafe? {
        var d := c.decision.dir;
        assert d in Matches(dirs, roots[k], target);
        assert roots[k] in roots;
        if c.decision.Unsafe? {
          var f :| f in ExeFiles(files, d);
          assert f in files && IsChildOf(d, f) && IsExe(Leaf(f));
        } else {
          forall f | f in files && IsChildOf(d, f) ensures !IsExe(Leaf(f)) {
            assert f !in ExeFiles(files, d);
          }
        }
      }
    } else {
      WalkWithoutDecision(roots, visits);
    }
  }

  /** Every directory the C# guard would find among a root's children is a Rust match too. */
  lemma NamedChildMatches(dirs: set<Path>, root: Path, d: Path, target: string)
    requires d in dirs && IsChildOf(root, d) && Leaf(d) == target
    ensures d in Matches(dirs, root, target)
  {
    JoinEndsWithLast(d, "\\");
    var s := PathString(d);
    assert s == s[..|s| - |target|] + target + [];
    ContainsMiddle(s[..|s| - |target|], target, []);
  }

  /** But a child whose name merely contains the target matches as well. */
  lemma LongerNameMatches()
    ensures ["D:", "Ubisoft", "FooBar"] in Matches({["D:", "Ubisoft", "FooBar"]}, ["D:", "Ubisoft"], "Foo")
  {
    var d := ["D:", "Ubisoft", "FooBar"];
    assert d[1..] == ["Ubisoft", "FooBar"] && d[1..][1..] == ["FooBar"];
    assert PathString(d) == "D:\\Ubisoft\\" + "Foo" + "Bar";
    ContainsMiddle("D:\\Ubisoft\\", "Foo", "Bar");
  }

  /** A Rust `exe` file is one the C# `*.exe` pattern selects. */
  lemma ExeExtensionEndsWithDotExe(name: string)
    requires IsExe(name)
    ensures |name| >= 4 && name[|name| - 4..] == ".exe"
  {
    var k := LastDot(name).value;
    assert name[k + 1..] == "exe";
    assert name[|name| - 4..] == [name[k]] + name[k + 1..];
  }

  /** The parent-directory name `..` has no extension, although it ends in a dot. */
  lemma DotDotHasNoExtension()
    ensures Extension("..") == None && LastDot("..") == Some(1)
  {
  }

  /** The converse fails: a file named just `.exe` has no extension in Rust. */
  lemma BareDotExeIsNotExe()
    ensures !IsExe(".exe")
  {
    assert LastDot(".exe") == Some(0);
  }

  /** The C# search looks below every level, Rust only at the match's own files. */
  lemma NestedExeOnlySeenByCs()
    ensures var d := ["D:", "Ubisoft", "Foo"];
      var f := d + ["bin", "game.exe"];
      f in CsCleanup.ExeFiles({f}, d) && ExeFiles({f}, d) == {}
  {
    var d := ["D:", "Ubisoft", "Foo"];
    var f := d + ["bin", "game.exe"];
    assert f[..|d|] == d;
  }

  /** Unless it is the flag itself, the program path leads the target name. */
  lemma ProgramPathLeadsTarget(argv0: string, userArgs: seq<string>)
    requires argv0 != CleanupArgument
    ensures StartsWith(TargetName([argv0] + userArgs), argv0)
  {
    WithoutFlagAppend([argv0], userArgs);
    assert WithoutFlag([argv0]) == [argv0];
    JoinStartsWithFirst(WithoutFlag([argv0] + userArgs), " ");
  }

  /**
   * As written, `main` can only ever remove a directory whose full path
   * contains the program's own path.
   */
  lemma RemovalNeedsProgramPath(dirs: set<Path>, files: set<Path>, argv0: string, userArgs: seq<string>)
    requires argv0 != CleanupArgument
    ensures var c := RustDecide(dirs, files, GameRoots.RustGameRootDirectories(), TargetName([argv0] + userArgs));
      c.decision.Removed? ==> Contains(PathString(c.decision.dir), argv0)
  {
    var target := TargetName([argv0] + userArgs);
    var c := RustDecide(dirs, files, GameRoots.RustGameRootDirectories(), target);
    RustRemovalIsSafe(dirs, files, GameRoots.RustGameRootDirectories(), target);
    if c.decision.Removed? {
      ProgramPathLeadsTarget(argv0, userArgs);
      assert target == argv0 + target[|argv0|..];
      ContainsPrefix(PathString(c.decision.dir), argv0, target[|argv0|..]);
    }
  }

  /** A target longer than every child's path string matches nothing. */
  lemma LongTargetMatchesNothing(dirs: set<Path>, root: Path, target: string)
    requires forall d | d in dirs && IsChildOf(root, d) :: |PathString(d)| < |target|
    ensures Matches(dirs, root, target) == {}
  {
    forall d | d in Matches(dirs, root, target) ensures false {
      ContainsLength(PathString(d), target);
    }
  }

  /** A drive with the single game folder `D:\Ubisoft\Foo` and no files. */
  function SampleDirs(): set<Path> {
    {["D:"], ["D:", "Ubisoft"], ["D:", "Ubisoft", "Foo"]}
  }

  /** Of the Rust roots, only `D:\Ubisoft` exists on the sample drive. */
  lemma SampleRoots(j: nat)
    requires j < |GameRoots.RustGameRootDirectories()| && j != 5
    ensures GameRoots.RustGameRootDirectories()[j] !in SampleDirs()
  {
  }

  /** The path string of `D:\Ubisoft\Foo` is 14 characters long. */
  lemma SampleFooPathLength()
    ensures |PathString(["D:", "Ubisoft", "Foo"])| == 14
  {
    var d := ["D:", "Ubisoft", "Foo"];
    assert d[1..] == ["Ubisoft", "Foo"] && d[1..][1..] == ["Foo"];
  }

  /** No child of `D:\Ubisoft` on the sample drive has a path string longer than 14 characters. */
  lemma SampleUbisoftMatches(target: string)
    requires |target| > 14
    ensures Matches(SampleDirs(), ["D:", "Ubisoft"], target) == {}
  {
    SampleFooPathLength();
    forall d | d in SampleDirs() && IsChildOf(["D:", "Ubisoft"], d) ensures |PathString(d)| < |target| {
      assert d == ["D:", "Ubisoft", "Foo"];
    }
    LongTargetMatchesNothing(SampleDirs(), ["D:", "Ubisoft"], target);
  }

  /** The unfiltered command line `C:\Tools\gamespace.exe --cleanup Foo`. */
  function SampleCommandLine(): seq<string> {
    ["C:\\Tools\\gamespace.exe", "--cleanup", "Foo"]
  }

  /** Dropping the flag from the sample command line keeps the program path. */
  lemma SampleWithoutFlag()
    ensures WithoutFlag(SampleCommandLine()) == [SampleCommandLine()[0], SampleCommandLine()[2]]
  {
    var args := SampleCommandLine();
    assert args == [args[0]] + [args[1]] + [args[2]];
    WithoutFlagAppend([args[0]] + [args[1]], [args[2]]);
    WithoutFlagAppend([args[0]], [args[1]]);
    assert WithoutFlag([args[1]]) == [];
  }

  /** The program path and the folder name, joined by a space, make 26 characters. */
  lemma SampleTargetLength()
    ensures |TargetName(SampleCommandLine())| == 26
  {
    var args := SampleCommandLine();
    SampleWithoutFlag();
    assert TargetName(args) == args[0] + " " + args[2];
    assert |args[0]| == 22;
  }

  /**
   * As written, the target is `C:\Tools\gamespace.exe Foo`, longer than
   * any path on the sample drive, so `D:\Ubisoft\Foo` is not found.
   */
  lemma ProgramPathDefeatsCleanup()
    ensures RustDecide(SampleDirs(), {}, GameRoots.RustGameRootDirectories(), TargetName(SampleCommandLine())).decision
         == NotFound
  {
    var dirs, roots := SampleDirs(), GameRoots.RustGameRootDirectories();
    var target := TargetName(SampleCommandLine());
    SampleTargetLength();
    forall j | 0 <= j < |roots| ensures !Decisive(dirs, {}, roots[j], target) {
      if j == 5 {
        SampleUbisoftMatches(target);
      } else {
        SampleRoots(j);
      }
    }
    RustNotFoundIffNoDecisiveRoot(dirs, {}, roots, target);
  }

  /** Without the program path, the target of the sample command line is the folder name. */
  lemma SampleTargetWithoutProgramPath()
    ensures TargetName(SampleCommandLine()[1..]) == "Foo"
  {
    assert SampleCommandLine()[1..] == ["--cleanup", "Foo"];
    assert WithoutFlag(["--cleanup", "Foo"]) == ["Foo"];
  }

  /** On the sample drive, `Foo` matches exactly `D:\Ubisoft\Foo` below `D:\Ubisoft`. */
  lemma SampleUbisoftMatchesFoo()
    ensures Matches(SampleDirs(), ["D:", "Ubisoft"], "Foo") == {["D:", "Ubisoft", "Foo"]}
  {
    NamedChildMatches(SampleDirs(), ["D:", "Ubisoft"], ["D:", "Ubisoft", "Foo"], "Foo");
  }

  /** With the program path skipped, the same command removes `D:\Ubisoft\Foo`. */
  lemma SkippingProgramPathRemovesFoo()
    ensures RustDecide(SampleDirs(), {}, GameRoots.RustGameRootDirectories(), TargetName(SampleCommandLine()[1..])).decision
         == Removed(["D:", "Ubisoft", "Foo"])
  {
    var dirs, roots := SampleDirs(), GameRoots.RustGameRootDirectories();
    var foo := ["D:", "Ubisoft", "Foo"];
    SampleTargetWithoutProgramPath();
    assert roots[5] == ["D:", "Ubisoft"];
    SampleUbisoftMatchesFoo();
    assert ExeFiles({}, foo) == {};
    RustFirstDecisiveRootDecides(dirs, {}, roots, "Foo", 5);
  }
}

/**
 * The C# cleanup guard, `Program.ShouldCleanupOrphanedDirectory`: with the
 * `--cleanup` flag, look in each existing root, in dictionary order, for
 * directories at any depth whose name is the target; skip roots with no
 * match, report and skip roots with several, and at the first root with
 * exactly one match either refuse (an `.exe` lies somewhere below it) or
 * delete it, then stop.
 */
module CsCleanup {
  import opened Paths
  import opened Guard
  import opened FileSystem
  import GameRoots

  /** Names the `*.exe` search pattern selects (letter case and 8.3 short names aside). */
  predicate IsExeName(name: string) {
    |name| >= 4 && name[|name| - 4..] == ".exe"
  }

  /** `Directory.GetDirectories(root, target, SearchOption.AllDirectories)`. */
  function Matches(dirs: set<Path>, root: Path, target: string): set<Path> {
    set d | d in dirs && IsUnder(root, d) && Leaf(d) == target
  }

  /** `Directory.GetFiles(dir, "*.exe", SearchOption.AllDirectories)`. */
  function ExeFiles(files: set<Path>, dir: Path): set<Path> {
    set f | f in files && IsUnder(dir, f) && IsExeName(Leaf(f))
  }

  /** The root paths the guard walks: the dictionary's keys in order. */
  function CleanupRoots(): seq<Path> {
    GameRoots.RootPaths(GameRoots.GameRootDirectories())
  }

  /** What the guard does at one root against a fixed disk. */
  ghost function CsVisit(dirs: set<Path>, files: set<Path>, root: Path, target: string): Visit {
    var found := Matches(dirs, root, target);
    if root !in dirs || |found| == 0 then Skip
    else if |found| > 1 then Ambiguous
    else
      var d := Only(found);
      Decided(if |ExeFiles(files, d)| > 0 then Unsafe(d) else Removed(d))
  }

  ghost function CsVisits(dirs: set<Path>, files: set<Path>, roots: seq<Path>, target: string): (r: seq<Visit>)
    ensures |r| == |roots|
    ensures forall j | 0 <= j < |roots| :: r[j] == CsVisit(dirs, files, roots[j], target)
  {
    seq(|roots|, j requires 0 <= j < |roots| => CsVisit(dirs, files, roots[j], target))
  }

  /** The guard's walk over `roots` against a fixed disk. */
  ghost function CsDecide(dirs: set<Path>, files: set<Path>, roots: seq<Path>, target: string): Cleanup {
    Walk(roots, CsVisits(dirs, files, roots, target))
  }

  /**
   * One pass of the loop body up to the decision: whether the root exists,
   * how many directories match, and whether the single match holds an
   * executable. Reads the disk and changes nothing.
   */
  method InspectRoot(fs: Drive, root: Path, target: string) returns (visit: Visit)
    ensures visit == CsVisit(fs.dirs, fs.files, root, target)
    ensures visit.Decided? ==> visit.decision.dir in fs.dirs
  {
    if !fs.DirectoryExists(root) {
      return Skip;
    }
    var dirs := Matches(fs.dirs, root, target);
    if |dirs| == 0 {
      return Skip;
    }
    if |dirs| > 1 {
      return Ambiguous;
    }
    var found :| found in dirs;
    assert found == Only(dirs) by {
      assert dirs == {Only(dirs)};
    }
    var exeFiles := ExeFiles(fs.files, found);
    if |exeFiles| > 0 {
      return Decided(Unsafe(found));
    }
    return Decided(Removed(found));
  }

  /**
   * The `foreach` over the roots up to its `break`: skip, report ambiguity
   * and go on, or stop at the first decided root. Reads the disk and changes
   * nothing; the outcome is the walk above.
   */
  method SearchRoots(fs: Drive, roots: seq<Path>, target: string) returns (outcome: Cleanup)
    ensures outcome == CsDecide(fs.dirs, fs.files, roots, target)
    ensures outcome.decision.Removed? ==> outcome.decision.dir in fs.dirs
  {
    ghost var visits := CsVisits(fs.dirs, fs.files, roots, target);
    var ambiguous: seq<Path> := [];
    var decision := NotFound;
    var i := 0;
    while i < |roots|
      invariant 0 <= i <= |roots|
      invariant decision == NotFound
      invariant Walk(roots, visits)
             == Cleanup(ambiguous + Walk(roots[i..], visits[i..]).ambiguous, Walk(roots[i..], visits[i..]).decision)
    {
      var root := roots[i];
      assert roots[i..][1..] == roots[i + 1..] && visits[i..][1..] == visits[i + 1..];
      var visit := InspectRoot(fs, root, target);
      i := i + 1;
      if visit.Skip? {
        continue;
      }
      if visit.Ambiguous? {
        ambiguous := ambiguous + [root];
        continue;
      }
      decision := visit.decision;
      break;
    }
    assert ambiguous + [] == ambiguous;
    return Cleanup(ambiguous, decision);
  }

  /**
   * Returns whether cleanup mode was entered: exactly when some argument is
   * the flag. Without it the disk is untouched; with it the search runs
   * over the fixed roots for the name the other arguments make.
   */
  method ShouldCleanupOrphanedDirectory(fs: Drive, args: seq<string>) returns (cleanup: bool, outcome: Cleanup)
    requires fs.Valid()
    modifies fs
    ensures fs.Valid()
    ensures cleanup <==> CleanupArgument in args
    ensures !cleanup ==> outcome == Cleanup([], NotFound) && fs.dirs == old(fs.dirs) && fs.files == old(fs.files)
    ensures cleanup ==> outcome == CsDecide(old(fs.dirs), old(fs.files), CleanupRoots(), TargetName(args))
    ensures outcome.decision.Removed? ==>
      fs.dirs == Prune(old(fs.dirs), outcome.decision.dir) && fs.files == Prune(old(fs.files), outcome.decision.dir)
    ensures !outcome.decision.Removed? ==> fs.dirs == old(fs.dirs) && fs.files == old(fs.files)
  {
    if CleanupArgument !in args {
      return false, Cleanup([], NotFound);
    }
    var target := TargetName(args);
    outcome := SearchRoots(fs, CleanupRoots(), target);
    if outcome.decision.Removed? {
      fs.Delete(outcome.decision.dir);
    }
    return true, outcome;
  }

  /** The root exists and holds exactly one directory of the target's name. */
  predicate Unique(dirs: set<Path>, root: Path, target: string) {
    root in dirs && |Matches(dirs, root, target)| == 1
  }

  /** The root exists and holds several directories of the target's name. */
  predicate Several(dirs: set<Path>, root: Path, target: string) {
    root in dirs && |Matches(dirs, root, target)| > 1
  }

  /**
   * The first root with exactly one match decides, and only the ambiguous
   * roots before it are reported: the decision is about that match, and it
   * is a removal exactly when no `.exe` file lies anywhere below it.
   */
  lemma CsFirstUniqueRootDecides(dirs: set<Path>, files: set<Path>, roots: seq<Path>, target: string, k: nat)
    requires k < |roots| && Unique(dirs, roots[k], target)
    requires forall j | 0 <= j < k :: !Unique(dirs, roots[j], target)
    ensures var c := CsDecide(dirs, files, roots, target);
      && (c.decision.Removed? || c.decision.Unsafe?)
      && Matches(dirs, roots[k], target) == {c.decision.dir}
      && (c.decision.Removed? <==> ExeFiles(files, c.decision.dir) == {})
      && forall p :: p in c.ambiguous <==> exists j | 0 <= j < k :: roots[j] == p && Several(dirs, p, target)
  {
    var visits := CsVisits(dirs, files, roots, target);
    assert NoDecisionBefore(visits, k);
    WalkStopsAtFirstDecision(roots, visits, k);
    var c := CsDecide(dirs, files, roots, target);
    forall p ensures p in c.ambiguous <==> exists j | 0 <= j < k :: roots[j] == p && Several(dirs, p, target) {
      AmbiguousRootsMembers(roots[..k], visits[..k], p);
      if p in c.ambiguous {
        var j :| 0 <= j < k && roots[..k][j] == p && visits[..k][j].Ambiguous?;
        assert roots[j] == p && Several(dirs, p, target);
      }
      if exists j | 0 <= j < k :: roots[j] == p && Several(dirs, p, target) {
        var j :| 0 <= j < k && roots[j] == p && Several(dirs, p, target);
        assert roots[..k][j] == p && visits[..k][j].Ambiguous?;
      }
    }
  }

  /**
   * Nothing is decided exactly when no root has a single match; then every
   * existing root with several matches is reported.
   */
  lemma CsNotFoundIffNoUniqueRoot(dirs: set<Path>, files: set<Path>, roots: seq<Path>, target: string)
    ensures var c := CsDecide(dirs, files, roots, target);
      && (c.decision == NotFound <==> forall j | 0 <= j < |roots| :: !Unique(dirs, roots[j], target))
      && (c.decision == NotFound ==>
            forall p :: p in c.ambiguous <==> exists j | 0 <= j < |roots| :: roots[j] == p && Several(dirs, p, target))
  {
    var visits := CsVisits(dirs, files, roots, target);
    var c := CsDecide(dirs, files, roots, target);
    if exists j | 0 <= j < |roots| :: Unique(dirs, roots[j], target) {
      var j :| 0 <= j < |roots| && Unique(dirs, roots[j], target);
      assert visits[j].Decided?;
      var k := FirstDecision(visits);
      CsFirstUniqueRootDecides(dirs, files, roots, target, k);
    } else {
      WalkWithoutDecision(roots, visits);
      forall p ensures p in c.ambiguous <==> exists j | 0 <= j < |roots| :: roots[j] == p && Several(dirs, p, target) {
        AmbiguousRootsMembers(roots, visits, p);
      }
    }
  }

  /**
   * The safety guard: a removed directory is a match for the target, strictly
   * below an existing root, and has no `.exe` file anywhere beneath it; a
   * refused one does have one.
   */
  lemma CsRemovalIsSafe(dirs: set<Path>, files: set<Path>, roots: seq<Path>, target: string)
    ensures var c := CsDecide(dirs, files, roots, target);
      && !c.decision.ReadDirFailed?
      && (c.decision.Removed? || c.decision.Unsafe? ==>
            var d := c.decision.dir;
            && d in dirs && d != [] && Leaf(d) == target
            && (exists r | r in roots :: r in dirs && IsUnder(r, d))
            && (c.decision.Removed? <==> forall f | f in files && IsUnder(d, f) :: !IsExeName(Leaf(f))))
  {
    var visits := CsVisits(dirs, files, roots, target);
    var c := CsDecide(dirs, files, roots, target);
    if exists j | 0 <= j < |roots| :: visits[j].Decided? {
      var k := FirstDecision(visits);
      CsFirstUniqueRootDecides(dirs, files, roots, target, k);
      var d := c.decision.dir;
      assert d in Matches(dirs, roots[k], target);
      assert roots[k] in roots;
      if !c.decision.Removed? {
        var f :| f in ExeFiles(files, d);
        assert f in files && IsUnder(d, f) && IsExeName(Leaf(f));
      } else {
        forall f | f in files && IsUnder(d, f) ensures !IsExeName(Leaf(f)) {
          assert f !in ExeFiles(files, d);
        }
      }
    } else {
      WalkWithoutDecision(roots, visits);
    }
  }
}

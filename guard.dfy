/**
 * What the C# and the Rust cleanup guards share: the `--cleanup` flag, how
 * the target folder name is built from the arguments, and the shape of the
 * guard's outcome.
 */
module Guard {
  import opened Paths

  const CleanupArgument: string := "--cleanup"

  /** The arguments with every occurrence of the flag dropped, in their original order. */
  function WithoutFlag(args: seq<string>): (r: seq<string>)
    ensures CleanupArgument !in r
    ensures forall x | x in r :: x in args
    ensures forall x | x != CleanupArgument :: multiset(r)[x] == multiset(args)[x]
    ensures |r| == |args| - multiset(args)[CleanupArgument]
  {
    if args == [] then []
    else
      assert args == [args[0]] + args[1..];
      (if args[0] == CleanupArgument then [] else [args[0]]) + WithoutFlag(args[1..])
  }

  /** Dropping the flag commutes with concatenation: it is a filter. */
  lemma {:induction false} WithoutFlagAppend(a: seq<string>, b: seq<string>)
    ensures WithoutFlag(a + b) == WithoutFlag(a) + WithoutFlag(b)
  {
    if a == [] {
      assert a + b == b;
    } else {
      assert (a + b)[1..] == a[1..] + b;
      WithoutFlagAppend(a[1..], b);
    }
  }

  /** The folder name the guard looks for: the remaining arguments joined by single spaces. */
  function TargetName(args: seq<string>): string {
    Join(WithoutFlag(args), " ")
  }

  /**
   * When no remaining argument contains a space, the target name determines
   * the arguments it was built from.
   */
  lemma TargetNameTokens(args: seq<string>)
    requires WithoutFlag(args) != []
    requires forall a | a in args && a != CleanupArgument :: ' ' !in a
    ensures Split(TargetName(args), ' ') == WithoutFlag(args)
  {
    var parts := WithoutFlag(args);
    assert " " == [' '];
    SplitJoin(parts, ' ');
  }

  /** The one element of a singleton set (`dirs[0]` when exactly one directory matched). */
  ghost function Only<T>(s: set<T>): (x: T)
    requires |s| == 1
    ensures s == {x}
  {
    var x :| x in s;
    assert |s - {x}| == 0;
    x
  }

  /** How the guard's search ended. */
  datatype Decision =
    | NotFound               // no root decided the search
    | Unsafe(dir: Path)      // the single match holds an executable: kept, search stops
    | Removed(dir: Path)     // the single match was deleted, search stops
    | ReadDirFailed(dir: Path)  // Rust only: listing a directory panicked

  /** The decision, and the roots for which an ambiguity message was printed, in order. */
  datatype Cleanup = Cleanup(ambiguous: seq<Path>, decision: Decision)

  /** What looking in one root yields. */
  datatype Visit =
    | Skip               // the root is missing or holds no match: go on
    | Ambiguous          // several matches: print a message, go on
    | Decided(decision: Decision)  // stop here with this decision

  /**
   * The walk over the roots in order: skipped roots contribute nothing,
   * ambiguous ones a message, and the first decided one ends the walk.
   */
  function Walk(roots: seq<Path>, visits: seq<Visit>): Cleanup
    requires |roots| == |visits|
  {
    if roots == [] then Cleanup([], NotFound)
    else
      match visits[0]
      case Skip => Walk(roots[1..], visits[1..])
      case Ambiguous =>
        var rest := Walk(roots[1..], visits[1..]);
        Cleanup([roots[0]] + rest.ambiguous, rest.decision)
      case Decided(d) => Cleanup([], d)
  }

  /** The roots whose visit was ambiguous, in order (every one of them, no stopping). */
  function AmbiguousRoots(roots: seq<Path>, visits: seq<Visit>): seq<Path>
    requires |roots| == |visits|
  {
    if roots == [] then []
    else (if visits[0].Ambiguous? then [roots[0]] else []) + AmbiguousRoots(roots[1..], visits[1..])
  }

  predicate NoDecisionBefore(visits: seq<Visit>, k: nat)
    requires k <= |visits|
  {
    forall j | 0 <= j < k :: !visits[j].Decided?
  }

  /**
   * The walk ends with the decision of the first decided root, having
   * printed an ambiguity message for exactly the ambiguous roots before it.
   */
  lemma {:induction false} WalkStopsAtFirstDecision(roots: seq<Path>, visits: seq<Visit>, k: nat)
    requires |roots| == |visits|
    requires k < |visits| && visits[k].Decided? && NoDecisionBefore(visits, k)
    ensures Walk(roots, visits) == Cleanup(AmbiguousRoots(roots[..k], visits[..k]), visits[k].decision)
  {
    if k > 0 {
      assert NoDecisionBefore(visits[1..], k - 1) by {
        forall j | 0 <= j < k - 1 ensures !visits[1..][j].Decided? {
          assert visits[1..][j] == visits[j + 1];
        }
      }
      WalkStopsAtFirstDecision(roots[1..], visits[1..], k - 1);
      assert roots[..k][1..] == roots[1..][..k - 1];
      assert visits[..k][1..] == visits[1..][..k - 1];
    }
  }

  /** With no decided root the walk finds nothing and reports every ambiguous root. */
  lemma {:induction false} WalkWithoutDecision(roots: seq<Path>, visits: seq<Visit>)
    requires |roots| == |visits|
    requires NoDecisionBefore(visits, |visits|)
    ensures Walk(roots, visits) == Cleanup(AmbiguousRoots(roots, visits), NotFound)
  {
    if roots != [] {
      assert NoDecisionBefore(visits[1..], |visits| - 1) by {
        forall j | 0 <= j < |visits| - 1 ensures !visits[1..][j].Decided? {
          assert visits[1..][j] == visits[j + 1];
        }
      }
      WalkWithoutDecision(roots[1..], visits[1..]);
    }
  }

  /** A root is reported exactly when it was walked and its visit was ambiguous. */
  lemma {:induction false} AmbiguousRootsMembers(roots: seq<Path>, visits: seq<Visit>, p: Path)
    requires |roots| == |visits|
    ensures p in AmbiguousRoots(roots, visits) <==> exists j | 0 <= j < |roots| :: roots[j] == p && visits[j].Ambiguous?
  {
    if roots != [] {
      AmbiguousRootsMembers(roots[1..], visits[1..], p);
      if exists j | 0 <= j < |roots| :: roots[j] == p && visits[j].Ambiguous? {
        var j :| 0 <= j < |roots| && roots[j] == p && visits[j].Ambiguous?;
        if j > 0 {
          assert roots[1..][j - 1] == p && visits[1..][j - 1].Ambiguous?;
        }
      }
      if p in AmbiguousRoots(roots[1..], visits[1..]) {
        var j :| 0 <= j < |roots| - 1 && roots[1..][j] == p && visits[1..][j].Ambiguous?;
        assert roots[j + 1] == p && visits[j + 1].Ambiguous?;
      }
    }
  }

  /** The index of the first decided visit, when there is one. */
  lemma {:induction false} FirstDecision(visits: seq<Visit>) returns (k: nat)
    requires exists j | 0 <= j < |visits| :: visits[j].Decided?
    ensures k < |visits| && visits[k].Decided? && NoDecisionBefore(visits, k)
  {
    if visits[0].Decided? {
      k := 0;
    } else {
      var j :| 0 <= j < |visits| && visits[j].Decided?;
      assert visits[1..][j - 1].Decided?;
      var k' := FirstDecision(visits[1..]);
      k := k' + 1;
      forall i | 0 <= i < k ensures !visits[i].Decided? {
        if i > 0 {
          assert visits[i] == visits[1..][i - 1];
        }
      }
    }
  }
}

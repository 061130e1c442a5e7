/**
 * The fixed game-library roots on drive D: and the platform label of each.
 * The C# program keeps them in a dictionary (enumerated in insertion order),
 * the Rust port in a plain list of seven paths without labels.
 */
module GameRoots {
  import opened Paths

  datatype GameRoot = GameRoot(path: Path, platform: string)

  /** The C# dictionary's entries, in the order they are written. */
  function GameRootDirectories(): (r: seq<GameRoot>)
    ensures |r| == 8
    ensures forall i | 0 <= i < |r| :: |r[i].path| >= 2 && r[i].path[0] == "D:" && r[i].platform != ""
  {
    [ GameRoot(["D:", "Battle_Net"], "Battle.NET"),
      GameRoot(["D:", "EA Games"], "EA Games"),
      GameRoot(["D:", "EA_Games"], "EA Games"),
      GameRoot(["D:", "EpicGames"], "Epic Games"),
      GameRoot(["D:", "GOG_Galaxy", "Games"], "GOG Galaxy"),
      GameRoot(["D:", "SteamLibrary", "steamapps", "common"], "Steam"),
      GameRoot(["D:", "Ubisoft"], "Ubisoft"),
      GameRoot(["D:", "XboxGames"], "XBOX Games") ]
  }

  /** The Rust port's root list. */
  function RustGameRootDirectories(): (r: seq<Path>)
    ensures |r| == 7
    ensures forall i | 0 <= i < |r| :: |r[i]| >= 2 && r[i][0] == "D:"
  {
    [ ["D:", "Battle_Net"],
      ["D:", "EA_Games"],
      ["D:", "EpicGames"],
      ["D:", "GOG_Galaxy", "Games"],
      ["D:", "SteamLibrary", "steamapps", "common"],
      ["D:", "Ubisoft"],
      ["D:", "XboxGames"] ]
  }

  /** The dictionary's keys, in enumeration order (`Select(c => c.Key)`). */
  function RootPaths(roots: seq<GameRoot>): (r: seq<Path>)
    ensures |r| == |roots|
    ensures forall i | 0 <= i < |roots| :: r[i] == roots[i].path
    ensures forall p :: p in r <==> p in RootMap(roots)
  {
    seq(|roots|, i requires 0 <= i < |roots| => roots[i].path)
  }

  /** The dictionary built by indexer assignments: a later entry overwrites an earlier one. */
  function RootMap(roots: seq<GameRoot>): (m: map<Path, string>)
    ensures m.Keys == set i | 0 <= i < |roots| :: roots[i].path
  {
    if roots == [] then map[]
    else
      var last := roots[|roots| - 1];
      var m := RootMap(roots[..|roots| - 1]);
      assert forall i | 0 <= i < |roots| - 1 :: roots[..|roots| - 1][i] == roots[i];
      m[last.path := last.platform]
  }

  predicate DistinctPaths(roots: seq<GameRoot>) {
    forall i, j | 0 <= i < j < |roots| :: roots[i].path != roots[j].path
  }

  /** With distinct keys every entry's platform is what the dictionary returns for its path. */
  lemma {:induction false} RootMapLookup(roots: seq<GameRoot>, i: nat)
    requires DistinctPaths(roots)
    requires i < |roots|
    ensures roots[i].path in RootMap(roots)
    ensures RootMap(roots)[roots[i].path] == roots[i].platform
  {
    var n := |roots| - 1;
    if i < n {
      var front := roots[..n];
      assert front[i] == roots[i];
      assert DistinctPaths(front) by {
        forall a, b | 0 <= a < b < |front| ensures front[a].path != front[b].path {
          assert front[a] == roots[a] && front[b] == roots[b];
        }
      }
      RootMapLookup(front, i);
      assert roots[i].path != roots[n].path;
    }
  }

  /** Every value in the dictionary is the platform of an entry with that key. */
  lemma {:induction false} RootMapValue(roots: seq<GameRoot>, p: Path)
    requires p in RootMap(roots)
    ensures exists i | 0 <= i < |roots| :: roots[i].path == p && roots[i].platform == RootMap(roots)[p]
  {
    var n := |roots| - 1;
    if roots[n].path != p {
      var front := roots[..n];
      RootMapValue(front, p);
      var i :| 0 <= i < |front| && front[i].path == p && front[i].platform == RootMap(front)[p];
      assert roots[i] == front[i];
    } else {
      assert roots[n].platform == RootMap(roots)[p];
    }
  }

  /**
   * With distinct paths the key list names every dictionary key exactly
   * once: there are as many keys as entries.
   */
  lemma {:induction false} RootPathsCountKeys(roots: seq<GameRoot>)
    requires DistinctPaths(roots)
    ensures |RootMap(roots).Keys| == |RootPaths(roots)|
  {
    if roots != [] {
      var n := |roots| - 1;
      var front := roots[..n];
      assert DistinctPaths(front) by {
        forall a, b | 0 <= a < b < |front| ensures front[a].path != front[b].path {
          assert front[a] == roots[a] && front[b] == roots[b];
        }
      }
      RootPathsCountKeys(front);
      assert roots[n].path !in RootMap(front) by {
        forall i | 0 <= i < |front| ensures front[i].path != roots[n].path {
          assert front[i] == roots[i];
        }
      }
      assert RootMap(roots).Keys == RootMap(front).Keys + {roots[n].path};
    }
  }

  /** The C# table's keys are distinct, so the dictionary enumerates exactly its entries. */
  lemma CsRootsDistinct()
    ensures DistinctPaths(GameRootDirectories())
  {
    var roots := GameRootDirectories();
    var names := ["Battle_Net", "EA Games", "EA_Games", "EpicGames", "GOG_Galaxy", "SteamLibrary", "Ubisoft", "XboxGames"];
    forall i, j | 0 <= i < j < |roots| ensures roots[i].path != roots[j].path {
      assert roots[i].path[1] == names[i] && roots[j].path[1] == names[j];
    }
  }

  /** The Rust list is the C# key list without `D:\EA Games`, in the same order. */
  lemma RustRootsAreCsRoots()
    ensures RustGameRootDirectories()
         == RootPaths(GameRootDirectories())[..1] + RootPaths(GameRootDirectories())[2..]
  {
  }

  /** Both spellings of the EA folder carry the same label. */
  lemma EaRootsShareLabel()
    ensures var m := RootMap(GameRootDirectories());
      && ["D:", "EA Games"] in m && ["D:", "EA_Games"] in m
      && m[["D:", "EA Games"]] == m[["D:", "EA_Games"]] == "EA Games"
  {
    CsRootsDistinct();
    RootMapLookup(GameRootDirectories(), 1);
    RootMapLookup(GameRootDirectories(), 2);
  }
}

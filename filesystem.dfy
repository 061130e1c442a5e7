/**
 * The part of the disk the tool looks at, as a mutable object: the set of
 * directory paths and the set of file paths that exist. Deleting a directory
 * recursively (`Directory.Delete(path, true)`, `fs::remove_dir_all`) removes
 * that directory and everything below it.
 */
module FileSystem {
  import opened Paths

  /** The entries of `s` that are neither `p` nor below `p`. */
  function Prune(s: set<Path>, p: Path): set<Path> {
    set q | q in s && !IsPrefixOf(p, q)
  }

  /** A component name is non-empty and holds no path separator. */
  predicate GoodName(name: string) {
    name != "" && '\\' !in name
  }

  predicate GoodPath(p: Path) {
    forall i | 0 <= i < |p| :: GoodName(p[i])
  }

  class Drive {
    var dirs: set<Path>
    var files: set<Path>

    /**
     * Nothing is both a file and a directory, every name is a proper
     * component, and every file's parent directory exists.
     */
    ghost predicate Valid()
      reads this
    {
      && dirs !! files
      && (forall p | p in dirs :: p != [] && GoodPath(p))
      && (forall f | f in files :: |f| >= 2 && GoodPath(f) && f[..|f| - 1] in dirs)
    }

    constructor (dirs: set<Path>, files: set<Path>)
      requires dirs !! files
      requires forall p | p in dirs :: p != [] && GoodPath(p)
      requires forall f | f in files :: |f| >= 2 && GoodPath(f) && f[..|f| - 1] in dirs
      ensures Valid()
      ensures this.dirs == dirs && this.files == files
    {
      this.dirs := dirs;
      this.files := files;
    }

    /** `Directory.Exists`: only directories count. */
    predicate DirectoryExists(p: Path)
      reads this
    {
      p in dirs
    }

    /** Rust's `Path::exists`: a file or a directory. */
    predicate Exists(p: Path)
      reads this
    {
      p in dirs || p in files
    }

    /** Recursive delete of directory `p`: `p` and its whole subtree go, nothing else. */
    method Delete(p: Path)
      requires Valid()
      requires p in dirs
      modifies this
      ensures Valid()
      ensures dirs == Prune(old(dirs), p) && files == Prune(old(files), p)
      ensures p !in dirs
    {
      dirs := set q | q in dirs && !IsPrefixOf(p, q);
      files := set q | q in files && !IsPrefixOf(p, q);
      assert p[..|p|] == p;
      forall f | f in files ensures f[..|f| - 1] in dirs {
        var parent := f[..|f| - 1];
        assert parent in old(dirs);
        // an ancestor of the parent is an ancestor of the file, and the file was kept
        assert |p| <= |parent| ==> f[..|p|] == parent[..|p|];
      }
    }
  }
}

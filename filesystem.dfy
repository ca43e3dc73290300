/** The local file system as the core sees it through the `os` package: a map
    from paths to file contents plus the set of directories. Only the calls the
    synchronisation code makes are modelled, with the outcomes Go gives them. */
module FileSystem {
  import opened Common

  /** Every file and every directory other than the root lies in a directory. */
  ghost predicate WellFormed(files: map<Path, Bytes>, dirs: set<Path>)
  {
    && [] in dirs
    && files.Keys !! dirs
    && (forall p :: p in files ==> |p| > 0 && Parent(p) in dirs)
    && (forall p :: p in dirs && p != [] ==> Parent(p) in dirs)
  }

  /** `d` holds no entry. */
  predicate EmptyDir(files: map<Path, Bytes>, dirs: set<Path>, d: Path)
  {
    && (forall p | p in files.Keys :: !(|p| > 0 && Parent(p) == d))
    && (forall p | p in dirs :: !(|p| > 0 && Parent(p) == d))
  }

  /** `a` is `b` or one of its ancestors. */
  predicate Under(a: Path, b: Path)
  {
    |a| <= |b| && b[..|a|] == a
  }

  /** Every proper ancestor of an existing entry is a directory. */
  lemma {:induction false} AncestorIsDir(files: map<Path, Bytes>, dirs: set<Path>, p: Path, k: nat)
    requires WellFormed(files, dirs)
    requires p in files || p in dirs
    requires k < |p|
    ensures p[..k] in dirs
    decreases |p|
  {
    assert Parent(p) in dirs;
    if k < |p| - 1 {
      AncestorIsDir(files, dirs, Parent(p), k);
      assert Parent(p)[..k] == p[..k];
    }
  }

  /** Whatever lies below a directory lies below its ancestors. */
  lemma UnderParent(a: Path, b: Path)
    requires |b| > 0
    ensures Under(a, Parent(b)) ==> Under(a, b)
  {
  }

  /** `p` and all its ancestors, the directories `os.MkdirAll(p)` makes sure of. */
  function Prefixes(p: Path): set<Path>
  {
    set k | 0 <= k <= |p| :: p[..k]
  }

  /** No file lies on the way to `p`, so `os.MkdirAll(p)` can succeed. */
  predicate NoFileOnPath(files: map<Path, Bytes>, p: Path)
  {
    forall k :: 0 <= k <= |p| ==> p[..k] !in files
  }

  /** A file can be created at `p`: no directory is there and its parent
      exists, as `os.Create` and `os.WriteFile` need. */
  predicate Creatable(dirs: set<Path>, p: Path)
  {
    p !in dirs && |p| > 0 && Parent(p) in dirs
  }

  /** Outcome of `os.Remove`. */
  datatype RemoveOutcome = Removed | NotExist | Failed

  class Disk {
    var files: map<Path, Bytes>
    var dirs: set<Path>

    ghost predicate Valid()
      reads this
    {
      WellFormed(files, dirs)
    }

    constructor ()
      ensures Valid() && files == map[] && dirs == {[]}
    {
      files := map[];
      dirs := {[]};
    }

    /** `os.Remove`: a file, or an empty directory other than the root. */
    method Remove(p: Path) returns (r: RemoveOutcome)
      requires Valid()
      modifies this
      ensures Valid()
      ensures r == (if p in old(files) then Removed
                    else if p !in old(dirs) then NotExist
                    else if p != [] && EmptyDir(old(files), old(dirs), p) then Removed
                    else Failed)
      ensures r == Removed && p in old(files) ==> files == old(files) - {p} && dirs == old(dirs)
      ensures r == Removed && p !in old(files) ==> files == old(files) && dirs == old(dirs) - {p}
      ensures r != Removed ==> files == old(files) && dirs == old(dirs)
    {
      if p in files {
        files := files - {p};
        r := Removed;
      } else if p !in dirs {
        r := NotExist;
      } else if p != [] && EmptyDir(files, dirs, p) {
        dirs := dirs - {p};
        r := Removed;
      } else {
        r := Failed;
      }
    }

    /** `os.MkdirAll`: creates `p` and its missing ancestors; fails when one of them is a file. */
    method MkdirAll(p: Path) returns (ok: bool)
      requires Valid()
      modifies this
      ensures Valid()
      ensures ok == NoFileOnPath(old(files), p)
      ensures files == old(files)
      ensures ok ==> dirs == old(dirs) + Prefixes(p)
      ensures !ok ==> dirs == old(dirs)
    {
      ok := NoFileOnPath(files, p);
      if ok {
        var added := Prefixes(p);
        forall q | q in dirs + added && q != [] ensures Parent(q) in dirs + added {
          if q in added {
            var k :| 0 <= k <= |p| && q == p[..k];
            assert Parent(q) == p[..k - 1];
          }
        }
        forall q | q in added ensures q !in files {
          var k :| 0 <= k <= |p| && q == p[..k];
        }
        assert p[..0] == [];
        dirs := dirs + added;
      }
    }

    /** `os.Mkdir`: creates `p` when it does not exist and its parent is a directory. */
    method Mkdir(p: Path) returns (ok: bool)
      requires Valid()
      modifies this
      ensures Valid()
      ensures ok == (p !in old(files) && p !in old(dirs) && |p| > 0 && Parent(p) in old(dirs))
      ensures files == old(files)
      ensures dirs == if ok then old(dirs) + {p} else old(dirs)
    {
      ok := p !in files && p !in dirs && |p| > 0 && Parent(p) in dirs;
      if ok {
        dirs := dirs + {p};
      }
    }

    /** `os.Create` followed by writing `data`: the parent must be a directory and `p` not one. */
    method WriteFile(p: Path, data: Bytes) returns (ok: bool)
      requires Valid()
      modifies this
      ensures Valid()
      ensures ok == (p !in old(dirs) && |p| > 0 && Parent(p) in old(dirs))
      ensures files == if ok then old(files)[p := data] else old(files)
      ensures dirs == old(dirs)
    {
      ok := p !in dirs && |p| > 0 && Parent(p) in dirs;
      if ok {
        files := files[p := data];
      }
    }

    /** `os.RemoveAll`: `p` and everything below it; nothing to remove is not an error. */
    method RemoveAll(p: Path)
      requires Valid() && |p| > 0
      modifies this
      ensures Valid()
      ensures files == map q | q in old(files) && !Under(p, q) :: old(files)[q]
      ensures dirs == set q | q in old(dirs) && !Under(p, q)
    {
      var nfiles := map q | q in files && !Under(p, q) :: files[q];
      var ndirs := set q | q in dirs && !Under(p, q);
      forall q | q in nfiles ensures |q| > 0 && Parent(q) in ndirs {
        UnderParent(p, q);
      }
      forall q | q in ndirs && q != [] ensures Parent(q) in ndirs {
        UnderParent(p, q);
      }
      files := nfiles;
      dirs := ndirs;
    }
  }
}

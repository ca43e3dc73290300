/** Applying a change set to a workspace replica
    (filetracker/files-and-folders.go), over the `Disk` model. */
module FilesAndFolders {
  import opened Common
  import opened FileSystem
  import FileTree

  datatype FsError = ReadDirFailed | WalkFailed | RemoveFailed | MkdirFailed | CopyFailed

  /** Top-level names a workspace clean-up never removes. */
  predicate Protected(name: string)
  {
    name == ".PKr" || FileTree.ToolBinary(name)
  }

  /** The names listed by reading directory `d`. */
  function Entries(files: map<Path, Bytes>, dirs: set<Path>, d: Path): set<string>
  {
    set q | q in files.Keys + dirs && |q| == |d| + 1 && q[..|d|] == d :: q[|d|]
  }

  /** `q` lies below `d`, strictly. */
  predicate StrictlyUnder(d: Path, q: Path)
  {
    |q| > |d| && q[..|d|] == d
  }

  /** The cache directory of computed push ranges. */
  function ChangesDir(ws: Path): Path
  {
    ws + [".PKr", "Files", "Changes"]
  }

  /** `AreUpdatesCached`: reads the `Changes` directory and looks for a
      directory entry named exactly like the range. */
  method AreUpdatesCached(disk: Disk, ws: Path, pushRange: string) returns (r: Result<bool, FsError>)
    ensures ChangesDir(ws) !in disk.dirs ==> r == Err(ReadDirFailed)
    ensures ChangesDir(ws) in disk.dirs ==> r == Ok(ChangesDir(ws) + [pushRange] in disk.dirs)
  {
    var changes := ChangesDir(ws);
    if changes !in disk.dirs {
      return Err(ReadDirFailed);
    }
    var todo := Entries(disk.files, disk.dirs, changes);
    ghost var entries := todo;
    if changes + [pushRange] in disk.dirs {
      var q := changes + [pushRange];
      assert q[..|changes|] == changes && q[|changes|] == pushRange;
      assert pushRange in entries;
    }
    while todo != {}
      invariant todo <= entries
      invariant forall n :: n in entries - todo ==> !(changes + [n] in disk.dirs && n == pushRange)
      decreases todo
    {
      var name :| name in todo;
      if changes + [name] in disk.dirs && name == pushRange {
        return Ok(true);
      }
      todo := todo - {name};
    }
    return Ok(false);
  }

  /** Whether `CleanFilesFromWorkspace` removes `q`. */
  predicate Cleared(ws: Path, q: Path)
  {
    StrictlyUnder(ws, q) && !Protected(q[|ws|])
  }

  /** Every entry below `ws` hangs off one of its listed names. */
  lemma TopEntryListed(files: map<Path, Bytes>, dirs: set<Path>, ws: Path, q: Path)
    requires WellFormed(files, dirs)
    requires q in files || q in dirs
    requires StrictlyUnder(ws, q)
    ensures q[|ws|] in Entries(files, dirs, ws)
  {
    var top := q[..|ws| + 1];
    if |ws| + 1 < |q| {
      AncestorIsDir(files, dirs, q, |ws| + 1);
    } else {
      assert top == q;
    }
    assert top[..|ws|] == ws && top[|ws|] == q[|ws|];
  }

  /** The files left once the top-level names in `done` have been cleared. */
  ghost function KeptFiles(orig: map<Path, Bytes>, ws: Path, done: set<string>): map<Path, Bytes>
  {
    map q | q in orig && !(Cleared(ws, q) && q[|ws|] in done) :: orig[q]
  }

  /** The directories left once the top-level names in `done` have been cleared. */
  ghost function KeptDirs(orig: set<Path>, ws: Path, done: set<string>): set<Path>
  {
    set q | q in orig && !(Cleared(ws, q) && q[|ws|] in done)
  }

  /** What `RemoveAll(ws + [name])` takes is what clearing `name` takes. */
  lemma UnderTop(ws: Path, name: string, q: Path)
    ensures Under(ws + [name], q) <==> StrictlyUnder(ws, q) && q[|ws|] == name
  {
    if StrictlyUnder(ws, q) && q[|ws|] == name {
      assert q[..|ws| + 1] == q[..|ws|] + [q[|ws|]];
    }
  }

  lemma CleanStep(origF: map<Path, Bytes>, origD: set<Path>, ws: Path, done: set<string>, name: string)
    ensures !Protected(name) ==>
      (map q | q in KeptFiles(origF, ws, done) && !Under(ws + [name], q) :: KeptFiles(origF, ws, done)[q])
        == KeptFiles(origF, ws, done + {name})
    ensures !Protected(name) ==>
      (set q | q in KeptDirs(origD, ws, done) && !Under(ws + [name], q)) == KeptDirs(origD, ws, done + {name})
    ensures Protected(name) ==> KeptFiles(origF, ws, done) == KeptFiles(origF, ws, done + {name})
    ensures Protected(name) ==> KeptDirs(origD, ws, done) == KeptDirs(origD, ws, done + {name})
  {
    forall q ensures Under(ws + [name], q) <==> StrictlyUnder(ws, q) && q[|ws|] == name {
      UnderTop(ws, name, q);
    }
  }

  /** `CleanFilesFromWorkspace`: every top-level entry of the workspace goes,
      except `.PKr` and the tool binaries. */
  method CleanFilesFromWorkspace(disk: Disk, ws: Path) returns (err: Option<FsError>)
    requires disk.Valid()
    modifies disk
    ensures disk.Valid()
    ensures err.Some? <==> ws !in old(disk.dirs)
    ensures err.Some? ==> disk.files == old(disk.files) && disk.dirs == old(disk.dirs)
    ensures err.None? ==> disk.files == map q | q in old(disk.files) && !Cleared(ws, q) :: old(disk.files)[q]
    ensures err.None? ==> disk.dirs == set q | q in old(disk.dirs) && !Cleared(ws, q)
  {
    if ws !in disk.dirs {
      return Some(ReadDirFailed);
    }
    var todo := Entries(disk.files, disk.dirs, ws);
    ghost var entries := todo;
    ghost var done: set<string> := {};
    forall q | (q in old(disk.files) || q in old(disk.dirs)) && Cleared(ws, q) ensures q[|ws|] in entries {
      TopEntryListed(disk.files, disk.dirs, ws, q);
    }
    assert KeptFiles(disk.files, ws, {}) == disk.files;
    while todo != {}
      invariant disk.Valid()
      invariant todo + done == entries && todo !! done
      invariant disk.files == KeptFiles(old(disk.files), ws, done)
      invariant disk.dirs == KeptDirs(old(disk.dirs), ws, done)
      decreases todo
    {
      var name :| name in todo;
      CleanStep(old(disk.files), old(disk.dirs), ws, done, name);
      if !Protected(name) {
        disk.RemoveAll(ws + [name]);
      }
      todo := todo - {name};
      done := done + {name};
    }
    return None;
  }

  /** Deleting `d` cannot make a directory empty unless `d` sat in it. */
  lemma EmptyAfterRemove(files: map<Path, Bytes>, dirs: set<Path>, d: Path, q: Path)
    requires |d| > 0 && Parent(d) != q
    requires EmptyDir(files, dirs - {d}, q)
    ensures EmptyDir(files, dirs, q)
  {
  }

  /** Removing a directory at least as deep as the ones already handled
      leaves those that were not empty still not empty. */
  lemma StillNotEmpty(files: map<Path, Bytes>, before: set<Path>, after: set<Path>, d: Path, processed: set<Path>)
    requires after == before || (d != [] && after == before - {d})
    requires forall q :: q in processed ==> |d| <= |q|
    requires forall q :: q in processed && q in before && q != [] ==> !EmptyDir(files, before, q)
    ensures forall q :: q in processed && q in after && q != [] ==> !EmptyDir(files, after, q)
  {
    forall q | q in processed && q in after && q != [] ensures !EmptyDir(files, after, q) {
      if after != before && EmptyDir(files, after, q) {
        EmptyAfterRemove(files, before, d, q);
      }
    }
  }

  /** A finite non-empty set of paths has a deepest member. */
  lemma {:induction false} DeepestExists(s: set<Path>)
    requires s != {}
    ensures exists d :: d in s && forall p :: p in s ==> |p| <= |d|
    decreases |s|
  {
    var x :| x in s;
    if s - {x} != {} {
      DeepestExists(s - {x});
      var d :| d in s - {x} && forall p :: p in s - {x} ==> |p| <= |d|;
      if |x| > |d| {
        assert forall p :: p in s ==> |p| <= |x|;
      } else {
        assert forall p :: p in s ==> |p| <= |d|;
      }
    } else {
      assert s == {x};
    }
  }

  /** `ClearEmptyDir`: collects every directory below and including `root`,
      then, deepest first, removes each one that is empty at its turn. No
      removal error stops the loop. */
  method ClearEmptyDir(disk: Disk, root: Path) returns (err: Option<FsError>)
    requires disk.Valid()
    modifies disk
    ensures disk.Valid()
    ensures err.Some? <==> root !in old(disk.files) && root !in old(disk.dirs)
    ensures disk.files == old(disk.files)
    ensures disk.dirs <= old(disk.dirs)
    ensures forall q :: q in old(disk.dirs) - disk.dirs ==> Under(root, q) && q != []
    ensures root in old(disk.dirs) ==>
      forall q :: q in disk.dirs && Under(root, q) && q != [] ==> !EmptyDir(disk.files, disk.dirs, q)
  {
    if root in disk.files {
      return None;
    }
    if root !in disk.dirs {
      return Some(WalkFailed);
    }
    var pending := set q | q in disk.dirs && Under(root, q);
    ghost var all := pending;
    ghost var processed: set<Path> := {};
    while pending != {}
      invariant disk.Valid()
      invariant disk.files == old(disk.files)
      invariant disk.dirs <= old(disk.dirs)
      invariant forall q :: q in old(disk.dirs) - disk.dirs ==> q in processed && q != []
      invariant all == set q | q in old(disk.dirs) && Under(root, q)
      invariant pending + processed == all && pending !! processed
      invariant pending <= disk.dirs
      invariant forall p, q :: p in pending && q in processed ==> |p| <= |q|
      invariant forall q :: q in processed && q in disk.dirs && q != [] ==> !EmptyDir(disk.files, disk.dirs, q)
      decreases pending
    {
      DeepestExists(pending);
      var d :| d in pending && forall p :: p in pending ==> |p| <= |d|;
      if EmptyDir(disk.files, disk.dirs, d) {
        ghost var before := disk.dirs;
        var _ := disk.Remove(d);
        assert disk.dirs == before || (d != [] && disk.dirs == before - {d});
        StillNotEmpty(disk.files, before, disk.dirs, d, processed);
      }
      pending := pending - {d};
      processed := processed + {d};
    }
    return None;
  }

  /** The workspace file a change names. */
  function Target(ws: Path, rel: string): Path
  {
    ws + SplitPath(rel)
  }

  /** The downloaded file an `Updated` change is copied from. */
  function Source(content: Path, rel: string): Path
  {
    content + SplitPath(rel)
  }

  /** What one change may do to the files: only its own target is touched,
      and a file appears there only for `Updated`. */
  ghost predicate StepFrame(before: map<Path, Bytes>, after: map<Path, Bytes>, target: Path, kind: string)
  {
    && (kind != FileTree.Updated && kind != FileTree.Removed ==> after == before)
    && after.Keys <= before.Keys + (if kind == FileTree.Updated then {target} else {})
    && (forall q :: q in before && q != target ==> q in after && after[q] == before[q])
  }

  /** What one successful change achieves. */
  ghost predicate StepDone(before: map<Path, Bytes>, after: map<Path, Bytes>, target: Path, source: Path, kind: string)
  {
    && (kind == FileTree.Removed ==> target !in after)
    && (kind == FileTree.Updated ==> source in before && target in after && after[target] == before[source])
  }

  /** The directories `MkdirAll` makes sure of for the parent of `target`. */
  function ParentDirs(target: Path): set<Path>
  {
    if |target| == 0 then {} else Prefixes(Parent(target))
  }

  /** `os.Remove` of a `Removed` target fails: a directory is there and it
      is the root or not empty. */
  predicate RemoveBlocked(files: map<Path, Bytes>, dirs: set<Path>, target: Path)
  {
    target !in files && target in dirs && !(target != [] && EmptyDir(files, dirs, target))
  }

  /** An `Updated` change cannot be copied: the target is empty, a file lies
      on the way to its parent, the downloaded file is missing, or a
      directory sits at the target. */
  predicate UpdateBlocked(files: map<Path, Bytes>, dirs: set<Path>, target: Path, source: Path)
  {
    |target| == 0 || !NoFileOnPath(files, Parent(target)) || source !in files || target in dirs
  }

  /** A change that `ApplyChange` reports as failed. */
  predicate ChangeBlocked(files: map<Path, Bytes>, dirs: set<Path>, ws: Path, content: Path, rel: string, kind: string)
  {
    || (kind == FileTree.Removed && RemoveBlocked(files, dirs, Target(ws, rel)))
    || (kind == FileTree.Updated && UpdateBlocked(files, dirs, Target(ws, rel), Source(content, rel)))
  }

  /** One entry of the change map takes effect: `Removed` deletes the file
      (a missing one is fine) and prunes empty directories, ignoring any
      failure of the pruning; `Updated` creates the parent directories and
      copies the downloaded file over; other types do nothing. It fails
      exactly when the change is blocked, and a failed change is still
      blocked afterwards. */
  method ApplyChange(disk: Disk, ws: Path, content: Path, rel: string, kind: string) returns (err: Option<FsError>)
    requires disk.Valid()
    modifies disk
    ensures disk.Valid()
    ensures err.Some? <==> ChangeBlocked(old(disk.files), old(disk.dirs), ws, content, rel, kind)
    ensures err.Some? ==> ChangeBlocked(disk.files, disk.dirs, ws, content, rel, kind)
    ensures err == Some(RemoveFailed) <==> kind == FileTree.Removed && RemoveBlocked(old(disk.files), old(disk.dirs), Target(ws, rel))
    ensures err == Some(MkdirFailed) <==>
      kind == FileTree.Updated && |Target(ws, rel)| > 0 && !NoFileOnPath(old(disk.files), Parent(Target(ws, rel)))
    ensures kind != FileTree.Updated && kind != FileTree.Removed ==> err.None? && disk.dirs == old(disk.dirs)
    ensures kind == FileTree.Updated ==>
      old(disk.dirs) <= disk.dirs <= old(disk.dirs) + ParentDirs(Target(ws, rel))
    ensures kind == FileTree.Updated && err.None? ==>
      disk.dirs == old(disk.dirs) + ParentDirs(Target(ws, rel))
    ensures kind == FileTree.Removed ==>
      disk.dirs <= old(disk.dirs) &&
      forall q :: q in old(disk.dirs) - disk.dirs ==> Under(ws, q) && q != []
    ensures kind == FileTree.Removed && err.None? && ws in disk.dirs ==>
      forall q :: q in disk.dirs && Under(ws, q) && q != [] ==> !EmptyDir(disk.files, disk.dirs, q)
    ensures StepFrame(old(disk.files), disk.files, Target(ws, rel), kind)
    ensures err.None? ==> StepDone(old(disk.files), disk.files, Target(ws, rel), Source(content, rel), kind)
  {
    var target := Target(ws, rel);
    if kind == FileTree.Removed {
      assert target[..|ws|] == ws;
      var r := disk.Remove(target);
      if r == Failed {
        return Some(RemoveFailed);
      }
      var _ := ClearEmptyDir(disk, ws);
    } else if kind == FileTree.Updated {
      if |target| == 0 {
        return Some(CopyFailed);
      }
      var ok := disk.MkdirAll(Parent(target));
      if !ok {
        return Some(MkdirFailed);
      }
      var source := Source(content, rel);
      if source !in disk.files {
        return Some(CopyFailed);
      }
      var data := disk.files[source];
      assert Parent(target) == Parent(target)[..|Parent(target)|];
      assert target !in Prefixes(Parent(target));
      ok := disk.WriteFile(target, data);
      if !ok {
        return Some(CopyFailed);
      }
    }
    return None;
  }

  /** The changes whose type has an effect. */
  function Effective(changes: map<string, string>): set<string>
  {
    set rel | rel in changes && (changes[rel] == FileTree.Updated || changes[rel] == FileTree.Removed)
  }

  /** No two effective changes name the same workspace file, and none of them
      names a file some `Updated` change copies from. */
  ghost predicate Independent(ws: Path, content: Path, changes: map<string, string>)
  {
    && (forall a, b :: a in Effective(changes) && b in Effective(changes) && a != b ==> Target(ws, a) != Target(ws, b))
    && (forall a, b :: a in Effective(changes) && b in Effective(changes) ==> Source(content, a) != Target(ws, b))
  }

  /** Every file present is an original one or the target of an `Updated`
      change among `done`. */
  ghost predicate OnlyNewAt(orig: map<Path, Bytes>, now: map<Path, Bytes>, ws: Path, changes: map<string, string>, done: set<string>)
  {
    forall q :: q in now ==>
      q in orig || exists rel :: rel in done && rel in changes && changes[rel] == FileTree.Updated && q == Target(ws, rel)
  }

  /** Every original file that no effective change among `done` names is as it was. */
  ghost predicate KeptOutside(orig: map<Path, Bytes>, now: map<Path, Bytes>, ws: Path, changes: map<string, string>, done: set<string>)
  {
    forall q :: q in orig && (forall rel :: rel in done * Effective(changes) ==> q != Target(ws, rel)) ==>
      q in now && now[q] == orig[q]
  }

  /** Every change among `done` has its effect against the original files. */
  ghost predicate AllApplied(orig: map<Path, Bytes>, now: map<Path, Bytes>, ws: Path, content: Path,
                             changes: map<string, string>, done: set<string>)
  {
    forall rel :: rel in done && rel in changes ==>
      StepDone(orig, now, Target(ws, rel), Source(content, rel), changes[rel])
  }

  /** One more change keeps the frame facts. */
  lemma StepFramed(orig: map<Path, Bytes>, before: map<Path, Bytes>, after: map<Path, Bytes>, ws: Path,
                   changes: map<string, string>, done: set<string>, rel: string)
    requires rel in changes
    requires OnlyNewAt(orig, before, ws, changes, done) && KeptOutside(orig, before, ws, changes, done)
    requires StepFrame(before, after, Target(ws, rel), changes[rel])
    ensures OnlyNewAt(orig, after, ws, changes, done + {rel}) && KeptOutside(orig, after, ws, changes, done + {rel})
  {
    forall q | q in orig && (forall r :: r in (done + {rel}) * Effective(changes) ==> q != Target(ws, r))
      ensures q in after && after[q] == orig[q]
    {
      assert forall r :: r in done * Effective(changes) ==> q != Target(ws, r);
      if changes[rel] == FileTree.Updated || changes[rel] == FileTree.Removed {
        assert rel in Effective(changes);
      }
    }
  }

  /** One more successful change keeps the earlier ones' effects when the
      changes are independent. */
  lemma StepApplied(orig: map<Path, Bytes>, before: map<Path, Bytes>, after: map<Path, Bytes>, ws: Path, content: Path,
                    changes: map<string, string>, done: set<string>, rel: string)
    requires rel in changes && rel !in done && done <= changes.Keys
    requires Independent(ws, content, changes)
    requires OnlyNewAt(orig, before, ws, changes, done)
    requires KeptOutside(orig, before, ws, changes, done)
    requires AllApplied(orig, before, ws, content, changes, done)
    requires StepFrame(before, after, Target(ws, rel), changes[rel])
    requires StepDone(before, after, Target(ws, rel), Source(content, rel), changes[rel])
    ensures AllApplied(orig, after, ws, content, changes, done + {rel})
  {
    var kind := changes[rel];
    var target := Target(ws, rel);
    if kind == FileTree.Updated {
      var source := Source(content, rel);
      assert rel in Effective(changes);
      forall r | r in done * Effective(changes) ensures source != Target(ws, r) {
      }
      assert source in orig && before[source] == orig[source];
    }
    forall r | r in done && r in changes
      ensures StepDone(orig, after, Target(ws, r), Source(content, r), changes[r])
    {
      if changes[r] == FileTree.Updated || changes[r] == FileTree.Removed {
        assert r in Effective(changes);
        if kind == FileTree.Updated || kind == FileTree.Removed {
          assert rel in Effective(changes);
          assert Target(ws, r) != target;
        }
      }
    }
  }

  /** Every directory present is an original one or was made for the parent
      of an `Updated` change among `done`. */
  ghost predicate OnlyNewDirs(orig: set<Path>, now: set<Path>, ws: Path, changes: map<string, string>, done: set<string>)
  {
    forall q :: q in now ==>
      q in orig || exists rel :: rel in done && rel in changes && changes[rel] == FileTree.Updated && q in ParentDirs(Target(ws, rel))
  }

  /** One more change keeps the directory frame. */
  lemma DirsFramed(orig: set<Path>, before: set<Path>, after: set<Path>, ws: Path,
                   changes: map<string, string>, done: set<string>, rel: string)
    requires rel in changes
    requires OnlyNewDirs(orig, before, ws, changes, done)
    requires changes[rel] != FileTree.Updated ==> after <= before
    requires changes[rel] == FileTree.Updated ==> after <= before + ParentDirs(Target(ws, rel))
    ensures OnlyNewDirs(orig, after, ws, changes, done + {rel})
  {
  }

  lemma DirsWider(orig: set<Path>, now: set<Path>, ws: Path, changes: map<string, string>,
                  done: set<string>, more: set<string>)
    requires done <= more
    requires OnlyNewDirs(orig, now, ws, changes, done)
    ensures OnlyNewDirs(orig, now, ws, changes, more)
  {
  }

  /** `UpdateFilesFromWorkspace`: applies every change, in map order, and stops
      at the first failure. Files no change names are kept as they were;
      new files appear only where an `Updated` change points. When the changes
      name distinct files, success means each `Removed` file is gone and each
      `Updated` file holds the downloaded content. New directories are only
      parents of `Updated` targets, and only directories inside the workspace
      disappear. A failure leaves some change blocked. */
  method UpdateFilesFromWorkspace(disk: Disk, ws: Path, content: Path, changes: map<string, string>)
    returns (err: Option<FsError>)
    requires disk.Valid()
    modifies disk
    ensures disk.Valid()
    ensures OnlyNewAt(old(disk.files), disk.files, ws, changes, changes.Keys)
    ensures KeptOutside(old(disk.files), disk.files, ws, changes, changes.Keys)
    ensures err.None? && Independent(ws, content, changes) ==>
      AllApplied(old(disk.files), disk.files, ws, content, changes, changes.Keys)
    ensures OnlyNewDirs(old(disk.dirs), disk.dirs, ws, changes, changes.Keys)
    ensures forall q :: q in old(disk.dirs) && q !in disk.dirs ==> Under(ws, q) && q != []
    ensures err.Some? ==> exists rel :: rel in changes && ChangeBlocked(disk.files, disk.dirs, ws, content, rel, changes[rel])
  {
    var todo := changes.Keys;
    ghost var done: set<string> := {};
    while todo != {}
      invariant disk.Valid()
      invariant todo + done == changes.Keys && todo !! done
      invariant OnlyNewDirs(old(disk.dirs), disk.dirs, ws, changes, done)
      invariant forall q :: q in old(disk.dirs) && q !in disk.dirs ==> Under(ws, q) && q != []
      invariant OnlyNewAt(old(disk.files), disk.files, ws, changes, done)
      invariant KeptOutside(old(disk.files), disk.files, ws, changes, done)
      invariant Independent(ws, content, changes) ==> AllApplied(old(disk.files), disk.files, ws, content, changes, done)
      decreases todo
    {
      var rel :| rel in todo;
      ghost var before := disk.files;
      ghost var dirsBefore := disk.dirs;
      err := ApplyChange(disk, ws, content, rel, changes[rel]);
      StepFramed(old(disk.files), before, disk.files, ws, changes, done, rel);
      DirsFramed(old(disk.dirs), dirsBefore, disk.dirs, ws, changes, done, rel);
      if err.Some? {
        DirsWider(old(disk.dirs), disk.dirs, ws, changes, done + {rel}, changes.Keys);
        KeptWider(old(disk.files), disk.files, ws, changes, done + {rel}, changes.Keys);
        OnlyNewWider(old(disk.files), disk.files, ws, changes, done + {rel}, changes.Keys);
        return;
      }
      if Independent(ws, content, changes) {
        StepApplied(old(disk.files), before, disk.files, ws, content, changes, done, rel);
      }
      todo := todo - {rel};
      done := done + {rel};
    }
    assert done == changes.Keys;
    return None;
  }

  lemma KeptWider(orig: map<Path, Bytes>, now: map<Path, Bytes>, ws: Path, changes: map<string, string>,
                  done: set<string>, more: set<string>)
    requires done <= more
    requires KeptOutside(orig, now, ws, changes, done)
    ensures KeptOutside(orig, now, ws, changes, more)
  {
  }

  lemma OnlyNewWider(orig: map<Path, Bytes>, now: map<Path, Bytes>, ws: Path, changes: map<string, string>,
                     done: set<string>, more: set<string>)
    requires done <= more
    requires OnlyNewAt(orig, now, ws, changes, done)
    ensures OnlyNewAt(orig, now, ws, changes, more)
  {
  }
}

/** The per-workspace configuration (config/pkr-config.go): the list of push
    records, the current push number, and the merge of a range of pushes into
    one change set. */
module PkrConfig {
  import opened Common
  import opened FileTree
  import UsersConfig

  /** One push: the changes it made and its description. */
  datatype Updates = Updates(changes: seq<FileChange>, pushDesc: string)

  datatype PKRConfig = PKRConfig(workspaceName: string, lastPushNum: int, allUpdates: seq<Updates>)

  /** What a failed read of the config decodes to. */
  const ZeroConfig := PKRConfig("", 0, [])

  datatype PkrError = ReadFailed | WriteFailed | LookupFailed(e: UsersConfig.ConfigError)

  // ---------------------------------------------------------------------
  // Merging push records

  /** One change taking effect on the merged set: a first occurrence is stored
      as it is; an `Updated` entry followed by `Removed` is deleted; every other
      repeat leaves the earlier entry as it was. */
  function MergeStep(m: map<string, FileChange>, c: FileChange): map<string, FileChange>
  {
    if c.path in m then
      if m[c.path].kind == Updated && c.kind == Removed then m - {c.path} else m
    else m[c.path := c]
  }

  /** The changes taking effect one after another. */
  function MergeChanges(m: map<string, FileChange>, cs: seq<FileChange>): map<string, FileChange>
  {
    if cs == [] then m else MergeStep(MergeChanges(m, cs[..|cs| - 1]), cs[|cs| - 1])
  }

  /** The changes of records `lo..hi-1`, in that order. */
  function AllChanges(all: seq<Updates>, lo: int, hi: int): seq<FileChange>
    requires lo < hi ==> 0 <= lo && hi <= |all|
    decreases hi - lo
  {
    if lo >= hi then [] else AllChanges(all, lo, hi - 1) + all[hi - 1].changes
  }

  /** The merged change set of the pushes after `start` up to `end`. */
  function Merged(all: seq<Updates>, start: int, end: int): map<string, FileChange>
    requires start < end ==> -1 <= start && end < |all|
  {
    MergeChanges(map[], AllChanges(all, start + 1, end + 1))
  }

  /** Every entry sits under its own path. */
  ghost predicate Keyed(m: map<string, FileChange>)
  {
    forall p :: p in m ==> m[p].path == p
  }

  /** Merging keeps every entry under its own path. */
  lemma {:induction false} MergeChangesKeyed(m: map<string, FileChange>, cs: seq<FileChange>)
    requires Keyed(m)
    ensures Keyed(MergeChanges(m, cs))
  {
    if cs != [] {
      MergeChangesKeyed(m, cs[..|cs| - 1]);
    }
  }

  /** The entry for a path, if any. */
  function Get(m: map<string, FileChange>, p: string): Option<FileChange>
  {
    if p in m then Some(m[p]) else None
  }

  /** The changes for one path, in order. */
  function Only(cs: seq<FileChange>, p: string): seq<FileChange>
  {
    if cs == [] then []
    else Only(cs[..|cs| - 1], p) + (if cs[|cs| - 1].path == p then [cs[|cs| - 1]] else [])
  }

  /** Reference definition: the entry of one path as its own changes arrive. */
  function PathFold(e: Option<FileChange>, cs: seq<FileChange>): Option<FileChange>
  {
    if cs == [] then e
    else
      var prev := PathFold(e, cs[..|cs| - 1]);
      var c := cs[|cs| - 1];
      match prev
      case None => Some(c)
      case Some(x) => if x.kind == Updated && c.kind == Removed then None else prev
  }

  /** Paths do not interact: the merged entry of a path depends only on the
      changes to that path. */
  lemma {:induction false} MergeLocal(m: map<string, FileChange>, cs: seq<FileChange>, p: string)
    ensures Get(MergeChanges(m, cs), p) == PathFold(Get(m, p), Only(cs, p))
  {
    if cs != [] {
      var init := cs[..|cs| - 1];
      var c := cs[|cs| - 1];
      MergeLocal(m, init, p);
      if c.path == p {
        var o := Only(init, p);
        assert Only(cs, p) == o + [c];
        assert (o + [c])[..|o + [c]| - 1] == o;
      } else {
        assert Only(cs, p) == Only(init, p);
      }
    }
  }

  lemma {:induction false} PathFoldAppend(e: Option<FileChange>, a: seq<FileChange>, b: seq<FileChange>)
    ensures PathFold(e, a + b) == PathFold(PathFold(e, a), b)
    decreases |b|
  {
    if b == [] {
      assert a + b == a;
    } else {
      assert (a + b)[..|a + b| - 1] == a + b[..|b| - 1];
      PathFoldAppend(e, a, b[..|b| - 1]);
    }
  }

  /** An entry stays as it was, hash and type, unless it is `Updated` and a
      `Removed` change follows. */
  lemma {:induction false} EntryNotRefreshed(e: FileChange, rest: seq<FileChange>)
    requires e.kind != Updated || forall c :: c in rest ==> c.kind != Removed
    ensures PathFold(Some(e), rest) == Some(e)
  {
    if rest != [] {
      assert forall c :: c in rest[..|rest| - 1] ==> c in rest;
      EntryNotRefreshed(e, rest[..|rest| - 1]);
      assert rest[|rest| - 1] in rest;
    }
  }

  /** An `Updated` entry followed by a `Removed` change disappears. */
  lemma UpdatedThenRemovedDeletes(e: FileChange, c: FileChange, rest: seq<FileChange>)
    requires e.kind == Updated && c.kind == Removed
    ensures PathFold(Some(e), [c] + rest) == PathFold(None, rest)
  {
    PathFoldAppend(Some(e), [c], rest);
    assert [c][..0] == [];
  }

  /** After a deletion the next change for the path is stored afresh. */
  lemma ReinsertedAfterDeletion(e: Option<FileChange>, before: seq<FileChange>, c: FileChange)
    requires PathFold(e, before) == None
    ensures PathFold(e, before + [c]) == Some(c)
  {
    assert (before + [c])[..|before|] == before;
  }

  /** A push that removed a file followed by one that re-created it leaves the
      earlier `Removed` entry. */
  lemma RemovedThenUpdatedStaysRemoved(p: string, h1: string, h2: string)
    ensures var all := [Updates([FileChange(p, h1, Removed)], ""), Updates([FileChange(p, h2, Updated)], "")];
      Merged(all, -1, 1) == map[p := FileChange(p, h1, Removed)]
  {
    var removed, updated := FileChange(p, h1, Removed), FileChange(p, h2, Updated);
    var all := [Updates([removed], ""), Updates([updated], "")];
    assert AllChanges(all, 0, 0) == [];
    assert AllChanges(all, 0, 1) == [] + [removed];
    assert AllChanges(all, 0, 2) == [removed] + [updated];
    var cs := [removed, updated];
    assert cs[..1] == [removed] && cs[1] == updated;
    assert [removed][..0] == [] && [removed][0] == removed;
    var first := MergeChanges(map[], [removed]);
    assert first == MergeStep(MergeChanges(map[], []), removed);
    assert first == map[p := removed];
    assert MergeChanges(map[], cs) == MergeStep(first, updated) == first;
  }

  /** An empty range merges to nothing. */
  lemma MergeEmptyRange(all: seq<Updates>, n: int)
    ensures Merged(all, n, n) == map[]
  {
  }

  /** Merging a concatenation is merging one part after the other. */
  lemma {:induction false} MergeChangesAppend(m: map<string, FileChange>, a: seq<FileChange>, b: seq<FileChange>)
    ensures MergeChanges(m, a + b) == MergeChanges(MergeChanges(m, a), b)
    decreases |b|
  {
    if b == [] {
      assert a + b == a;
    } else {
      assert (a + b)[..|a + b| - 1] == a + b[..|b| - 1];
      MergeChangesAppend(m, a, b[..|b| - 1]);
    }
  }

  /** The inner loop of `MergeUpdates`: one record's changes take effect. */
  method MergeInto(updates: map<string, FileChange>, changes: seq<FileChange>) returns (r: map<string, FileChange>)
    ensures r == MergeChanges(updates, changes)
  {
    r := updates;
    for j := 0 to |changes|
      invariant r == MergeChanges(updates, changes[..j])
    {
      var change := changes[j];
      assert changes[..j + 1][..j] == changes[..j];
      if change.path in r {
        var update := r[change.path];
        if update.kind == Updated && change.kind == Removed {
          r := r - {change.path};
        }
      } else {
        r := r[change.path := FileChange(change.path, change.hash, change.kind)];
      }
    }
    assert changes[..|changes|] == changes;
  }

  /** The outer loop of `MergeUpdates`: records `start+1 .. end` in order. */
  method MergeRange(all: seq<Updates>, start: int, end: int) returns (updates: map<string, FileChange>)
    requires start < end ==> -1 <= start && end < |all|
    ensures updates == Merged(all, start, end)
  {
    updates := map[];
    var i := start + 1;
    while i <= end
      invariant start + 1 <= i
      invariant start + 1 < i ==> i <= end + 1
      invariant updates == MergeChanges(map[], AllChanges(all, start + 1, i))
      decreases end - i
    {
      MergeChangesAppend(map[], AllChanges(all, start + 1, i), all[i].changes);
      updates := MergeInto(updates, all[i].changes);
      i := i + 1;
    }
  }

  /** The output loop of `MergeUpdates`: every entry once, in map order. */
  method ListChanges(updates: map<string, FileChange>) returns (r: seq<FileChange>)
    requires Keyed(updates)
    ensures Enumerates(r, updates)
  {
    r := [];
    var todo := updates.Keys;
    ghost var done: set<string> := {};
    while todo != {}
      invariant todo + done == updates.Keys && todo !! done
      invariant NoDuplicatePaths(r)
      invariant forall c :: c in r <==> c.path in done && updates[c.path] == c
      decreases todo
    {
      var p :| p in todo;
      r := r + [updates[p]];
      todo := todo - {p};
      done := done + {p};
    }
  }

  class WorkspaceConfigs {
    /** The decodable workspace configs, by workspace path. */
    var files: map<string, PKRConfig>

    constructor (files: map<string, PKRConfig>)
      ensures this.files == files
    {
      this.files := files;
    }

    /** `MergeUpdates`: the changes of pushes `start+1 .. end`, merged by path,
        each path once, in no particular order. The record index must be valid
        whenever the loop runs. */
    method MergeUpdates(workspacePath: string, start: int, end: int) returns (r: Result<seq<FileChange>, PkrError>)
      requires workspacePath in files && start < end ==> -1 <= start && end < |files[workspacePath].allUpdates|
      ensures r.Err? <==> workspacePath !in files
      ensures r.Ok? ==> Enumerates(r.value, Merged(files[workspacePath].allUpdates, start, end))
    {
      if workspacePath !in files {
        return Err(ReadFailed);
      }
      var updates := MergeRange(files[workspacePath].allUpdates, start, end);
      MergeChangesKeyed(map[], AllChanges(files[workspacePath].allUpdates, start + 1, end + 1));
      var mergedChanges := ListChanges(updates);
      return Ok(mergedChanges);
    }

    /** `AppendWorkspaceUpdates`: adds one push record at the end. */
    method AppendWorkspaceUpdates(updates: Updates, workspacePath: string, writeOk: bool) returns (err: Option<PkrError>)
      modifies this
      ensures workspacePath !in old(files) ==> err == Some(ReadFailed) && files == old(files)
      ensures workspacePath in old(files) && !writeOk ==> err == Some(WriteFailed) && files == old(files)
      ensures workspacePath in old(files) && writeOk ==>
        var conf := old(files)[workspacePath];
        err.None? && files == old(files)[workspacePath := conf.(allUpdates := conf.allUpdates + [updates])]
    {
      if workspacePath !in files {
        return Some(ReadFailed);
      }
      var conf := files[workspacePath];
      conf := conf.(allUpdates := conf.allUpdates + [updates]);
      if !writeOk {
        return Some(WriteFailed);
      }
      files := files[workspacePath := conf];
      return None;
    }

    /** `UpdateLastPushNum`: finds the shared workspace's path, then rewrites its
        config with the new push number. A config that cannot be read is
        replaced by an empty one carrying only the push number. */
    method UpdateLastPushNum(users: UsersConfig.UserConfigFile, workspaceName: string, lastPushNum: int, writeOk: bool)
      returns (err: Option<PkrError>)
      modifies this
      ensures var lookup := UsersConfig.SendWorkspacePath(users.file, workspaceName);
        (lookup.Err? ==> err == Some(LookupFailed(lookup.error)) && files == old(files)) &&
        (lookup.Ok? && !writeOk ==> err == Some(WriteFailed) && files == old(files)) &&
        (lookup.Ok? && writeOk ==>
          var p := lookup.value;
          var conf := if p in old(files) then old(files)[p] else ZeroConfig;
          err.None? && files == old(files)[p := conf.(lastPushNum := lastPushNum)])
    {
      var lookup := users.GetSendWorkspaceFilePath(workspaceName);
      if lookup.Err? {
        return Some(LookupFailed(lookup.error));
      }
      var workspacePath := lookup.value;
      var conf := if workspacePath in files then files[workspacePath] else ZeroConfig;
      conf := conf.(lastPushNum := lastPushNum);
      if !writeOk {
        return Some(WriteFailed);
      }
      files := files[workspacePath := conf];
      return None;
    }
  }
}

/** Zip archives (filetracker/zip.go) as lists of entries: building the
    archive of a workspace, selecting the updated files out of a full-state
    archive, and unpacking an archive into a directory. The deflate encoding
    is a parameter `encode`; an archive that opens is given decoded. */
module Zip {
  import opened Common
  import opened FileSystem
  import FileTree
  import FilesAndFolders

  /** One archive member: its slash-separated name and its bytes. */
  datatype Entry = Entry(name: string, data: Bytes)

  type Archive = seq<Entry>

  datatype ZipError = MkdirFailed | OpenFailed | CreateFailed | ReadDirFailed | ReadFailed | WriteFailed

  function Named(name: string): Entry -> bool
  {
    (e: Entry) => e.name == name
  }

  /** `returnZipFileObj`: the first member whose name is exactly `name`. */
  method ReturnZipFileObj(archive: Archive, name: string) returns (r: Option<Entry>)
    ensures r.None? <==> FirstIndex(archive, Named(name)).None?
    ensures r.Some? ==> r.value == archive[FirstIndex(archive, Named(name)).value]
  {
    for i := 0 to |archive|
      invariant forall j :: 0 <= j < i ==> archive[j].name != name
    {
      if archive[i].name == name {
        return Some(archive[i]);
      }
    }
    return None;
  }

  /** The member `ZipUpdates` looks up for a name. */
  function Lookup(archive: Archive, name: string): Option<Entry>
  {
    match FirstIndex(archive, Named(name))
    case None => None
    case Some(i) => Some(archive[i])
  }

  /** A looked-up member has the name asked for and comes from the archive. */
  lemma LookupFound(archive: Archive, name: string)
    ensures Lookup(archive, name).Some? ==> Lookup(archive, name).value.name == name && Lookup(archive, name).value in archive
    ensures Lookup(archive, name).None? <==> forall e :: e in archive ==> e.name != name
  {
    if Lookup(archive, name).None? {
      forall e | e in archive ensures e.name != name {
        var k :| 0 <= k < |archive| && archive[k] == e;
      }
    }
  }

  /** The members `ZipUpdates` copies: for each `Updated` change in order,
      the source member of that name, stopping at the first name missing. */
  function Selection(changes: seq<FileTree.FileChange>, src: Archive): Archive
  {
    if changes == [] then []
    else if changes[0].kind != FileTree.Updated then Selection(changes[1..], src)
    else match Lookup(src, changes[0].path)
      case None => []
      case Some(e) => [e] + Selection(changes[1..], src)
  }

  /** Every copied member is a member of the source archive, named like an
      `Updated` change. */
  lemma {:induction false} SelectionFromSource(changes: seq<FileTree.FileChange>, src: Archive)
    ensures forall e :: e in Selection(changes, src) ==>
      e in src && exists c :: c in changes && c.kind == FileTree.Updated && c.path == e.name
  {
    if changes != [] {
      SelectionFromSource(changes[1..], src);
      LookupFound(src, changes[0].path);
      forall e | e in Selection(changes, src)
        ensures e in src && exists c :: c in changes && c.kind == FileTree.Updated && c.path == e.name
      {
        if e !in Selection(changes[1..], src) {
          assert changes[0] in changes;
        } else {
          var c :| c in changes[1..] && c.kind == FileTree.Updated && c.path == e.name;
          assert c in changes;
        }
      }
    }
  }

  /** The names of the `Updated` changes, in order. */
  function UpdatedNames(changes: seq<FileTree.FileChange>): seq<string>
  {
    if changes == [] then []
    else (if changes[0].kind == FileTree.Updated then [changes[0].path] else []) + UpdatedNames(changes[1..])
  }

  /** When the source holds every updated file, one member per `Updated`
      change is copied, in order, and nothing else. */
  lemma {:induction false} SelectionComplete(changes: seq<FileTree.FileChange>, src: Archive)
    requires forall c :: c in changes && c.kind == FileTree.Updated ==> Lookup(src, c.path).Some?
    ensures |Selection(changes, src)| == |UpdatedNames(changes)|
    ensures forall i :: 0 <= i < |Selection(changes, src)| ==> Selection(changes, src)[i].name == UpdatedNames(changes)[i]
  {
    if changes != [] {
      var rest := changes[1..];
      assert forall c :: c in rest ==> c in changes;
      SelectionComplete(rest, src);
      var sel, names := Selection(rest, src), UpdatedNames(rest);
      if changes[0].kind == FileTree.Updated {
        assert changes[0] in changes;
        LookupFound(src, changes[0].path);
        var e := Lookup(src, changes[0].path).value;
        assert Selection(changes, src) == [e] + sel;
        assert UpdatedNames(changes) == [changes[0].path] + names;
        forall i | 1 <= i < |Selection(changes, src)|
          ensures Selection(changes, src)[i].name == UpdatedNames(changes)[i]
        {
          assert Selection(changes, src)[i] == sel[i - 1];
          assert UpdatedNames(changes)[i] == names[i - 1];
        }
      } else {
        assert UpdatedNames(changes) == [] + names;
      }
    }
  }

  /** A change list whose updated file is missing from the source yields an
      incomplete archive, and `ZipUpdates` still reports success. */
  lemma MissingEntryTruncates(h: string, data: Bytes)
    ensures var changes := [FileTree.FileChange("gone", h, FileTree.Updated), FileTree.FileChange("kept", h, FileTree.Updated)];
      Selection(changes, [Entry("kept", data)]) == []
  {
    var changes := [FileTree.FileChange("gone", h, FileTree.Updated), FileTree.FileChange("kept", h, FileTree.Updated)];
    assert Named("gone")(Entry("kept", data)) == false;
    assert Lookup([Entry("kept", data)], "gone") == None;
  }

  /** `ZipUpdates`: creates the destination's directory (which must not exist
      yet), opens the full-state source archive, creates the destination and
      copies the `Updated` members. A missing member ends the copy without an
      error; the writer is closed on every path after the destination was
      created, so the file then holds the members copied so far. */
  method ZipUpdates(disk: Disk, changes: seq<FileTree.FileChange>, src: Option<Archive>, dstPath: Path,
                    encode: Archive -> Bytes)
    returns (err: Option<ZipError>, written: Archive)
    requires disk.Valid()
    modifies disk
    ensures disk.Valid()
    ensures var dirOk := |dstPath| > 0 && Parent(dstPath) !in old(disk.files) && Parent(dstPath) !in old(disk.dirs)
                         && |Parent(dstPath)| > 0 && Parent(Parent(dstPath)) in old(disk.dirs);
      && (!dirOk ==> err == Some(MkdirFailed) && disk.files == old(disk.files) && disk.dirs == old(disk.dirs))
      && (dirOk && src.None? ==> err == Some(OpenFailed) && disk.files == old(disk.files) && disk.dirs == old(disk.dirs) + {Parent(dstPath)})
      && (dirOk && src.Some? ==>
            (&& err.None? && written == Selection(changes, src.value)
             && disk.dirs == old(disk.dirs) + {Parent(dstPath)}
             && disk.files == old(disk.files)[dstPath := encode(written)]))
  {
    written := [];
    if |dstPath| == 0 {
      return Some(MkdirFailed), written;
    }
    var ok := disk.Mkdir(Parent(dstPath));
    if !ok {
      return Some(MkdirFailed), written;
    }
    if src.None? {
      return Some(OpenFailed), written;
    }
    ok := disk.WriteFile(dstPath, []);
    assert ok;
    written := CopyUpdated(changes, src.value);
    ok := disk.WriteFile(dstPath, encode(written));
    return None, written;
  }

  /** The copy loop of `ZipUpdates`. */
  method CopyUpdated(changes: seq<FileTree.FileChange>, archive: Archive) returns (written: Archive)
    ensures written == Selection(changes, archive)
  {
    written := [];
    for i := 0 to |changes|
      invariant Selection(changes, archive) == written + Selection(changes[i..], archive)
    {
      assert changes[i..][1..] == changes[i + 1..];
      if changes[i].kind != FileTree.Updated {
        continue;
      }
      var obj := ReturnZipFileObj(archive, changes[i].path);
      if obj.None? {
        return;
      }
      written := written + [obj.value];
    }
    assert changes[|changes|..] == [];
  }

  // ---------------------------------------------------------------------
  // Unpacking

  /** A directory member: its name ends in '/'. */
  predicate IsDirEntry(e: Entry)
  {
    |e.name| > 0 && e.name[|e.name| - 1] == '/'
  }

  /** Where a member is unpacked under `dest`, separators normalised. */
  function EntryTarget(dest: Path, e: Entry): Path
  {
    dest + SplitPath(e.name)
  }

  /** The files unpacking `entries` writes: later members overwrite earlier
      ones with the same target. */
  function Unpacked(entries: Archive, dest: Path): map<Path, Bytes>
  {
    if entries == [] then map[]
    else
      var e := entries[|entries| - 1];
      Unpacked(entries[..|entries| - 1], dest) + EntryFiles(dest, e)
  }

  /** What one member writes: nothing for a directory, else its target. */
  function EntryFiles(dest: Path, e: Entry): map<Path, Bytes>
  {
    if IsDirEntry(e) then map[] else map[EntryTarget(dest, e) := e.data]
  }

  /** A file is unpacked iff some file member targets it. */
  lemma {:induction false} UnpackedKeys(entries: Archive, dest: Path, p: Path)
    ensures p in Unpacked(entries, dest) <==>
      exists i :: 0 <= i < |entries| && !IsDirEntry(entries[i]) && EntryTarget(dest, entries[i]) == p
  {
    if entries != [] {
      var init := entries[..|entries| - 1];
      UnpackedKeys(init, dest, p);
      if exists i :: 0 <= i < |init| && !IsDirEntry(init[i]) && EntryTarget(dest, init[i]) == p {
        var i :| 0 <= i < |init| && !IsDirEntry(init[i]) && EntryTarget(dest, init[i]) == p;
        assert entries[i] == init[i];
      }
      if exists i :: 0 <= i < |entries| && !IsDirEntry(entries[i]) && EntryTarget(dest, entries[i]) == p {
        var i :| 0 <= i < |entries| && !IsDirEntry(entries[i]) && EntryTarget(dest, entries[i]) == p;
        if i < |init| {
          assert init[i] == entries[i];
        }
      }
    }
  }

  /** The last file member with a given target decides its bytes. */
  lemma {:induction false} UnpackedLastWins(entries: Archive, dest: Path, i: nat)
    requires i < |entries| && !IsDirEntry(entries[i])
    requires forall j :: i < j < |entries| ==> IsDirEntry(entries[j]) || EntryTarget(dest, entries[j]) != EntryTarget(dest, entries[i])
    ensures EntryTarget(dest, entries[i]) in Unpacked(entries, dest)
    ensures Unpacked(entries, dest)[EntryTarget(dest, entries[i])] == entries[i].data
  {
    var n := |entries| - 1;
    if i < n {
      var init := entries[..n];
      assert init[i] == entries[i];
      forall j | i < j < |init| ensures IsDirEntry(init[j]) || EntryTarget(dest, init[j]) != EntryTarget(dest, init[i]) {
        assert init[j] == entries[j];
      }
      UnpackedLastWins(init, dest, i);
    }
  }

  lemma UnpackedStep(entries: Archive, dest: Path, i: nat)
    requires i < |entries|
    ensures Unpacked(entries[..i + 1], dest) == Unpacked(entries[..i], dest) + EntryFiles(dest, entries[i])
  {
    assert entries[..i + 1][..i] == entries[..i];
  }

  /** Writing member `i` over the first `i` members unpacked gives the first `i + 1`. */
  lemma UnpackedOver(base: map<Path, Bytes>, entries: Archive, dest: Path, i: nat)
    requires i < |entries|
    ensures (base + Unpacked(entries[..i], dest)) + EntryFiles(dest, entries[i]) == base + Unpacked(entries[..i + 1], dest)
  {
    UnpackedStep(entries, dest, i);
    OverlayAssoc(base, Unpacked(entries[..i], dest), EntryFiles(dest, entries[i]));
  }

  lemma OverlayAssoc<K, V>(a: map<K, V>, b: map<K, V>, c: map<K, V>)
    ensures (a + b) + c == a + (b + c)
  {
  }

  /** The directories unpacking one member creates: the parents of its
      target, nothing for a directory member or an empty target. */
  function EntryDirs(dest: Path, e: Entry): set<Path>
  {
    var t := EntryTarget(dest, e);
    if IsDirEntry(e) || |t| == 0 then {} else Prefixes(Parent(t))
  }

  /** A member can be unpacked over `files` and `dirs`: a directory member
      always, a file member when its target is not empty, no file lies on
      the way to its parent and no directory sits at the target. */
  predicate EntryWritable(files: map<Path, Bytes>, dirs: set<Path>, dest: Path, e: Entry)
  {
    var t := EntryTarget(dest, e);
    IsDirEntry(e) || (|t| > 0 && NoFileOnPath(files, Parent(t)) && t !in dirs)
  }

  /** Every member, in order, can be unpacked over what the members before
      it left. */
  predicate Unpackable(files: map<Path, Bytes>, dirs: set<Path>, dest: Path, entries: Archive)
    decreases |entries|
  {
    entries == [] ||
      (&& EntryWritable(files, dirs, dest, entries[0])
       && Unpackable(files + EntryFiles(dest, entries[0]), dirs + EntryDirs(dest, entries[0]), dest, entries[1..]))
  }

  /** The directories unpacking `entries` creates. */
  function UnpackedDirs(entries: Archive, dest: Path): set<Path>
  {
    if entries == [] then {}
    else UnpackedDirs(entries[..|entries| - 1], dest) + EntryDirs(dest, entries[|entries| - 1])
  }

  /** One member of `UnzipData`: skipped when a directory, otherwise its
      parents are created and the file written. It succeeds exactly when the
      member is writable; only a file on the way to the parent stops it
      before the parents are created. */
  method UnzipEntry(disk: Disk, dest: Path, e: Entry) returns (err: Option<ZipError>)
    requires disk.Valid()
    modifies disk
    ensures disk.Valid()
    ensures err.None? <==> EntryWritable(old(disk.files), old(disk.dirs), dest, e)
    ensures err.Some? ==> err.value in {MkdirFailed, CreateFailed}
    ensures err == Some(MkdirFailed) <==>
      !IsDirEntry(e) && |EntryTarget(dest, e)| > 0 && !NoFileOnPath(old(disk.files), Parent(EntryTarget(dest, e)))
    ensures err.None? ==> disk.files == old(disk.files) + EntryFiles(dest, e)
    ensures err.Some? ==> disk.files == old(disk.files)
    ensures disk.dirs == if err == Some(MkdirFailed) then old(disk.dirs) else old(disk.dirs) + EntryDirs(dest, e)
  {
    if IsDirEntry(e) {
      return None;
    }
    var target := EntryTarget(dest, e);
    if |target| == 0 {
      return Some(CreateFailed);
    }
    var ok := disk.MkdirAll(Parent(target));
    if !ok {
      return Some(MkdirFailed);
    }
    assert Parent(target)[..|Parent(target)|] == Parent(target);
    ok := disk.WriteFile(target, e.data);
    if !ok {
      return Some(CreateFailed);
    }
    return None;
  }

  /** `UnzipData`: every non-directory member is written to its target under
      `dest`, parents created first; the first failure ends the unpacking,
      leaving the members before it written. It succeeds exactly when the
      archive opens and its members are `Unpackable` in order. */
  method UnzipData(disk: Disk, src: Option<Archive>, dest: Path) returns (err: Option<ZipError>)
    requires disk.Valid()
    modifies disk
    ensures disk.Valid()
    ensures src.None? ==> err == Some(OpenFailed) && disk.files == old(disk.files) && disk.dirs == old(disk.dirs)
    ensures src.Some? ==> (err.None? <==> Unpackable(old(disk.files), old(disk.dirs), dest, src.value))
    ensures src.Some? && err.None? ==>
      && disk.files == old(disk.files) + Unpacked(src.value, dest)
      && disk.dirs == old(disk.dirs) + UnpackedDirs(src.value, dest)
    ensures src.Some? && err.Some? ==>
      && err.value in {MkdirFailed, CreateFailed}
      && old(disk.dirs) <= disk.dirs
      && exists k :: 0 <= k < |src.value| && disk.files == old(disk.files) + Unpacked(src.value[..k], dest)
  {
    if src.None? {
      return Some(OpenFailed);
    }
    var archive := src.value;
    for i := 0 to |archive|
      invariant disk.Valid()
      invariant disk.files == old(disk.files) + Unpacked(archive[..i], dest)
      invariant disk.dirs == old(disk.dirs) + UnpackedDirs(archive[..i], dest)
      invariant Unpackable(old(disk.files), old(disk.dirs), dest, archive) == Unpackable(disk.files, disk.dirs, dest, archive[i..])
    {
      assert archive[i..][0] == archive[i] && archive[i..][1..] == archive[i + 1..];
      err := UnzipEntry(disk, dest, archive[i]);
      if err.Some? {
        return;
      }
      UnpackedOver(old(disk.files), archive, dest, i);
      assert archive[..i + 1][..i] == archive[..i];
    }
    assert archive[..|archive|] == archive;
    return None;
  }

  // ---------------------------------------------------------------------
  // Packing a workspace

  /** A directory tree as `addFilesToZip` reads it: a file whose content may
      fail to read, or a directory whose listing may fail. */
  datatype ZipNode =
    | ZFile(name: string, content: Option<Bytes>)
    | ZDir(name: string, listable: bool, children: seq<ZipNode>)

  /** Reference definition: the members for the files under `children`,
      relative to `rel`, skipping the protected names at every level. */
  ghost function Packable(children: seq<ZipNode>, rel: Path): set<Entry>
    decreases children
  {
    if children == [] then {}
    else
      var c := children[0];
      Packable(children[1..], rel) +
      (if FilesAndFolders.Protected(c.name) then {}
       else match c
         case ZFile(name, content) => if content.Some? then {Entry(JoinPath(rel + [name]), content.value)} else {}
         case ZDir(name, listable, cs) => if listable then Packable(cs, rel + [name]) else {})
  }

  /** Every file below `children` can be read and every directory listed. */
  ghost predicate Readable(children: seq<ZipNode>)
    decreases children
  {
    forall i :: 0 <= i < |children| ==>
      match children[i]
      case ZFile(_, content) => content.Some?
      case ZDir(_, listable, cs) => listable && Readable(cs)
  }

  /** `addFilesToZip`: lists the directory, skips the protected names, adds
      each file under its relative name and recurses into each directory.
      An unreadable file ends this level with an error; the error of a
      recursive call is dropped. */
  method AddFilesToZip(listable: bool, children: seq<ZipNode>, rel: Path) returns (entries: Archive, err: Option<ZipError>)
    ensures forall e :: e in entries ==> e in Packable(children, rel)
    ensures listable && Readable(children) ==> err.None? && forall e :: e in Packable(children, rel) ==> e in entries
    ensures !listable ==> err == Some(ReadDirFailed) && entries == []
    decreases children
  {
    entries := [];
    if !listable {
      return entries, Some(ReadDirFailed);
    }
    for i := 0 to |children|
      invariant forall e :: e in entries ==> e in Packable(children, rel)
      invariant Readable(children) ==> forall e :: e in Packable(children[..i], rel) ==> e in entries
    {
      PackableSplit(children, i, rel);
      var c := children[i];
      if FilesAndFolders.Protected(c.name) {
        continue;
      }
      match c {
        case ZFile(name, content) =>
          if content.None? {
            return entries, Some(ReadFailed);
          }
          entries := entries + [Entry(JoinPath(rel + [name]), content.value)];
        case ZDir(name, l, cs) =>
          var sub, subErr := AddFilesToZip(l, cs, rel + [name]);
          entries := entries + sub;
      }
    }
    assert children[..|children|] == children;
    return entries, None;
  }

  /** The members of a prefix of the children and of the next child make up
      the members of the longer prefix. */
  lemma {:induction false} PackableSplit(children: seq<ZipNode>, i: nat, rel: Path)
    requires i < |children|
    ensures Packable(children[..i + 1], rel) == Packable(children[..i], rel) + Packable([children[i]], rel)
    ensures Packable(children[..i + 1], rel) <= Packable(children, rel)
  {
    PackableAppend(children[..i], [children[i]], rel);
    assert children[..i] + [children[i]] == children[..i + 1];
    PackableAppend(children[..i + 1], children[i + 1..], rel);
    assert children[..i + 1] + children[i + 1..] == children;
  }

  lemma {:induction false} PackableAppend(a: seq<ZipNode>, b: seq<ZipNode>, rel: Path)
    ensures Packable(a + b, rel) == Packable(a, rel) + Packable(b, rel)
    decreases |a|
  {
    if a == [] {
      assert a + b == b;
    } else {
      assert (a + b)[0] == a[0];
      assert (a + b)[1..] == a[1..] + b;
      PackableAppend(a[1..], b, rel);
    }
  }

  /** `ZipData`: creates the destination directory, creates `<name>.zip` in it
      and writes the workspace's members; a failure while collecting the
      members is not reported. */
  method ZipData(disk: Disk, listable: bool, workspace: seq<ZipNode>, destination: Path, zipName: string,
                 encode: Archive -> Bytes)
    returns (err: Option<ZipError>, written: Archive)
    requires disk.Valid()
    modifies disk
    ensures disk.Valid()
    ensures forall e :: e in written ==> e in Packable(workspace, [])
    ensures err.None? && listable && Readable(workspace) ==> forall e :: e in Packable(workspace, []) ==> e in written
    ensures err.None? <==> NoFileOnPath(old(disk.files), destination) && destination + [zipName + ".zip"] !in old(disk.dirs)
    ensures err == Some(MkdirFailed) <==> !NoFileOnPath(old(disk.files), destination)
    ensures err.Some? ==> err.value in {MkdirFailed, CreateFailed}
    ensures err.None? ==> disk.files == old(disk.files)[destination + [zipName + ".zip"] := encode(written)]
    ensures err.Some? ==> disk.files == old(disk.files)
    ensures disk.dirs == if err == Some(MkdirFailed) then old(disk.dirs) else old(disk.dirs) + Prefixes(destination)
  {
    written := [];
    var ok := disk.MkdirAll(destination);
    if !ok {
      return Some(MkdirFailed), written;
    }
    var zipPath := destination + [zipName + ".zip"];
    assert Parent(zipPath) == destination[..|destination|];
    ok := disk.WriteFile(zipPath, []);
    if !ok {
      return Some(CreateFailed), written;
    }
    var collectErr;
    written, collectErr := AddFilesToZip(listable, workspace, []);
    ok := disk.WriteFile(zipPath, encode(written));
    return None, written;
  }
}

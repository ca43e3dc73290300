/** The workspace owner's RPC handlers (handler/handler.go): the connection
    set-up for a new listener and `GetMetaData`, which decides how a
    listener's request is served and prepares the encrypted bundle it will
    download. The RSA layer is kept abstract: the request carries the
    password already decrypted (`None` when decryption failed) and RSA
    encryption of the key and IV is a parameter. */
module Handler {
  import opened Common
  import opened FileSystem
  import FileTree
  import UsersConfig
  import PkrConfig
  import FilesAndFolders
  import Zip
  import Aes

  /** The sentinel errors the handlers return. */
  datatype HandlerError =
    | IncorrectPassword
    | ServerNotFound
    | InternalServerError
    | AlreadyLatest
    | InvalidLastPushNum
    | NoSuchWorkspaceFound

  // ---------------------------------------------------------------------
  // InitNewWorkSpaceConnection
  // ---------------------------------------------------------------------

  /** The error `InitNewWorkSpaceConnection` reports for a failed
      authentication, chosen by comparing the error's message. */
  function InitError(e: UsersConfig.ConfigError): (h: HandlerError)
    ensures h == IncorrectPassword <==> e == UsersConfig.IncorrectPassword
    ensures h == NoSuchWorkspaceFound <==> e == UsersConfig.NoSuchWorkspace
    ensures h == IncorrectPassword || h == NoSuchWorkspaceFound || h == InternalServerError
  {
    var message := UsersConfig.Message(e);
    if message == "incorrect password" then IncorrectPassword
    else if message == "no such workspace found" then NoSuchWorkspaceFound
    else InternalServerError
  }

  /** A listener's request to connect to a workspace: the password after RSA
      decryption and the public key after base64 decoding, each `None` when
      that step failed. */
  datatype InitRequest = InitRequest(workspaceName: string, password: Option<string>, username: string, publicKey: Option<Bytes>)

  /** `InitNewWorkSpaceConnection`: authenticates the listener and stores its
      public key as `<others_keys>/<username>.pem`. Nothing is written unless
      every earlier step succeeded. */
  method InitNewWorkSpaceConnection(users: UsersConfig.UserConfigFile, disk: Disk, req: InitRequest, othersKeys: Path)
    returns (err: Option<HandlerError>)
    requires disk.Valid()
    modifies disk
    ensures disk.Valid()
    ensures disk.dirs == old(disk.dirs)
    ensures req.password.None? ==> err == Some(InternalServerError) && disk.files == old(disk.files)
    ensures req.password.Some? ==>
      var auth := UsersConfig.Authentication(users.file, req.workspaceName, req.password.value);
      var keyPath := UsersConfig.PublicKeyPath(othersKeys, req.username);
      var stored := keyPath !in old(disk.dirs) && |keyPath| > 0 && Parent(keyPath) in old(disk.dirs);
      && (auth.Err? ==> err == Some(InitError(auth.error)) && disk.files == old(disk.files))
      && (auth.Ok? && req.publicKey.None? ==> err == Some(InternalServerError) && disk.files == old(disk.files))
      && (auth.Ok? && req.publicKey.Some? && stored ==>
            err.None? && disk.files == old(disk.files)[keyPath := req.publicKey.value])
      && (auth.Ok? && req.publicKey.Some? && !stored ==>
            err == Some(InternalServerError) && disk.files == old(disk.files))
  {
    if req.password.None? {
      return Some(InternalServerError);
    }
    var auth := users.AuthenticateWorkspaceInfo(req.workspaceName, req.password.value);
    if auth.Err? {
      return Some(InitError(auth.error));
    }
    if req.publicKey.None? {
      return Some(InternalServerError);
    }
    var ok := disk.WriteFile(UsersConfig.PublicKeyPath(othersKeys, req.username), req.publicKey.value);
    if !ok {
      return Some(InternalServerError);
    }
    return None;
  }

  // ---------------------------------------------------------------------
  // The name of the encrypted bundle: `strings.Replace(path, ".zip", ".enc", 1)`
  // ---------------------------------------------------------------------

  predicate OccursAt(s: string, t: string, j: nat)
  {
    j + |t| <= |s| && s[j..j + |t|] == t
  }

  /** The first occurrence of `t` in `s` at or after `k`. */
  function FindFrom(s: string, t: string, k: nat): (r: Option<nat>)
    ensures r.Some? ==> k <= r.value && OccursAt(s, t, r.value)
    ensures r.Some? ==> forall j :: k <= j < r.value ==> !OccursAt(s, t, j)
    ensures r.None? ==> forall j :: k <= j ==> !OccursAt(s, t, j)
    decreases |s| - k
  {
    if k + |t| > |s| then None
    else if OccursAt(s, t, k) then Some(k)
    else FindFrom(s, t, k + 1)
  }

  /** `s` with its first occurrence of `t` replaced by `u`. */
  function ReplaceFirst(s: string, t: string, u: string): string
  {
    match FindFrom(s, t, 0)
    case None => s
    case Some(i) => s[..i] + u + s[i + |t|..]
  }

  /** The first replacement in the joined path. A pattern without separators
      lies inside one component, so it is made in the first component that
      contains the pattern. */
  function ReplaceFirstInPath(p: Path, t: string, u: string): (r: Path)
    ensures |r| == |p|
  {
    if p == [] then []
    else if FindFrom(p[0], t, 0).Some? then [ReplaceFirst(p[0], t, u)] + p[1..]
    else [p[0]] + ReplaceFirstInPath(p[1..], t, u)
  }

  /** Where `GetMetaData` stores the encrypted form of the zip at `zipPath`. */
  function EncPathOf(zipPath: Path): Path
  {
    ReplaceFirstInPath(zipPath, ".zip", ".enc")
  }

  /** The first occurrence is the one with none before it. */
  lemma FindFirst(s: string, t: string, i: nat)
    requires OccursAt(s, t, i)
    requires forall j :: 0 <= j < i ==> !OccursAt(s, t, j)
    ensures FindFrom(s, t, 0) == Some(i)
  {
  }

  /** In `name + ".zip"` with no dot in `name`, the first ".zip" is the suffix. */
  lemma FindSuffix(name: string)
    requires '.' !in name
    ensures FindFrom(name + ".zip", ".zip", 0) == Some(|name|)
  {
    var s := name + ".zip";
    assert s[|name|..|name| + 4] == ".zip";
    forall j | 0 <= j < |name| ensures !OccursAt(s, ".zip", j) {
      assert s[j] == name[j];
      NotAtNonDot(s, j);
    }
    FindFirst(s, ".zip", |name|);
  }

  /** Replacing the first ".zip" of `name + ".zip"` swaps the extension. */
  lemma ReplaceSuffix(name: string)
    requires '.' !in name
    ensures ReplaceFirst(name + ".zip", ".zip", ".enc") == name + ".enc"
  {
    FindSuffix(name);
    var s := name + ".zip";
    assert s[..|name|] == name;
    assert s[|name| + 4..] == [];
  }

  /** ".zip" cannot start at a character that is not a dot. */
  lemma NotAtNonDot(s: string, j: nat)
    requires j < |s| && s[j] != '.'
    ensures !OccursAt(s, ".zip", j)
  {
    if j + 4 <= |s| {
      assert s[j..j + 4][0] == s[j];
    }
  }

  /** A component without a dot contains no ".zip". */
  lemma NoDotNoZip(c: string)
    requires '.' !in c
    ensures FindFrom(c, ".zip", 0).None?
  {
    forall j | 0 <= j ensures !OccursAt(c, ".zip", j) {
      if j < |c| {
        NotAtNonDot(c, j);
      }
    }
  }

  /** The components `GetMetaData` adds below the workspace contain no ".zip". */
  lemma FixedComponentsNoZip()
    ensures FindFrom(".PKr", ".zip", 0).None?
    ensures FindFrom("Files", ".zip", 0).None?
    ensures FindFrom("Changes", ".zip", 0).None?
  {
    assert ".PKr"[0..4][1] != ".zip"[1];
    assert !OccursAt(".PKr", ".zip", 0);
    NoDotNoZip("Files");
    NoDotNoZip("Changes");
  }

  /** Components that do not contain the pattern are kept. */
  lemma {:induction false} ReplaceSkipsPrefix(q: Path, tail: Path, t: string, u: string)
    requires forall i :: 0 <= i < |q| ==> FindFrom(q[i], t, 0).None?
    ensures ReplaceFirstInPath(q + tail, t, u) == q + ReplaceFirstInPath(tail, t, u)
  {
    if q != [] {
      assert (q + tail)[0] == q[0];
      assert FindFrom((q + tail)[0], t, 0).None?;
      assert (q + tail)[1..] == q[1..] + tail;
      ReplaceSkipsPrefix(q[1..], tail, t, u);
      assert ReplaceFirstInPath(q + tail, t, u) == [q[0]] + (q[1..] + ReplaceFirstInPath(tail, t, u));
      assert q == [q[0]] + q[1..];
    } else {
      assert q + tail == tail;
    }
  }

  /** The range keys `GetMetaData` builds have no dot. */
  lemma RangeKeyNoDot(a: int, b: int)
    requires 0 <= a
    ensures '.' !in RangeKey(a, b)
  {
    var s := RangeKey(a, b);
    var x, y := IntToString(a), IntToString(b);
    assert s == x + "-" + y;
    forall i | 0 <= i < |s| ensures s[i] != '.' {
      if i < |x| {
        assert s[i] == x[i];
      } else if i > |x| {
        assert s[i] == y[i - |x| - 1];
      }
    }
  }

  // ---------------------------------------------------------------------
  // The files of a workspace that GetMetaData reads and writes
  // ---------------------------------------------------------------------

  function CurrentDir(ws: Path): Path
  {
    ws + [".PKr", "Files", "Current"]
  }

  /** The full-state archive of push `n`. */
  function CurrentZip(ws: Path, n: int): Path
  {
    CurrentDir(ws) + [IntToString(n) + ".zip"]
  }

  /** The cache directory of a push range. */
  function RangeDir(ws: Path, range: string): Path
  {
    FilesAndFolders.ChangesDir(ws) + [range]
  }

  function ZipFile(ws: Path, range: string): Path
  {
    RangeDir(ws, range) + [range + ".zip"]
  }

  /** The bundle a cached range is served from. */
  function EncFile(ws: Path, range: string): Path
  {
    RangeDir(ws, range) + [range + ".enc"]
  }

  /** In a workspace whose path contains no ".zip", the encrypted bundle is
      stored exactly where it is later looked for. */
  lemma EncPathOfBundle(ws: Path, range: string)
    requires forall i :: 0 <= i < |ws| ==> FindFrom(ws[i], ".zip", 0).None?
    requires '.' !in range
    ensures EncPathOf(ZipFile(ws, range)) == EncFile(ws, range)
  {
    FixedComponentsNoZip();
    NoDotNoZip(range);
    FindSuffix(range);
    ReplaceSuffix(range);
    var fixed := [".PKr", "Files", "Changes", range];
    var q := ws + fixed;
    forall i | 0 <= i < |q| ensures FindFrom(q[i], ".zip", 0).None? {
      if i >= |ws| {
        assert q[i] == fixed[i - |ws|];
      }
    }
    assert ZipFile(ws, range) == q + [range + ".zip"];
    ReplaceSkipsPrefix(q, [range + ".zip"], ".zip", ".enc");
    assert ReplaceFirstInPath([range + ".zip"], ".zip", ".enc") == [range + ".enc"];
  }

  /** A workspace under a directory whose name contains ".zip" gets its
      bundle written inside a sibling directory: the replacement hits that
      directory's name, not the file's extension. */
  lemma ZipInWorkspacePathMisplacesBundle()
    ensures EncPathOf(ZipFile(["home", "a.zip"], "0-1")) != EncFile(["home", "a.zip"], "0-1")
    ensures EncPathOf(ZipFile(["home", "a.zip"], "0-1"))[1] == "a.enc"
  {
    NoDotNoZip("home");
    FindSuffix("a");
    assert "a" + ".zip" == "a.zip";
    assert "a" + ".enc" == "a.enc";
    var p := ZipFile(["home", "a.zip"], "0-1");
    assert p[0] == "home" && p[1] == "a.zip";
    assert p[1..][0] == "a.zip";
    assert EncPathOf(p)[1] == "a.enc";
  }

  /** The replacement changes a path that contains the pattern. */
  lemma {:induction false} ReplaceChanges(p: Path)
    requires exists i :: 0 <= i < |p| && FindFrom(p[i], ".zip", 0).Some?
    ensures EncPathOf(p) != p
  {
    var first := FindFrom(p[0], ".zip", 0);
    if first.Some? {
      var k := first.value;
      var r := ReplaceFirst(p[0], ".zip", ".enc");
      assert p[0][k..k + 4] == ".zip";
      assert r[k + 1] == 'e';
      assert p[0][k + 1] == p[0][k..k + 4][1] == 'z';
      assert EncPathOf(p)[0] == r != p[0];
    } else {
      var i :| 0 <= i < |p| && FindFrom(p[i], ".zip", 0).Some?;
      assert i != 0;
      assert p[1..][i - 1] == p[i];
      ReplaceChanges(p[1..]);
      assert EncPathOf(p) == [p[0]] + EncPathOf(p[1..]);
      assert EncPathOf(p)[1..] == EncPathOf(p[1..]);
    }
  }

  /** The last component of the replaced path is the old one or its
      replacement. */
  lemma {:induction false} ReplaceLast(p: Path)
    requires |p| > 0
    ensures EncPathOf(p)[|p| - 1] == p[|p| - 1] || EncPathOf(p)[|p| - 1] == ReplaceFirst(p[|p| - 1], ".zip", ".enc")
  {
    if FindFrom(p[0], ".zip", 0).None? && |p| > 1 {
      ReplaceLast(p[1..]);
      assert EncPathOf(p)[1..] == EncPathOf(p[1..]);
    }
  }

  lemma KeyNamesHaveNoDot()
    ensures '.' !in "AES_KEY" && '.' !in "AES_IV"
  {
    var k, v := "AES_KEY", "AES_IV";
    assert k[0] == 'A' && k[1] == 'E' && k[2] == 'S' && k[3] == '_' && k[4] == 'K' && k[5] == 'E' && k[6] == 'Y';
    assert v[0] == 'A' && v[1] == 'E' && v[2] == 'S' && v[3] == '_' && v[4] == 'I' && v[5] == 'V';
  }

  /** The zip and its encrypted form are different files, and neither is the
      key or the IV file of the range. */
  lemma BundleFilesDistinct(ws: Path, range: string)
    requires '.' !in range
    ensures EncPathOf(ZipFile(ws, range)) != ZipFile(ws, range)
    ensures EncPathOf(ZipFile(ws, range)) != RangeDir(ws, range) + ["AES_KEY"]
    ensures EncPathOf(ZipFile(ws, range)) != RangeDir(ws, range) + ["AES_IV"]
    ensures ZipFile(ws, range) != RangeDir(ws, range) + ["AES_KEY"]
    ensures ZipFile(ws, range) != RangeDir(ws, range) + ["AES_IV"]
  {
    var zip := ZipFile(ws, range);
    var n := |zip| - 1;
    FindSuffix(range);
    ReplaceSuffix(range);
    assert zip[n] == range + ".zip";
    ReplaceChanges(zip);
    ReplaceLast(zip);
    KeyNamesHaveNoDot();
    var last := EncPathOf(zip)[n];
    assert last == range + ".zip" || last == range + ".enc";
    assert last[|range|] == '.';
    assert zip[n][|range|] == '.';
    assert (RangeDir(ws, range) + ["AES_KEY"])[n] == "AES_KEY";
    assert (RangeDir(ws, range) + ["AES_IV"])[n] == "AES_IV";
  }

  // ---------------------------------------------------------------------
  // GetMetaData: the decision
  // ---------------------------------------------------------------------

  /** A listener's metadata request, the password after RSA decryption. */
  datatype MetaDataRequest = MetaDataRequest(username: string, workspaceName: string, password: Option<string>, lastPushNum: int)

  /** How a request is served: refused with an error, a clone of the whole
      workspace at push `current`, or a pull of pushes `from+1 .. current`. */
  datatype Decision =
    | Refuse(error: HandlerError)
    | Clone(path: string, current: int)
    | Pull(path: string, from: int, current: int)

  /** The decision `GetMetaData` takes before touching any file. Every
      authentication failure, an unknown workspace included, is reported as
      an incorrect password. */
  function Decide(file: UsersConfig.ConfigFile, configs: map<string, PkrConfig.PKRConfig>, req: MetaDataRequest): (d: Decision)
    ensures !d.Refuse? ==>
      && req.password.Some?
      && UsersConfig.Authentication(file, req.workspaceName, req.password.value) == Ok(d.path)
      && d.path in configs && d.current == configs[d.path].lastPushNum
      && req.lastPushNum < d.current
    ensures d.Clone? <==> !d.Refuse? && req.lastPushNum == -1
    ensures d.Pull? ==> d.from == req.lastPushNum != -1
  {
    if req.password.None? then Refuse(InternalServerError)
    else
      var auth := UsersConfig.Authentication(file, req.workspaceName, req.password.value);
      if auth.Err? then Refuse(IncorrectPassword)
      else
        UsersConfig.AuthenticatedPathFound(file, req.workspaceName, req.password.value);
        match UsersConfig.SendWorkspacePath(file, req.workspaceName)
        case Err(_) => Refuse(InternalServerError)
        case Ok(p) =>
          if p !in configs then Refuse(InternalServerError)
          else
            var current := configs[p].lastPushNum;
            if current == req.lastPushNum then Refuse(AlreadyLatest)
            else if req.lastPushNum > current then Refuse(InvalidLastPushNum)
            else if req.lastPushNum == -1 then Clone(p, current)
            else Pull(p, req.lastPushNum, current)
  }

  /** Authentication alone decides between an incorrect-password refusal and
      going on: no other refusal reads as an incorrect password. */
  lemma AuthFailureIsIncorrectPassword(file: UsersConfig.ConfigFile, configs: map<string, PkrConfig.PKRConfig>, req: MetaDataRequest)
    requires req.password.Some?
    ensures UsersConfig.Authentication(file, req.workspaceName, req.password.value).Err? <==>
      Decide(file, configs, req) == Refuse(IncorrectPassword)
  {
    var auth := UsersConfig.Authentication(file, req.workspaceName, req.password.value);
    if auth.Ok? {
      UsersConfig.AuthenticatedPathFound(file, req.workspaceName, req.password.value);
    }
  }

  /** A request at the current push, or beyond it, is refused once the
      listener is authenticated. */
  lemma UpToDateOrAheadRefused(file: UsersConfig.ConfigFile, configs: map<string, PkrConfig.PKRConfig>, req: MetaDataRequest)
    requires req.password.Some?
    requires UsersConfig.Authentication(file, req.workspaceName, req.password.value).Ok?
    requires var p := UsersConfig.Authentication(file, req.workspaceName, req.password.value).value;
      p in configs && req.lastPushNum >= configs[p].lastPushNum
    ensures var p := UsersConfig.Authentication(file, req.workspaceName, req.password.value).value;
      Decide(file, configs, req) ==
        if req.lastPushNum == configs[p].lastPushNum then Refuse(AlreadyLatest) else Refuse(InvalidLastPushNum)
  {
    UsersConfig.AuthenticatedPathFound(file, req.workspaceName, req.password.value);
  }

  /** The key a served request is cached under: the push number for a clone,
      `"from-current"` for a pull. */
  function RequestKey(d: Decision): string
    requires !d.Refuse?
  {
    if d.Clone? then IntToString(d.current) else RangeKey(d.from, d.current)
  }

  /** Different pulls have different range keys, and no pull shares its key
      with a clone. */
  lemma RequestKeysDistinct(d: Decision, e: Decision)
    requires !d.Refuse? && !e.Refuse?
    requires d.Pull? ==> d.from >= 0
    requires e.Pull? ==> e.from >= 0
    requires d.current >= 0 && e.current >= 0
    ensures d.Pull? && e.Pull? ==> (RequestKey(d) == RequestKey(e) <==> d.from == e.from && d.current == e.current)
    ensures d.Clone? && e.Pull? ==> RequestKey(d) != RequestKey(e)
  {
    if d.Pull? && e.Pull? {
      RangeKeyInjective(d.from, d.current, e.from, e.current);
    }
    if d.Clone? && e.Pull? {
      CloneKeyIsNotRangeKey(d.current, e.from, e.current);
    }
  }

  // ---------------------------------------------------------------------
  // GetMetaData: the response
  // ---------------------------------------------------------------------

  datatype MetaData = MetaData(
    requestPushRange: string,
    updates: Option<map<string, string>>,
    lenData: int,
    keyBytes: Bytes,
    ivBytes: Bytes,
    lastPushNum: int,
    lastPushDesc: string)

  /** What `GetMetaData` uses but does not compute: where the others' public
      keys are, the zip decoder and encoder, the random bytes the key and IV
      are drawn from, the AES keystream, and RSA encryption of data with a
      public key (`None` on failure). */
  datatype Env = Env(
    othersKeys: Path,
    decode: Bytes -> Option<Zip.Archive>,
    encode: Zip.Archive -> Bytes,
    keyRandom: Bytes,
    ivRandom: Bytes,
    ks: Aes.Keystream,
    rsaEncrypt: (Bytes, Bytes) -> Option<Bytes>)

  /** The AES key and IV stored in `keyDir`, each encrypted with the
      listener's public key. */
  function SealedKeys(files: map<Path, Bytes>, keyDir: Path, username: string, env: Env): (r: Result<(Bytes, Bytes), HandlerError>)
    ensures r.Err? ==> r.error == InternalServerError
    ensures r.Ok? <==>
      && keyDir + ["AES_KEY"] in files && keyDir + ["AES_IV"] in files
      && UsersConfig.PublicKeyPath(env.othersKeys, username) in files
      && env.rsaEncrypt(files[keyDir + ["AES_KEY"]], files[UsersConfig.PublicKeyPath(env.othersKeys, username)]).Some?
      && env.rsaEncrypt(files[keyDir + ["AES_IV"]], files[UsersConfig.PublicKeyPath(env.othersKeys, username)]).Some?
  {
    if keyDir + ["AES_KEY"] !in files || keyDir + ["AES_IV"] !in files then Err(InternalServerError)
    else
      match UsersConfig.GetPublicKeyUsingUsername(files, env.othersKeys, username)
      case Err(_) => Err(InternalServerError)
      case Ok(publicKey) =>
        var key := env.rsaEncrypt(files[keyDir + ["AES_KEY"]], publicKey);
        var iv := env.rsaEncrypt(files[keyDir + ["AES_IV"]], publicKey);
        if key.None? || iv.None? then Err(InternalServerError)
        else Ok((key.value, iv.value))
  }

  /** Each merged path with its change type. */
  function KindMap(d: map<string, FileTree.FileChange>): map<string, string>
  {
    map p | p in d :: d[p].kind
  }

  /** The loop filling `res.Updates`: each listed path mapped to its type. */
  method UpdatesMap(changes: seq<FileTree.FileChange>, ghost d: map<string, FileTree.FileChange>)
    returns (m: map<string, string>)
    ensures m.Keys == set c | c in changes :: c.path
    ensures FileTree.NoDuplicatePaths(changes) ==> forall c :: c in changes ==> m[c.path] == c.kind
    ensures FileTree.Enumerates(changes, d) ==> m == KindMap(d)
  {
    m := map[];
    for i := 0 to |changes|
      invariant m.Keys == set j | 0 <= j < i :: changes[j].path
      invariant FileTree.NoDuplicatePaths(changes) ==> forall j :: 0 <= j < i ==> m[changes[j].path] == changes[j].kind
    {
      m := m[changes[i].path := changes[i].kind];
    }
    assert changes[..|changes|] == changes;
    PathsOfChanges(changes);
    if FileTree.Enumerates(changes, d) {
      EnumeratedKinds(changes, d, m);
    }
  }

  lemma PathsOfChanges(changes: seq<FileTree.FileChange>)
    ensures (set j | 0 <= j < |changes| :: changes[j].path) == set c | c in changes :: c.path
  {
    assert forall c :: c in changes <==> exists j :: 0 <= j < |changes| && changes[j] == c;
  }

  /** A map giving each listed change's kind is the kind map of what the list enumerates. */
  lemma EnumeratedKinds(changes: seq<FileTree.FileChange>, d: map<string, FileTree.FileChange>, m: map<string, string>)
    requires FileTree.Enumerates(changes, d)
    requires m.Keys == set c | c in changes :: c.path
    requires forall c :: c in changes ==> m[c.path] == c.kind
    ensures m == KindMap(d)
  {
    forall p | p in d ensures p in m && m[p] == d[p].kind {
      assert d[p] in changes;
    }
  }

  /** Enough random bytes for a key and an IV, and both key files can be
      created in `dir`. */
  predicate KeysWritable(dirs: set<Path>, dir: Path, env: Env)
  {
    && |env.keyRandom| >= 16 && |env.ivRandom| >= Aes.BlockSize
    && Creatable(dirs, dir + ["AES_KEY"]) && Creatable(dirs, dir + ["AES_IV"])
  }

  /** A range's zip can be sealed: the key files can be written beside it
      and its `.enc` file created. */
  predicate Sealable(dirs: set<Path>, ws: Path, range: string, env: Env)
  {
    KeysWritable(dirs, RangeDir(ws, range), env) && Creatable(dirs, EncPathOf(ZipFile(ws, range)))
  }

  /** The key and IV of a fresh bundle, drawn from the random source and
      written as `AES_KEY` and `AES_IV` in `dir`. It succeeds exactly when
      the random bytes suffice and both files can be created; a failure
      after the key file was written leaves it there. */
  method WriteKeyFiles(disk: Disk, dir: Path, env: Env) returns (ok: bool)
    requires disk.Valid()
    modifies disk
    ensures disk.Valid()
    ensures disk.dirs == old(disk.dirs)
    ensures ok <==> KeysWritable(old(disk.dirs), dir, env)
    ensures !ok ==>
      disk.files == (if |env.keyRandom| >= 16 && Creatable(old(disk.dirs), dir + ["AES_KEY"])
                     then old(disk.files)[dir + ["AES_KEY"] := env.keyRandom[..16]]
                     else old(disk.files))
    ensures ok ==>
      && |env.keyRandom| >= 16 && |env.ivRandom| >= Aes.BlockSize
      && disk.files == old(disk.files)[dir + ["AES_KEY"] := env.keyRandom[..16]][dir + ["AES_IV"] := env.ivRandom[..Aes.BlockSize]]
  {
    var key := Aes.AESGenerateKey(16, env.keyRandom);
    if key.Err? {
      return false;
    }
    var wrote := disk.WriteFile(dir + ["AES_KEY"], key.value);
    if !wrote {
      return false;
    }
    var iv := Aes.AESGenerateIV(env.ivRandom);
    if iv.Err? {
      return false;
    }
    wrote := disk.WriteFile(dir + ["AES_IV"], iv.value);
    return wrote;
  }

  /** The state a cache miss leaves behind: the range directory created, the
      selected archive members zipped, a 16-byte key and IV written beside
      it, the zip encrypted chunk by chunk and then removed. */
  ghost predicate BundleBuilt(
    oldFiles: map<Path, Bytes>, oldDirs: set<Path>, files: map<Path, Bytes>, dirs: set<Path>,
    ws: Path, range: string, current: int, merged: seq<FileTree.FileChange>, bundle: Zip.Archive, env: Env)
  {
    var zip := ZipFile(ws, range);
    var src := CurrentZip(ws, current);
    && |env.keyRandom| >= 16 && |env.ivRandom| >= Aes.BlockSize
    && src in oldFiles && env.decode(oldFiles[src]).Some?
    && bundle == Zip.Selection(merged, env.decode(oldFiles[src]).value)
    && dirs == oldDirs + {RangeDir(ws, range)}
    && files == BundleFiles(oldFiles, ws, range, bundle, env)
  }

  /** The files after a cache miss, given the files before it. */
  ghost function BundleFiles(oldFiles: map<Path, Bytes>, ws: Path, range: string, bundle: Zip.Archive, env: Env): map<Path, Bytes>
    requires |env.keyRandom| >= 16 && |env.ivRandom| >= Aes.BlockSize
  {
    var zip := ZipFile(ws, range);
    var key := env.keyRandom[..16];
    var iv := env.ivRandom[..Aes.BlockSize];
    (oldFiles[zip := env.encode(bundle)][RangeDir(ws, range) + ["AES_KEY"] := key][RangeDir(ws, range) + ["AES_IV"] := iv] - {zip})
      [EncPathOf(zip) := Aes.Chunked(env.encode(bundle), key, iv, env.ks)]
  }

  /** The key and IV files survive the encryption step. */
  lemma BundleKeepsKeys(oldFiles: map<Path, Bytes>, ws: Path, range: string, bundle: Zip.Archive, env: Env)
    requires |env.keyRandom| >= 16 && |env.ivRandom| >= Aes.BlockSize
    requires '.' !in range
    ensures RangeDir(ws, range) + ["AES_KEY"] in BundleFiles(oldFiles, ws, range, bundle, env)
    ensures RangeDir(ws, range) + ["AES_IV"] in BundleFiles(oldFiles, ws, range, bundle, env)
    ensures BundleFiles(oldFiles, ws, range, bundle, env)[RangeDir(ws, range) + ["AES_KEY"]] == env.keyRandom[..16]
    ensures BundleFiles(oldFiles, ws, range, bundle, env)[RangeDir(ws, range) + ["AES_IV"]] == env.ivRandom[..Aes.BlockSize]
  {
    BundleFilesDistinct(ws, range);
  }

  /** The cache-miss branch: `ZipUpdates` from the current full-state
      archive, then a fresh key and IV, then `EncryptZipFileAndStore`. */
  method BuildBundle(disk: Disk, ws: Path, range: string, current: int, merged: seq<FileTree.FileChange>, env: Env)
    returns (ok: bool, ghost bundle: Zip.Archive)
    requires disk.Valid()
    requires '.' !in range
    modifies disk
    ensures disk.Valid()
    ensures ok ==> BundleBuilt(old(disk.files), old(disk.dirs), disk.files, disk.dirs, ws, range, current, merged, bundle, env)
    ensures RangeDir(ws, range) in old(disk.dirs) ==> !ok && disk.files == old(disk.files) && disk.dirs == old(disk.dirs)
    ensures var zip := ZipFile(ws, range);
      var src := CurrentZip(ws, current);
      ok <==>
        && RangeDir(ws, range) !in old(disk.files) && RangeDir(ws, range) !in old(disk.dirs)
        && FilesAndFolders.ChangesDir(ws) in old(disk.dirs)
        && src in old(disk.files) && env.decode(old(disk.files)[src]).Some?
        && Sealable(old(disk.dirs) + {RangeDir(ws, range)}, ws, range, env)
  {
    bundle := [];
    var zip := ZipFile(ws, range);
    var srcPath := CurrentZip(ws, current);
    var src := if srcPath in disk.files then env.decode(disk.files[srcPath]) else None;
    ghost var files0, dirs0 := disk.files, disk.dirs;
    assert Parent(zip) == RangeDir(ws, range);
    var zipErr, written := Zip.ZipUpdates(disk, merged, src, zip, env.encode);
    if zipErr.Some? {
      return false, bundle;
    }
    assert src.Some? && disk.files == files0[zip := env.encode(written)] && disk.dirs == dirs0 + {RangeDir(ws, range)};
    bundle := written;
    ok := SealBundle(disk, ws, range, env);
    return ok, bundle;
  }

  /** A fresh key and IV beside the zip of a range, then the zip encrypted
      into its `.enc` file and removed. It succeeds exactly when the range
      is `Sealable`. */
  method SealBundle(disk: Disk, ws: Path, range: string, env: Env) returns (ok: bool)
    requires disk.Valid()
    requires '.' !in range
    requires ZipFile(ws, range) in disk.files
    modifies disk
    ensures disk.Valid()
    ensures disk.dirs == old(disk.dirs)
    ensures ok <==> Sealable(old(disk.dirs), ws, range, env)
    ensures ok ==>
      && |env.keyRandom| >= 16 && |env.ivRandom| >= Aes.BlockSize
      && var zip := ZipFile(ws, range);
         var key, iv := env.keyRandom[..16], env.ivRandom[..Aes.BlockSize];
         disk.files == (old(disk.files)[RangeDir(ws, range) + ["AES_KEY"] := key][RangeDir(ws, range) + ["AES_IV"] := iv] - {zip})
           [EncPathOf(zip) := Aes.Chunked(old(disk.files)[zip], key, iv, env.ks)]
  {
    var zip := ZipFile(ws, range);
    ok := WriteKeyFiles(disk, RangeDir(ws, range), env);
    if !ok {
      return false;
    }
    BundleFilesDistinct(ws, range);
    assert zip in disk.files && disk.files[zip] == old(disk.files)[zip];
    var encErr, flushedAt := Aes.EncryptZipFileAndStore(disk, zip, EncPathOf(zip), env.keyRandom[..16], env.ivRandom[..Aes.BlockSize], env.ks);
    return encErr.None?;
  }

  /** The pull branch of `GetMetaData`: merge the pushes, list them in
      `Updates`, reuse the cached bundle of the range or build it, and report
      the bundle's size. */
  method ServePull(disk: Disk, configs: PkrConfig.WorkspaceConfigs, path: string, from: int, current: int, env: Env)
    returns (r: Result<(map<string, string>, int), HandlerError>, ghost merged: seq<FileTree.FileChange>, ghost bundle: Zip.Archive)
    requires disk.Valid()
    requires path in configs.files && 0 <= from < current < |configs.files[path].allUpdates|
    modifies disk
    ensures disk.Valid()
    ensures r.Err? ==> r.error == InternalServerError
    ensures var ws := SplitPath(path);
      var range := RangeKey(from, current);
      && (FilesAndFolders.ChangesDir(ws) !in old(disk.dirs) ==>
            r.Err? && disk.files == old(disk.files) && disk.dirs == old(disk.dirs))
      && (r.Ok? ==>
            && r.value.0 == KindMap(PkrConfig.Merged(configs.files[path].allUpdates, from, current))
            && EncFile(ws, range) in disk.files && r.value.1 == |disk.files[EncFile(ws, range)]|)
      && (r.Ok? && RangeDir(ws, range) in old(disk.dirs) ==>
            disk.files == old(disk.files) && disk.dirs == old(disk.dirs))
      && (r.Ok? && RangeDir(ws, range) !in old(disk.dirs) ==>
            && FileTree.Enumerates(merged, PkrConfig.Merged(configs.files[path].allUpdates, from, current))
            && BundleBuilt(old(disk.files), old(disk.dirs), disk.files, disk.dirs, ws, range, current, merged, bundle, env))
  {
    merged, bundle := [], [];
    var ws := SplitPath(path);
    var mergeResult := configs.MergeUpdates(path, from, current);
    if mergeResult.Err? {
      return Err(InternalServerError), merged, bundle;
    }
    var changes := mergeResult.value;
    merged := changes;
    var updates := UpdatesMap(changes, PkrConfig.Merged(configs.files[path].allUpdates, from, current));
    var range := RangeKey(from, current);
    RangeKeyNoDot(from, current);
    var size;
    size, bundle := EnsureBundle(disk, ws, range, current, changes, env);
    if size.None? {
      return Err(InternalServerError), merged, bundle;
    }
    return Ok((updates, size.value)), merged, bundle;
  }

  /** The bundle of a range, reused when cached and built otherwise, and
      its size; `None` on any failure. */
  method EnsureBundle(disk: Disk, ws: Path, range: string, current: int, merged: seq<FileTree.FileChange>, env: Env)
    returns (size: Option<int>, ghost bundle: Zip.Archive)
    requires disk.Valid()
    requires '.' !in range
    modifies disk
    ensures disk.Valid()
    ensures FilesAndFolders.ChangesDir(ws) !in old(disk.dirs) ==>
      size.None? && disk.files == old(disk.files) && disk.dirs == old(disk.dirs)
    ensures size.Some? ==> EncFile(ws, range) in disk.files && size.value == |disk.files[EncFile(ws, range)]|
    ensures size.Some? && RangeDir(ws, range) in old(disk.dirs) ==>
      disk.files == old(disk.files) && disk.dirs == old(disk.dirs)
    ensures size.Some? && RangeDir(ws, range) !in old(disk.dirs) ==>
      BundleBuilt(old(disk.files), old(disk.dirs), disk.files, disk.dirs, ws, range, current, merged, bundle, env)
  {
    bundle := [];
    var cached := FilesAndFolders.AreUpdatesCached(disk, ws, range);
    if cached.Err? {
      return None, bundle;
    }
    if !cached.value {
      var ok;
      ok, bundle := BuildBundle(disk, ws, range, current, merged, env);
      if !ok {
        return None, bundle;
      }
    }
    if EncFile(ws, range) !in disk.files {
      return None, bundle;
    }
    return Some(|disk.files[EncFile(ws, range)]|), bundle;
  }

  /** Whether the records of the workspace a decision serves reach its
      current push, which the response's description is read from. */
  predicate CurrentRecorded(d: Decision, configs: map<string, PkrConfig.PKRConfig>)
  {
    !d.Refuse? ==> d.path in configs && d.current < |configs[d.path].allUpdates|
  }

  /** `GetMetaData`: a refused request changes nothing and reports the
      decision's error; a clone is served from `Current/<n>.zip` and its key
      files without writing anything; a pull from the range's bundle, which
      is built on a cache miss. Once the decision is to serve, every failure
      is an internal server error. */
  method GetMetaData(users: UsersConfig.UserConfigFile, configs: PkrConfig.WorkspaceConfigs, disk: Disk, req: MetaDataRequest, env: Env)
    returns (r: Result<MetaData, HandlerError>, ghost merged: seq<FileTree.FileChange>, ghost bundle: Zip.Archive)
    requires disk.Valid()
    requires req.lastPushNum >= -1
    requires CurrentRecorded(Decide(users.file, configs.files, req), configs.files)
    modifies disk
    ensures disk.Valid()
    ensures var d := Decide(users.file, configs.files, req);
      && (d.Refuse? ==> r == Err(d.error) && disk.files == old(disk.files) && disk.dirs == old(disk.dirs))
      && (!d.Refuse? && r.Err? ==> r.error == InternalServerError)
      && (r.Ok? ==>
            && !d.Refuse?
            && r.value.requestPushRange == RequestKey(d)
            && r.value.lastPushNum == d.current
            && r.value.lastPushDesc == configs.files[d.path].allUpdates[d.current].pushDesc)
    ensures var d := Decide(users.file, configs.files, req);
      d.Clone? ==>
        var ws := SplitPath(d.path);
        var keys := SealedKeys(disk.files, CurrentDir(ws), req.username, env);
        && disk.files == old(disk.files) && disk.dirs == old(disk.dirs)
        && (r.Ok? <==> CurrentZip(ws, d.current) in disk.files && keys.Ok?)
        && (r.Ok? ==>
              && r.value.updates.None?
              && r.value.lenData == |disk.files[CurrentZip(ws, d.current)]|
              && (r.value.keyBytes, r.value.ivBytes) == keys.value)
    ensures var d := Decide(users.file, configs.files, req);
      d.Pull? && r.Ok? ==>
        var ws := SplitPath(d.path);
        var range := RangeKey(d.from, d.current);
        var merge := PkrConfig.Merged(configs.files[d.path].allUpdates, d.from, d.current);
        && r.value.updates == Some(KindMap(merge))
        && EncFile(ws, range) in disk.files && r.value.lenData == |disk.files[EncFile(ws, range)]|
        && SealedKeys(disk.files, RangeDir(ws, range), req.username, env) == Ok((r.value.keyBytes, r.value.ivBytes))
        && (RangeDir(ws, range) in old(disk.dirs) ==> disk.files == old(disk.files) && disk.dirs == old(disk.dirs))
        && (RangeDir(ws, range) !in old(disk.dirs) ==>
              && FileTree.Enumerates(merged, merge)
              && BundleBuilt(old(disk.files), old(disk.dirs), disk.files, disk.dirs, ws, range, d.current, merged, bundle, env))
  {
    merged, bundle := [], [];
    ghost var d := Decide(users.file, configs.files, req);
    if req.password.None? {
      return Err(InternalServerError), merged, bundle;
    }
    var auth := users.AuthenticateWorkspaceInfo(req.workspaceName, req.password.value);
    if auth.Err? {
      return Err(IncorrectPassword), merged, bundle;
    }
    UsersConfig.AuthenticatedPathFound(users.file, req.workspaceName, req.password.value);
    var lookup := users.GetSendWorkspaceFilePath(req.workspaceName);
    if lookup.Err? {
      return Err(InternalServerError), merged, bundle;
    }
    var path := lookup.value;
    if path !in configs.files {
      return Err(InternalServerError), merged, bundle;
    }
    var conf := configs.files[path];
    var current := conf.lastPushNum;
    if current == req.lastPushNum {
      return Err(AlreadyLatest), merged, bundle;
    }
    if req.lastPushNum > current {
      return Err(InvalidLastPushNum), merged, bundle;
    }
    var ws := SplitPath(path);
    var requestPushRange := IntToString(current);
    var updates: Option<map<string, string>> := None;
    var lenData: int;
    var keyDir: Path;
    if req.lastPushNum == -1 {
      if CurrentZip(ws, current) !in disk.files {
        return Err(InternalServerError), merged, bundle;
      }
      lenData := |disk.files[CurrentZip(ws, current)]|;
      keyDir := CurrentDir(ws);
    } else {
      var served;
      served, merged, bundle := ServePull(disk, configs, path, req.lastPushNum, current, env);
      if served.Err? {
        return Err(InternalServerError), merged, bundle;
      }
      updates := Some(served.value.0);
      requestPushRange := RangeKey(req.lastPushNum, current);
      lenData := served.value.1;
      keyDir := RangeDir(ws, requestPushRange);
    }
    var keys := SealedKeys(disk.files, keyDir, req.username, env);
    if keys.Err? {
      return Err(InternalServerError), merged, bundle;
    }
    var response := MetaData(requestPushRange, updates, lenData, keys.value.0, keys.value.1, current, conf.allUpdates[current].pushDesc);
    return Ok(response), merged, bundle;
  }
}

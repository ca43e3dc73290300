/** The user registry (config/users-config.go, record shapes from
    config/users-model.go): the workspaces this user shares ("send") and the
    ones it follows ("get"), kept in one JSON file that every operation reads
    afresh and the updating ones write back. */
module UsersConfig {
  import opened Common
  import FileSystem

  datatype SendWorkspaceFolder = SendWorkspaceFolder(workspaceName: string, workspacePath: string, workspacePassword: string)

  datatype GetWorkspaceFolder = GetWorkspaceFolder(
    workspaceOwnerName: string,
    workspaceName: string,
    workspacePassword: string,
    workspacePath: string,
    lastPushNum: int)

  datatype UserConfig = UserConfig(
    username: string,
    password: string,
    serverIP: string,
    serverWSPort: int,
    serverGRPCPort: int,
    sendWorkspaces: seq<SendWorkspaceFolder>,
    getWorkspaces: seq<GetWorkspaceFolder>)

  /** The user-config file: absent, present but not decodable, or holding a config. */
  datatype ConfigFile = Missing | Corrupt | Present(conf: UserConfig)

  datatype ConfigError = ReadFailed | WriteFailed | IncorrectPassword | NoSuchWorkspace | KeysDirFailed | KeyWriteFailed

  /** The text of an error, which callers on the other end of an RPC compare against. */
  function Message(e: ConfigError): (s: string)
    ensures s == "incorrect password" <==> e == IncorrectPassword
    ensures s == "no such workspace found" <==> e == NoSuchWorkspace
  {
    match e
    case ReadFailed => "error while reading the user config"
    case WriteFailed => "error while writing the user config"
    case KeysDirFailed => "error while creating a keys directory"
    case KeyWriteFailed => "error while storing a key of mine"
    case IncorrectPassword => "incorrect password"
    case NoSuchWorkspace => "no such workspace found"
  }

  function SendNamed(name: string): SendWorkspaceFolder -> bool
  {
    (w: SendWorkspaceFolder) => w.workspaceName == name
  }

  function GetNamed(name: string): GetWorkspaceFolder -> bool
  {
    (w: GetWorkspaceFolder) => w.workspaceName == name
  }

  /** The name of a peer's public key file in the directory of others' keys. */
  function PublicKeyPath(othersKeys: Path, username: string): Path
  {
    othersKeys + SplitPath(username + ".pem")
  }

  /** A plain user name gives the key file `<others_keys>/<username>.pem`. */
  lemma PublicKeyPathOfPlainName(othersKeys: Path, username: string)
    requires forall i :: 0 <= i < |username| ==> !IsSeparator(username[i])
    ensures PublicKeyPath(othersKeys, username) == othersKeys + [username + ".pem"]
  {
    var c := username + ".pem";
    assert IsCleanPath([c]);
    assert JoinPath([c]) == c;
    SplitJoin([c]);
  }

  /** `GetPublicKeyUsingUsername`: the bytes of the peer's key file. */
  function GetPublicKeyUsingUsername(files: map<Path, Bytes>, othersKeys: Path, username: string): (r: Result<Bytes, ConfigError>)
    ensures r.Ok? <==> PublicKeyPath(othersKeys, username) in files
    ensures r.Ok? ==> r.value == files[PublicKeyPath(othersKeys, username)]
  {
    var p := PublicKeyPath(othersKeys, username);
    if p in files then Ok(files[p]) else Err(ReadFailed)
  }

  /** The path `GetSendWorkspaceFilePath` finds in a config file. */
  function SendWorkspacePath(f: ConfigFile, name: string): Result<string, ConfigError>
  {
    if !f.Present? then Err(ReadFailed)
    else
      var ws := f.conf.sendWorkspaces;
      match FirstIndex(ws, SendNamed(name))
      case None => Err(NoSuchWorkspace)
      case Some(i) => Ok(ws[i].workspacePath)
  }

  /** The path `GetGetWorkspaceFilePath` finds in a config file. */
  function GetWorkspacePath(f: ConfigFile, name: string): Result<string, ConfigError>
  {
    if !f.Present? then Err(ReadFailed)
    else
      var ws := f.conf.getWorkspaces;
      match FirstIndex(ws, GetNamed(name))
      case None => Err(NoSuchWorkspace)
      case Some(i) => Ok(ws[i].workspacePath)
  }

  /** The config with the push number of the first followed workspace of
      that name set to `n`. */
  function WithLastPushNum(conf: UserConfig, name: string, n: int): UserConfig
  {
    var ws := conf.getWorkspaces;
    conf.(getWorkspaces :=
      match FirstIndex(ws, GetNamed(name))
      case None => ws
      case Some(i) => ws[i := ws[i].(lastPushNum := n)])
  }

  /** The outcome `AuthenticateWorkspaceInfo` reports for a config file. */
  function Authentication(f: ConfigFile, name: string, password: string): Result<string, ConfigError>
  {
    if !f.Present? then Err(ReadFailed)
    else
      var ws := f.conf.sendWorkspaces;
      match FirstIndex(ws, SendNamed(name))
      case None => Err(NoSuchWorkspace)
      case Some(i) => if ws[i].workspacePassword == password then Ok(ws[i].workspacePath) else Err(IncorrectPassword)
  }

  /** A successful authentication and the path lookup agree on the workspace. */
  lemma AuthenticatedPathFound(f: ConfigFile, name: string, password: string)
    ensures Authentication(f, name, password).Ok? ==> SendWorkspacePath(f, name) == Authentication(f, name, password)
  {
  }

  class UserConfigFile {
    var file: ConfigFile

    constructor (file: ConfigFile)
      ensures this.file == file
    {
      this.file := file;
    }

    /** `GetSendWorkspaceFilePath`: the path of the first shared workspace with that name. */
    method GetSendWorkspaceFilePath(name: string) returns (r: Result<string, ConfigError>)
      ensures !file.Present? ==> r == Err(ReadFailed)
      ensures file.Present? ==>
        var ws := file.conf.sendWorkspaces;
        match FirstIndex(ws, SendNamed(name))
        case None => r == Err(NoSuchWorkspace)
        case Some(i) => r == Ok(ws[i].workspacePath)
      ensures r == SendWorkspacePath(file, name)
    {
      if !file.Present? {
        return Err(ReadFailed);
      }
      var ws := file.conf.sendWorkspaces;
      for i := 0 to |ws|
        invariant forall j :: 0 <= j < i ==> ws[j].workspaceName != name
      {
        if ws[i].workspaceName == name {
          return Ok(ws[i].workspacePath);
        }
      }
      return Err(NoSuchWorkspace);
    }

    /** `GetGetWorkspaceFilePath`: the path of the first followed workspace with
        that name, whoever owns it. */
    method GetGetWorkspaceFilePath(name: string) returns (r: Result<string, ConfigError>)
      ensures !file.Present? ==> r == Err(ReadFailed)
      ensures file.Present? ==>
        var ws := file.conf.getWorkspaces;
        match FirstIndex(ws, GetNamed(name))
        case None => r == Err(NoSuchWorkspace)
        case Some(i) => r == Ok(ws[i].workspacePath)
      ensures r == GetWorkspacePath(file, name)
    {
      if !file.Present? {
        return Err(ReadFailed);
      }
      var ws := file.conf.getWorkspaces;
      for i := 0 to |ws|
        invariant forall j :: 0 <= j < i ==> ws[j].workspaceName != name
      {
        if ws[i].workspaceName == name {
          return Ok(ws[i].workspacePath);
        }
      }
      return Err(NoSuchWorkspace);
    }

    /** `AuthenticateWorkspaceInfo`: the first shared workspace with that name
        decides; its password must match. */
    method AuthenticateWorkspaceInfo(name: string, password: string) returns (r: Result<string, ConfigError>)
      ensures !file.Present? ==> r == Err(ReadFailed)
      ensures file.Present? ==>
        var ws := file.conf.sendWorkspaces;
        match FirstIndex(ws, SendNamed(name))
        case None => r == Err(NoSuchWorkspace)
        case Some(i) =>
          r == if ws[i].workspacePassword == password then Ok(ws[i].workspacePath) else Err(IncorrectPassword)
      ensures r == Authentication(file, name, password)
    {
      if !file.Present? {
        return Err(ReadFailed);
      }
      var ws := file.conf.sendWorkspaces;
      for i := 0 to |ws|
        invariant forall j :: 0 <= j < i ==> ws[j].workspaceName != name
      {
        if ws[i].workspaceName == name {
          if ws[i].workspacePassword == password {
            return Ok(ws[i].workspacePath);
          }
          return Err(IncorrectPassword);
        }
      }
      return Err(NoSuchWorkspace);
    }

    /** `UpdateLastPushNumInGetWorkspaceFolderToUserConfig`: sets the push
        number of the first followed workspace with that name, then writes the
        config back, changed or not. */
    method UpdateLastPushNumInGetWorkspaceFolderToUserConfig(name: string, lastPushNum: int, writeOk: bool)
      returns (err: Option<ConfigError>)
      modifies this
      ensures !old(file).Present? ==> err == Some(ReadFailed) && file == old(file)
      ensures old(file).Present? && !writeOk ==> err == Some(WriteFailed) && file == old(file)
      ensures old(file).Present? && writeOk ==>
        err.None? && file == Present(WithLastPushNum(old(file).conf, name, lastPushNum))
    {
      if !file.Present? {
        return Some(ReadFailed);
      }
      var conf := file.conf;
      var ws := conf.getWorkspaces;
      ghost var found := FirstIndex(ws, GetNamed(name));
      for idx := 0 to |conf.getWorkspaces|
        invariant |conf.getWorkspaces| == |ws|
        invariant forall j :: 0 <= j < idx ==> ws[j].workspaceName != name
        invariant conf == file.conf
      {
        if conf.getWorkspaces[idx].workspaceName == name {
          conf := conf.(getWorkspaces := conf.getWorkspaces[idx := conf.getWorkspaces[idx].(lastPushNum := lastPushNum)]);
          break;
        }
      }
      if !writeOk {
        return Some(WriteFailed);
      }
      file := Present(conf);
      return None;
    }

    /** `RegisterNewSendWorkspace`: appends one shared workspace, with no check
        for an existing one of the same name. */
    method RegisterNewSendWorkspace(name: string, path: string, password: string, writeOk: bool)
      returns (err: Option<ConfigError>)
      modifies this
      ensures !old(file).Present? ==> err == Some(ReadFailed) && file == old(file)
      ensures old(file).Present? && !writeOk ==> err == Some(WriteFailed) && file == old(file)
      ensures old(file).Present? && writeOk ==>
        var conf := old(file).conf;
        err.None? &&
        file == Present(conf.(sendWorkspaces := conf.sendWorkspaces + [SendWorkspaceFolder(name, path, password)]))
    {
      if !file.Present? {
        return Some(ReadFailed);
      }
      var conf := file.conf;
      conf := conf.(sendWorkspaces := conf.sendWorkspaces + [SendWorkspaceFolder(name, path, password)]);
      if !writeOk {
        return Some(WriteFailed);
      }
      file := Present(conf);
      return None;
    }

    /** `RegisterNewGetWorkspace`: appends one followed workspace. */
    method RegisterNewGetWorkspace(name: string, owner: string, path: string, password: string, lastPushNum: int, writeOk: bool)
      returns (err: Option<ConfigError>)
      modifies this
      ensures !old(file).Present? ==> err == Some(ReadFailed) && file == old(file)
      ensures old(file).Present? && !writeOk ==> err == Some(WriteFailed) && file == old(file)
      ensures old(file).Present? && writeOk ==>
        var conf := old(file).conf;
        err.None? &&
        file == Present(conf.(getWorkspaces := conf.getWorkspaces + [GetWorkspaceFolder(owner, name, password, path, lastPushNum)]))
    {
      if !file.Present? {
        return Some(ReadFailed);
      }
      var conf := file.conf;
      conf := conf.(getWorkspaces := conf.getWorkspaces + [GetWorkspaceFolder(owner, name, password, path, lastPushNum)]);
      if !writeOk {
        return Some(WriteFailed);
      }
      file := Present(conf);
      return None;
    }

    /** `CreateUserConfigIfNotExists`: an existing file, readable or not, is left
        alone. Otherwise the directories for this user's keys and for
        others' keys are created, a config with no workspaces is written,
        and the freshly generated key pair is stored as `private.pem` and
        `public.pem` in this user's key directory; each step's failure ends
        the call, keeping what the earlier steps did. */
    method CreateUserConfigIfNotExists(disk: FileSystem.Disk, myKeys: Path, othersKeys: Path,
                                       username: string, password: string, serverIP: string, grpcPort: int, wsPort: int,
                                       writeOk: bool, privatePem: Bytes, publicPem: Bytes)
      returns (err: Option<ConfigError>)
      requires disk.Valid()
      modifies this, disk
      ensures disk.Valid()
      ensures old(file) != Missing ==>
        err.None? && file == old(file) && disk.files == old(disk.files) && disk.dirs == old(disk.dirs)
      ensures old(file) == Missing && !FileSystem.NoFileOnPath(old(disk.files), myKeys) ==>
        err == Some(KeysDirFailed) && file == Missing && disk.files == old(disk.files) && disk.dirs == old(disk.dirs)
      ensures old(file) == Missing && FileSystem.NoFileOnPath(old(disk.files), myKeys)
              && !FileSystem.NoFileOnPath(old(disk.files), othersKeys) ==>
        err == Some(KeysDirFailed) && file == Missing && disk.files == old(disk.files)
        && disk.dirs == old(disk.dirs) + FileSystem.Prefixes(myKeys)
      ensures old(file) == Missing && FileSystem.NoFileOnPath(old(disk.files), myKeys)
              && FileSystem.NoFileOnPath(old(disk.files), othersKeys) ==>
        && disk.dirs == old(disk.dirs) + FileSystem.Prefixes(myKeys) + FileSystem.Prefixes(othersKeys)
        && (!writeOk ==> err == Some(WriteFailed) && file == Missing && disk.files == old(disk.files))
        && (writeOk ==>
              var privatePath := myKeys + ["private.pem"];
              var publicPath := myKeys + ["public.pem"];
              && file == Present(UserConfig(username, password, serverIP, wsPort, grpcPort, [], []))
              && (privatePath in disk.dirs ==> err == Some(KeyWriteFailed) && disk.files == old(disk.files))
              && (privatePath !in disk.dirs && publicPath in disk.dirs ==>
                    err == Some(KeyWriteFailed) && disk.files == old(disk.files)[privatePath := privatePem])
              && (privatePath !in disk.dirs && publicPath !in disk.dirs ==>
                    err.None? && disk.files == old(disk.files)[privatePath := privatePem][publicPath := publicPem]))
    {
      if file != Missing {
        return None;
      }
      var ok := disk.MkdirAll(myKeys);
      if !ok {
        return Some(KeysDirFailed);
      }
      ok := disk.MkdirAll(othersKeys);
      if !ok {
        return Some(KeysDirFailed);
      }
      var conf := UserConfig(username, password, serverIP, wsPort, grpcPort, [], []);
      if !writeOk {
        return Some(WriteFailed);
      }
      file := Present(conf);
      assert myKeys in disk.dirs by {
        assert myKeys[..|myKeys|] == myKeys;
      }
      ok := disk.WriteFile(myKeys + ["private.pem"], privatePem);
      if !ok {
        return Some(KeyWriteFailed);
      }
      ok := disk.WriteFile(myKeys + ["public.pem"], publicPem);
      if !ok {
        return Some(KeyWriteFailed);
      }
      return None;
    }
  }

  /** Authentication is decided by the first entry with the name: registering
      another workspace of the same name later changes nothing. */
  lemma AuthenticationIgnoresLaterEntries(ws: seq<SendWorkspaceFolder>, later: seq<SendWorkspaceFolder>, name: string)
    requires exists j :: 0 <= j < |ws| && ws[j].workspaceName == name
    ensures FirstIndex(ws + later, SendNamed(name)) == FirstIndex(ws, SendNamed(name))
  {
    var j :| 0 <= j < |ws| && ws[j].workspaceName == name;
    assert SendNamed(name)(ws[j]);
    FirstIndexIgnoresLater(ws, later, SendNamed(name));
  }
}

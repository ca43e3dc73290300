/** The owner's side of the bulk transfer (handler/share-data.go): a KCP
    session reads a three-part request and streams the requested file back
    in chunks, then waits for the listener's acknowledgement.

    The session is a pair of message queues. Each write the peer makes is
    one message, and a read takes at most the reader's buffer from the
    message at the head, leaving the rest of that message for the next read.
    Writes succeed while a budget of successful writes lasts, which is how
    a broken connection shows up. Reading a regular file through `bufio`
    yields full buffers until the last, shorter one. */
module ShareData {
  import opened Common
  import opened FileSystem
  import UsersConfig
  import FilesAndFolders
  import Aes
  import Handler

  /** The size of the buffer the request and acknowledgement are read into. */
  const MessageBuffer := 512

  const InternalServerErrorMsg := "Internal Server Error"
  const NoSuchPushMsg := "Incorrect Workspace Name/Push Num"
  const NoSuchRangeMsg := "Incorrect Workspace Name/Push Num Range"
  const InvalidRequestTypeMsg := "Invalid Data Request Type Sent"
  const DataReceivedMsg := "Data Received"

  /** All bytes of a sequence of messages, in order. */
  function Concat(ms: seq<Bytes>): (b: Bytes)
  {
    if ms == [] then [] else ms[0] + Concat(ms[1..])
  }

  lemma {:induction false} ConcatAppend(a: seq<Bytes>, b: seq<Bytes>)
    ensures Concat(a + b) == Concat(a) + Concat(b)
  {
    if a == [] {
      assert a + b == b;
    } else {
      assert (a + b)[1..] == a[1..] + b;
      ConcatAppend(a[1..], b);
    }
  }

  // ---------------------------------------------------------------------
  // The session
  // ---------------------------------------------------------------------

  /** One read of at most `cap` bytes: the message at the head, or its first
      `cap` bytes with the rest left at the head. */
  function ReadMsg(incoming: seq<Bytes>, cap: nat): (r: Option<(Bytes, seq<Bytes>)>)
    requires cap > 0
    ensures r.None? <==> incoming == []
    ensures r.Some? ==> |r.value.0| <= cap
  {
    if incoming == [] then None
    else if |incoming[0]| <= cap then Some((incoming[0], incoming[1..]))
    else Some((incoming[0][..cap], [incoming[0][cap..]] + incoming[1..]))
  }

  /** A read loses no byte and reorders nothing: what it returns followed by
      what is left is what was there. */
  lemma ReadKeepsStream(incoming: seq<Bytes>, cap: nat)
    requires cap > 0 && incoming != []
    ensures ReadMsg(incoming, cap).value.0 + Concat(ReadMsg(incoming, cap).value.1) == Concat(incoming)
  {
    var m := incoming[0];
    if |m| > cap {
      var rest := [m[cap..]] + incoming[1..];
      assert rest[1..] == incoming[1..];
      assert m[..cap] + m[cap..] == m;
    }
  }

  /** A read returns a whole message exactly when it fits the buffer. */
  lemma ReadWholeIffFits(incoming: seq<Bytes>, cap: nat)
    requires cap > 0 && incoming != []
    ensures ReadMsg(incoming, cap).value.0 == incoming[0] <==> |incoming[0]| <= cap
  {
    if |incoming[0]| > cap {
      assert |ReadMsg(incoming, cap).value.0| == cap < |incoming[0]|;
    }
  }

  class Session {
    /** The messages the peer has written and this side has not read. */
    var incoming: seq<Bytes>
    /** The messages this side has written, in order. */
    var sent: seq<Bytes>
    /** How many more writes succeed. */
    var writable: nat

    constructor (incoming: seq<Bytes>, writable: nat)
      ensures this.incoming == incoming && sent == [] && this.writable == writable
    {
      this.incoming := incoming;
      sent := [];
      this.writable := writable;
    }

    /** `Read` into a buffer of `cap` bytes; a closed session has nothing. */
    method Read(cap: nat) returns (r: Option<Bytes>)
      requires cap > 0
      modifies this
      ensures sent == old(sent) && writable == old(writable)
      ensures var m := ReadMsg(old(incoming), cap);
        && (m.None? ==> r.None? && incoming == old(incoming))
        && (m.Some? ==> r == Some(m.value.0) && incoming == m.value.1)
    {
      if incoming == [] {
        return None;
      }
      var m := ReadMsg(incoming, cap).value;
      incoming := m.1;
      return Some(m.0);
    }

    /** `Write`: one message, while the connection holds. */
    method Write(data: Bytes) returns (ok: bool)
      modifies this
      ensures incoming == old(incoming)
      ensures ok <==> old(writable) > 0
      ensures ok ==> sent == old(sent) + [data] && writable == old(writable) - 1
      ensures !ok ==> sent == old(sent) && writable == old(writable)
    {
      if writable == 0 {
        return false;
      }
      sent := sent + [data];
      writable := writable - 1;
      return true;
    }
  }

  /** What a marker costs the session: it is sent if a write still succeeds. */
  ghost predicate Replied(oldSent: seq<Bytes>, oldWritable: nat, sent: seq<Bytes>, msg: string)
  {
    sent == oldSent + (if oldWritable > 0 then [Wire(msg)] else [])
  }

  /** `sendErrorMessage`: a write whose failure is only logged. */
  method SendErrorMessage(session: Session, msg: string)
    modifies session
    ensures session.incoming == old(session.incoming)
    ensures Replied(old(session.sent), old(session.writable), session.sent, msg)
    ensures session.writable == if old(session.writable) > 0 then old(session.writable) - 1 else 0
  {
    var ok := session.Write(Wire(msg));
  }

  // ---------------------------------------------------------------------
  // The file as chunks
  // ---------------------------------------------------------------------

  /** The successive reads of `data` through a buffer of `cap` bytes. */
  function Chunks(data: Bytes, cap: nat): (r: seq<Bytes>)
    requires cap > 0
    decreases |data|
  {
    if |data| == 0 then []
    else if |data| <= cap then [data]
    else [data[..cap]] + Chunks(data[cap..], cap)
  }

  /** The chunks are non-empty, at most `cap` long, all but the last exactly
      `cap` long, and together they are the data. */
  lemma {:induction false} ChunksCover(data: Bytes, cap: nat)
    requires cap > 0
    ensures Concat(Chunks(data, cap)) == data
    ensures forall i :: 0 <= i < |Chunks(data, cap)| ==> 0 < |Chunks(data, cap)[i]| <= cap
    ensures forall i :: 0 <= i < |Chunks(data, cap)| - 1 ==> |Chunks(data, cap)[i]| == cap
    decreases |data|
  {
    if |data| > cap {
      ChunksCover(data[cap..], cap);
      var cs := Chunks(data, cap);
      assert cs[1..] == Chunks(data[cap..], cap);
      assert data[..cap] + data[cap..] == data;
    }
  }

  /** The clone stream: every chunk transformed separately, the keystream
      restarting at the IV. */
  function EncryptedChunks(data: Bytes, key: Bytes, iv: Bytes, ks: Aes.Keystream): (r: seq<Bytes>)
    decreases |data|
  {
    if |data| == 0 then []
    else if |data| <= Aes.DataChunk then [Aes.Xor(data, key, iv, ks)]
    else [Aes.Xor(data[..Aes.DataChunk], key, iv, ks)] + EncryptedChunks(data[Aes.DataChunk..], key, iv, ks)
  }

  /** The clone stream, read back to back, is the file as
      `EncryptZipFileAndStore` would have encrypted it. */
  lemma {:induction false} ClonedStreamIsChunked(data: Bytes, key: Bytes, iv: Bytes, ks: Aes.Keystream)
    ensures Concat(EncryptedChunks(data, key, iv, ks)) == Aes.Chunked(data, key, iv, ks)
    decreases |data|
  {
    if |data| > Aes.DataChunk {
      ClonedStreamIsChunked(data[Aes.DataChunk..], key, iv, ks);
      assert EncryptedChunks(data, key, iv, ks)[1..] == EncryptedChunks(data[Aes.DataChunk..], key, iv, ks);
    } else if |data| > 0 {
      assert Concat([Aes.Xor(data, key, iv, ks)]) == Aes.Xor(data, key, iv, ks) + Concat([]);
    }
  }

  lemma PlainStep(content: Bytes, offset: nat)
    requires offset < |content|
    ensures var n := if |content| - offset < Aes.DataChunk then |content| - offset else Aes.DataChunk;
      Chunks(content[offset..], Aes.DataChunk) == [content[offset..offset + n]] + Chunks(content[offset + n..], Aes.DataChunk)
  {
    var rest := content[offset..];
    var n := if |content| - offset < Aes.DataChunk then |content| - offset else Aes.DataChunk;
    assert rest[..n] == content[offset..offset + n];
    assert rest[n..] == content[offset + n..];
    if |rest| <= Aes.DataChunk {
      assert rest[..n] == rest;
      assert content[offset + n..] == [];
    }
  }

  lemma EncryptedStep(content: Bytes, offset: nat, key: Bytes, iv: Bytes, ks: Aes.Keystream)
    requires offset < |content|
    ensures var n := if |content| - offset < Aes.DataChunk then |content| - offset else Aes.DataChunk;
      EncryptedChunks(content[offset..], key, iv, ks) ==
        [Aes.Xor(content[offset..offset + n], key, iv, ks)] + EncryptedChunks(content[offset + n..], key, iv, ks)
  {
    var rest := content[offset..];
    var n := if |content| - offset < Aes.DataChunk then |content| - offset else Aes.DataChunk;
    assert rest[..n] == content[offset..offset + n];
    assert rest[n..] == content[offset + n..];
    if |rest| <= Aes.DataChunk {
      assert rest[..n] == rest;
      assert content[offset + n..] == [];
    }
  }

  /** The chunks still to send start with `x`: `x` is the next one. */
  lemma NextChunk(chunks: seq<Bytes>, i: nat, x: Bytes, later: seq<Bytes>)
    requires i <= |chunks| && chunks[i..] == [x] + later
    ensures i < |chunks| && chunks[i] == x && chunks[i + 1..] == later
    ensures chunks[..i + 1] == chunks[..i] + [x]
  {
    assert chunks[i..][0] == x;
    assert chunks[i..][1..] == later;
  }

  lemma SentOneMore(before: seq<Bytes>, done: seq<Bytes>, x: Bytes)
    ensures (before + done) + [x] == before + (done + [x])
  {
  }

  // ---------------------------------------------------------------------
  // The send loops
  // ---------------------------------------------------------------------

  /** The pull loop: the file's chunks written unchanged. A failed write is
      followed by an attempt to send the internal-error marker, and stops. */
  method SendPlain(session: Session, content: Bytes) returns (done: bool)
    modifies session
    ensures session.incoming == old(session.incoming)
    ensures var chunks := Chunks(content, Aes.DataChunk);
      && (done <==> old(session.writable) >= |chunks|)
      && (done ==> session.sent == old(session.sent) + chunks && session.writable == old(session.writable) - |chunks|)
      && (!done ==> session.sent == old(session.sent) + chunks[..old(session.writable)] && session.writable == 0)
  {
    ghost var chunks := Chunks(content, Aes.DataChunk);
    ghost var i := 0;
    var offset := 0;
    assert content[0..] == content;
    while offset < |content|
      invariant 0 <= offset <= |content| && 0 <= i <= |chunks|
      invariant chunks[i..] == Chunks(content[offset..], Aes.DataChunk)
      invariant session.sent == old(session.sent) + chunks[..i]
      invariant session.writable == old(session.writable) - i
      invariant session.incoming == old(session.incoming)
      decreases |content| - offset
    {
      var n := if |content| - offset < Aes.DataChunk then |content| - offset else Aes.DataChunk;
      PlainStep(content, offset);
      NextChunk(chunks, i, content[offset..offset + n], Chunks(content[offset + n..], Aes.DataChunk));
      var ok := session.Write(content[offset..offset + n]);
      if !ok {
        SendErrorMessage(session, InternalServerErrorMsg);
        return false;
      }
      SentOneMore(old(session.sent), chunks[..i], chunks[i]);
      i := i + 1;
      offset := offset + n;
    }
    assert content[offset..] == [];
    assert chunks[..i] == chunks;
    return true;
  }

  datatype CloneSend = Streamed | WriteFailed | EncryptFailed

  /** One turn of the clone loop: encrypt the chunk, then write it; a failed
      write is followed by an attempt to send the internal-error marker. */
  method SendEncryptedChunk(session: Session, chunk: Bytes, key: Bytes, iv: Bytes, ks: Aes.Keystream) returns (r: CloneSend)
    requires |iv| == Aes.BlockSize
    modifies session
    ensures session.incoming == old(session.incoming)
    ensures !Aes.ValidKeyLength(key) ==>
      r == EncryptFailed && session.sent == old(session.sent) && session.writable == old(session.writable)
    ensures Aes.ValidKeyLength(key) && old(session.writable) > 0 ==>
      r == Streamed && session.sent == old(session.sent) + [Aes.Xor(chunk, key, iv, ks)] && session.writable == old(session.writable) - 1
    ensures Aes.ValidKeyLength(key) && old(session.writable) == 0 ==>
      r == WriteFailed && session.sent == old(session.sent) && session.writable == 0
  {
    var encrypted := Aes.EncryptDecryptChunk(chunk, key, iv, ks);
    if encrypted.Err? {
      return EncryptFailed;
    }
    var ok := session.Write(encrypted.value);
    if !ok {
      SendErrorMessage(session, InternalServerErrorMsg);
      return WriteFailed;
    }
    return Streamed;
  }

  /** The clone loop: each chunk encrypted on its own and written. The
      buffer is replaced by the encrypted chunk, so the next read is capped
      at that chunk's length; only the last chunk is short, so the cap stays
      1024 for as long as there is anything left. A key of the wrong size
      stops the loop at the first chunk, without a marker. */
  method SendEncrypted(session: Session, content: Bytes, key: Bytes, iv: Bytes, ks: Aes.Keystream) returns (r: CloneSend)
    requires |iv| == Aes.BlockSize
    modifies session
    ensures session.incoming == old(session.incoming)
    ensures !Aes.ValidKeyLength(key) && |content| > 0 ==>
      r == EncryptFailed && session.sent == old(session.sent) && session.writable == old(session.writable)
    ensures Aes.ValidKeyLength(key) || |content| == 0 ==>
      var chunks := EncryptedChunks(content, key, iv, ks);
      && (r == Streamed <==> old(session.writable) >= |chunks|)
      && (r == Streamed ==> session.sent == old(session.sent) + chunks && session.writable == old(session.writable) - |chunks|)
      && (r != Streamed ==> r == WriteFailed && session.sent == old(session.sent) + chunks[..old(session.writable)] && session.writable == 0)
  {
    ghost var chunks := EncryptedChunks(content, key, iv, ks);
    ghost var i := 0;
    var cap := Aes.DataChunk;
    var offset := 0;
    assert content[0..] == content;
    while offset < |content|
      invariant 0 <= offset <= |content| && 0 <= i <= |chunks|
      invariant offset < |content| ==> cap == Aes.DataChunk
      invariant offset > 0 ==> Aes.ValidKeyLength(key)
      invariant chunks[i..] == EncryptedChunks(content[offset..], key, iv, ks)
      invariant session.sent == old(session.sent) + chunks[..i]
      invariant session.writable == old(session.writable) - i
      invariant session.incoming == old(session.incoming)
      decreases |content| - offset
    {
      var n := if |content| - offset < cap then |content| - offset else cap;
      EncryptedStep(content, offset, key, iv, ks);
      NextChunk(chunks, i, Aes.Xor(content[offset..offset + n], key, iv, ks), EncryptedChunks(content[offset + n..], key, iv, ks));
      r := SendEncryptedChunk(session, content[offset..offset + n], key, iv, ks);
      if r != Streamed {
        return;
      }
      SentOneMore(old(session.sent), chunks[..i], chunks[i]);
      i := i + 1;
      offset := offset + n;
      cap := n;
    }
    assert content[offset..] == [];
    assert chunks[..i] == chunks;
    return Streamed;
  }

  // ---------------------------------------------------------------------
  // GetDataHandler
  // ---------------------------------------------------------------------

  /** How a transfer session ends. `Served` carries whether the read after
      the last chunk was exactly "Data Received"; the handler returns either
      way. */
  datatype Outcome =
    | RequestIncomplete
    | Refused(message: string)
    | Abandoned
    | SendFailed
    | Served(acknowledged: bool)
    | AckMissing

  /** The three parts of a request: workspace name, push number or range,
      and mode, with what is left in the session after them. */
  datatype Request = Request(name: Bytes, push: Bytes, mode: Bytes, rest: seq<Bytes>)

  /** The request as three consecutive reads of at most 512 bytes. */
  function ParseRequest(incoming: seq<Bytes>): Option<Request>
  {
    match ReadMsg(incoming, MessageBuffer)
    case None => None
    case Some((name, r1)) =>
      match ReadMsg(r1, MessageBuffer)
      case None => None
      case Some((push, r2)) =>
        match ReadMsg(r2, MessageBuffer)
        case None => None
        case Some((mode, r3)) => Some(Request(name, push, mode, r3))
  }

  /** The three messages a listener writes are recovered one by one when each
      fits the buffer. */
  lemma ParseRequestRoundTrip(name: Bytes, push: Bytes, mode: Bytes, later: seq<Bytes>)
    requires |name| <= MessageBuffer && |push| <= MessageBuffer && |mode| <= MessageBuffer
    ensures ParseRequest([name, push, mode] + later) == Some(Request(name, push, mode, later))
  {
    var s := [name, push, mode] + later;
    assert s[1..] == [push, mode] + later;
    assert s[1..][1..] == [mode] + later;
    assert s[1..][1..][1..] == later;
  }

  /** The full-state archive a clone of push `push` is served from. */
  function ClonePath(ws: Path, push: string): Path
  {
    Handler.CurrentDir(ws) + SplitPath(push + ".zip")
  }

  /** The encrypted bundle a pull of range `push` is served from. */
  function PullPath(ws: Path, push: string): Path
  {
    FilesAndFolders.ChangesDir(ws) + SplitPath(push) + SplitPath(push + ".enc")
  }

  /** The IV a clone of `ws` is encrypted with is one block long, as
      `cipher.NewCTR` demands. */
  ghost predicate CloneIvIsBlock(files: map<Path, Bytes>, ws: Path)
  {
    Handler.CurrentDir(ws) + ["AES_IV"] in files ==> |files[Handler.CurrentDir(ws) + ["AES_IV"]]| == Aes.BlockSize
  }

  /** Every workspace's clone IV is one block long. */
  ghost predicate CloneIvsAreBlocks(files: map<Path, Bytes>)
  {
    forall ws :: CloneIvIsBlock(files, ws)
  }

  /** The end of a transfer: one more read, compared with "Data Received". */
  method AwaitAck(session: Session) returns (o: Outcome)
    modifies session
    ensures session.sent == old(session.sent) && session.writable == old(session.writable)
    ensures var m := ReadMsg(old(session.incoming), MessageBuffer);
      && (m.None? ==> o == AckMissing)
      && (m.Some? ==> o == Served(FromBytes(m.value.0) == DataReceivedMsg))
  {
    var ack := session.Read(MessageBuffer);
    if ack.None? {
      return AckMissing;
    }
    return Served(FromBytes(ack.value) == DataReceivedMsg);
  }

  /** `handleClone`: reads the key and IV of the current archive (a missing
      one ends the session without a word), then streams the archive
      encrypted chunk by chunk. A directory in place of the archive cannot
      be read and gets the internal-error marker. */
  method HandleClone(session: Session, files: map<Path, Bytes>, dirs: set<Path>, zipPath: Path, ws: Path, ks: Aes.Keystream)
    returns (o: Outcome)
    requires CloneIvIsBlock(files, ws)
    requires zipPath in files || zipPath in dirs
    modifies session
    ensures var keyPath := Handler.CurrentDir(ws) + ["AES_KEY"];
      var ivPath := Handler.CurrentDir(ws) + ["AES_IV"];
      && (keyPath !in files || ivPath !in files ==>
            o == Abandoned && session.sent == old(session.sent) && session.incoming == old(session.incoming))
      && (keyPath in files && ivPath in files && zipPath !in files ==>
            o == Refused(InternalServerErrorMsg)
            && Replied(old(session.sent), old(session.writable), session.sent, InternalServerErrorMsg))
      && (keyPath in files && ivPath in files && zipPath in files ==>
            var content := files[zipPath];
            var chunks := EncryptedChunks(content, files[keyPath], files[ivPath], ks);
            && (!Aes.ValidKeyLength(files[keyPath]) && |content| > 0 ==> o == Abandoned && session.sent == old(session.sent))
            && (Aes.ValidKeyLength(files[keyPath]) || |content| == 0 ==>
                  && (old(session.writable) >= |chunks| ==>
                        && session.sent == old(session.sent) + chunks
                        && var m := ReadMsg(old(session.incoming), MessageBuffer);
                           (m.None? ==> o == AckMissing) && (m.Some? ==> o == Served(FromBytes(m.value.0) == DataReceivedMsg)))
                  && (old(session.writable) < |chunks| ==> o == SendFailed)))
  {
    var keyPath := Handler.CurrentDir(ws) + ["AES_KEY"];
    var ivPath := Handler.CurrentDir(ws) + ["AES_IV"];
    if keyPath !in files || ivPath !in files {
      return Abandoned;
    }
    if zipPath !in files {
      SendErrorMessage(session, InternalServerErrorMsg);
      return Refused(InternalServerErrorMsg);
    }
    assert ivPath[|ivPath| - 1] == "AES_IV";
    var r := SendEncrypted(session, files[zipPath], files[keyPath], files[ivPath], ks);
    if r == EncryptFailed {
      return Abandoned;
    }
    if r == WriteFailed {
      return SendFailed;
    }
    o := AwaitAck(session);
  }

  /** The pull branch: the bundle of the range streamed unchanged. */
  method HandlePull(session: Session, files: map<Path, Bytes>, dirs: set<Path>, encPath: Path) returns (o: Outcome)
    modifies session
    ensures encPath !in files && encPath !in dirs ==>
      o == Refused(NoSuchRangeMsg) && Replied(old(session.sent), old(session.writable), session.sent, NoSuchRangeMsg)
    ensures encPath in dirs && encPath !in files ==>
      o == Refused(InternalServerErrorMsg) && Replied(old(session.sent), old(session.writable), session.sent, InternalServerErrorMsg)
    ensures encPath in files ==>
      var chunks := Chunks(files[encPath], Aes.DataChunk);
      && (old(session.writable) >= |chunks| ==>
            && session.sent == old(session.sent) + chunks
            && var m := ReadMsg(old(session.incoming), MessageBuffer);
               (m.None? ==> o == AckMissing) && (m.Some? ==> o == Served(FromBytes(m.value.0) == DataReceivedMsg)))
      && (old(session.writable) < |chunks| ==> o == SendFailed)
  {
    if encPath !in files && encPath !in dirs {
      SendErrorMessage(session, NoSuchRangeMsg);
      return Refused(NoSuchRangeMsg);
    }
    if encPath !in files {
      SendErrorMessage(session, InternalServerErrorMsg);
      return Refused(InternalServerErrorMsg);
    }
    var done := SendPlain(session, files[encPath]);
    if !done {
      return SendFailed;
    }
    o := AwaitAck(session);
  }

  /** The workspace a parsed request names, as a path on disk. */
  function RequestedWorkspace(file: UsersConfig.ConfigFile, req: Request): Result<Path, UsersConfig.ConfigError>
  {
    match UsersConfig.SendWorkspacePath(file, FromBytes(req.name))
    case Err(e) => Err(e)
    case Ok(p) => Ok(SplitPath(p))
  }

  /** The three reads of the request. */
  method ReadRequest(session: Session) returns (req: Option<Request>)
    modifies session
    ensures session.sent == old(session.sent) && session.writable == old(session.writable)
    ensures req == ParseRequest(old(session.incoming))
    ensures req.Some? ==> session.incoming == req.value.rest
  {
    var name := session.Read(MessageBuffer);
    if name.None? {
      return None;
    }
    var push := session.Read(MessageBuffer);
    if push.None? {
      return None;
    }
    var mode := session.Read(MessageBuffer);
    if mode.None? {
      return None;
    }
    return Some(Request(name.value, push.value, mode.value, session.incoming));
  }

  /** The acknowledgement read after a complete stream. */
  function AckOutcome(rest: seq<Bytes>): Outcome
  {
    match ReadMsg(rest, MessageBuffer)
    case None => AckMissing
    case Some((m, _)) => Served(FromBytes(m) == DataReceivedMsg)
  }

  /** How a parsed request is answered, given the files of the owner. */
  ghost predicate Dispatched(file: UsersConfig.ConfigFile, files: map<Path, Bytes>, dirs: set<Path>, req: Request,
                             oldSent: seq<Bytes>, oldWritable: nat, sent: seq<Bytes>, o: Outcome, ks: Aes.Keystream)
  {
    var ws := RequestedWorkspace(file, req);
    var mode := FromBytes(req.mode);
    var push := FromBytes(req.push);
    && (ws.Err? ==> o == Refused(InternalServerErrorMsg) && Replied(oldSent, oldWritable, sent, InternalServerErrorMsg))
    && (ws.Ok? && mode == "Clone" ==> CloneAnswered(files, dirs, ws.value, push, req.rest, oldSent, oldWritable, sent, o, ks))
    && (ws.Ok? && mode != "Clone" && mode != "Pull" ==>
          o == Refused(InvalidRequestTypeMsg) && Replied(oldSent, oldWritable, sent, InvalidRequestTypeMsg))
    && (ws.Ok? && mode == "Pull" ==> PullAnswered(files, dirs, ws.value, push, req.rest, oldSent, oldWritable, sent, o))
  }

  /** How a "Clone" request for workspace `ws` is answered. */
  ghost predicate CloneAnswered(files: map<Path, Bytes>, dirs: set<Path>, ws: Path, push: string, rest: seq<Bytes>,
                                oldSent: seq<Bytes>, oldWritable: nat, sent: seq<Bytes>, o: Outcome, ks: Aes.Keystream)
  {
    var zip := ClonePath(ws, push);
    var keyPath := Handler.CurrentDir(ws) + ["AES_KEY"];
    var ivPath := Handler.CurrentDir(ws) + ["AES_IV"];
    && (zip !in files && zip !in dirs ==> o == Refused(NoSuchPushMsg) && Replied(oldSent, oldWritable, sent, NoSuchPushMsg))
    && ((zip in files || zip in dirs) && (keyPath !in files || ivPath !in files) ==> o == Abandoned && sent == oldSent)
    && (zip in dirs && zip !in files && keyPath in files && ivPath in files ==>
          o == Refused(InternalServerErrorMsg) && Replied(oldSent, oldWritable, sent, InternalServerErrorMsg))
    && (zip in files && keyPath in files && ivPath in files ==>
          var content := files[zip];
          var chunks := EncryptedChunks(content, files[keyPath], files[ivPath], ks);
          && (!Aes.ValidKeyLength(files[keyPath]) && |content| > 0 ==> o == Abandoned && sent == oldSent)
          && (Aes.ValidKeyLength(files[keyPath]) || |content| == 0 ==>
                && (oldWritable >= |chunks| ==> sent == oldSent + chunks && o == AckOutcome(rest))
                && (oldWritable < |chunks| ==> o == SendFailed)))
  }

  /** How a "Pull" request for workspace `ws` is answered. */
  ghost predicate PullAnswered(files: map<Path, Bytes>, dirs: set<Path>, ws: Path, push: string, rest: seq<Bytes>,
                               oldSent: seq<Bytes>, oldWritable: nat, sent: seq<Bytes>, o: Outcome)
  {
    var enc := PullPath(ws, push);
    && (enc !in files && enc !in dirs ==> o == Refused(NoSuchRangeMsg) && Replied(oldSent, oldWritable, sent, NoSuchRangeMsg))
    && (enc in dirs && enc !in files ==>
          o == Refused(InternalServerErrorMsg) && Replied(oldSent, oldWritable, sent, InternalServerErrorMsg))
    && (enc in files ==>
          var chunks := Chunks(files[enc], Aes.DataChunk);
          && (oldWritable >= |chunks| ==> sent == oldSent + chunks && o == AckOutcome(rest))
          && (oldWritable < |chunks| ==> o == SendFailed))
  }

  /** The answer to a parsed request, the session positioned after it. */
  method Dispatch(users: UsersConfig.UserConfigFile, files: map<Path, Bytes>, dirs: set<Path>, session: Session,
                  req: Request, ks: Aes.Keystream) returns (o: Outcome)
    requires CloneIvsAreBlocks(files)
    requires session.incoming == req.rest
    modifies session
    ensures Dispatched(users.file, files, dirs, req, old(session.sent), old(session.writable), session.sent, o, ks)
  {
    var lookup := users.GetSendWorkspaceFilePath(FromBytes(req.name));
    if lookup.Err? {
      SendErrorMessage(session, InternalServerErrorMsg);
      return Refused(InternalServerErrorMsg);
    }
    var ws := SplitPath(lookup.value);
    var push := FromBytes(req.push);
    if FromBytes(req.mode) == "Clone" {
      var zipPath := ClonePath(ws, push);
      if zipPath !in files && zipPath !in dirs {
        SendErrorMessage(session, NoSuchPushMsg);
        return Refused(NoSuchPushMsg);
      }
      o := HandleClone(session, files, dirs, zipPath, ws, ks);
      assert CloneAnswered(files, dirs, ws, push, req.rest, old(session.sent), old(session.writable), session.sent, o, ks);
      return;
    } else if FromBytes(req.mode) != "Pull" {
      SendErrorMessage(session, InvalidRequestTypeMsg);
      return Refused(InvalidRequestTypeMsg);
    }
    o := HandlePull(session, files, dirs, PullPath(ws, push));
    assert PullAnswered(files, dirs, ws, push, req.rest, old(session.sent), old(session.writable), session.sent, o);
  }

  /** `GetDataHandler`: the request is read first, and a session that closes
      before all three parts arrived ends without a reply. An unknown
      workspace gets the internal-error marker; mode "Clone" is served from
      the current archive, a missing one getting "Incorrect Workspace
      Name/Push Num"; a mode other than "Clone" and "Pull" gets "Invalid
      Data Request Type Sent"; mode "Pull" is served from the range's
      bundle, a missing one getting "Incorrect Workspace Name/Push Num
      Range". A directory in place of the archive or the bundle gets the
      internal-error marker, and a clone whose key has an invalid length
      ends without a word once there is content to encrypt. */
  method GetDataHandler(users: UsersConfig.UserConfigFile, disk: Disk, session: Session, ks: Aes.Keystream)
    returns (o: Outcome)
    requires CloneIvsAreBlocks(disk.files)
    modifies session
    ensures var req := ParseRequest(old(session.incoming));
      && (req.None? ==> o == RequestIncomplete && session.sent == old(session.sent))
      && (req.Some? ==>
            Dispatched(users.file, disk.files, disk.dirs, req.value, old(session.sent), old(session.writable), session.sent, o, ks))
  {
    var req := ReadRequest(session);
    if req.None? {
      return RequestIncomplete;
    }
    o := Dispatch(users, disk.files, disk.dirs, session, req.value, ks);
  }

  /** What a pull listener receives, read back to back, is the bundle. */
  lemma PullStreamIsFile(content: Bytes)
    ensures Concat(Chunks(content, Aes.DataChunk)) == content
  {
    ChunksCover(content, Aes.DataChunk);
  }
}

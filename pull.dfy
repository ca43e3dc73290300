/** The listener's pull (ws/pull.go): ask the server to have the owner
    punch back, punch towards the owner, ask the owner over RPC what is new,
    fetch the encrypted bundle over a plain KCP session, decrypt it chunk by
    chunk into a zip file, unpack it and apply the changes, then move the
    local bookmark.

    STUN, the private-address lookup, the websocket to the server, RSA,
    the zip decoder, the AES keystream and the owner's RPC answer are
    parameters; the two KCP sessions are `ShareData.Session`s and the UDP
    socket is a `NatPunching.UdpSocket`. */
module Pull {
  import opened Common
  import opened FileSystem
  import UsersConfig
  import FilesAndFolders
  import FileTree
  import Zip
  import Aes
  import Handler
  import ShareData
  import NatPunching
  import NotifyPunch

  // ---------------------------------------------------------------------
  // Waiting for the owner's addresses
  // ---------------------------------------------------------------------

  /** How many times the pending-response table is checked, 5 s apart. */
  const MaxChecks := 7

  const NotRespondingMsg := "workspace owner isn't responding"

  /** The server's answer to a punch request: an error text, or the owner's
      public and private addresses. */
  datatype PunchResponse = PunchResponse(
    error: string,
    ownerPublicIp: string,
    ownerPublicPort: string,
    ownerPrivateIp: string,
    ownerPrivatePort: string)

  /** The responses the websocket reader has stored, by owner. */
  class ResponseTable {
    var entries: map<string, PunchResponse>

    constructor (entries: map<string, PunchResponse>)
      ensures this.entries == entries
    {
      this.entries := entries;
    }
  }

  /** What check `k` finds for the owner, when no earlier check found
      anything: what arrived during the sleep before it, or at the first
      check an entry that was already there. */
  function Check(initial: Option<PunchResponse>, arrivals: seq<Option<PunchResponse>>, k: nat): Option<PunchResponse>
  {
    if k < |arrivals| && arrivals[k].Some? then arrivals[k]
    else if k == 0 then initial
    else None
  }

  /** The first of checks `k .. MaxChecks - 1` that finds a response. */
  function PollFrom(initial: Option<PunchResponse>, arrivals: seq<Option<PunchResponse>>, k: nat): Option<PunchResponse>
    decreases MaxChecks - k
  {
    if k >= MaxChecks then None
    else if Check(initial, arrivals, k).Some? then Check(initial, arrivals, k)
    else PollFrom(initial, arrivals, k + 1)
  }

  /** The outcome of the polling loop. */
  function Poll(initial: Option<PunchResponse>, arrivals: seq<Option<PunchResponse>>): Option<PunchResponse>
  {
    PollFrom(initial, arrivals, 0)
  }

  /** A response is found exactly when one of the seven checks sees one,
      and then it is what the first such check sees. */
  lemma {:induction false} PollFromFinds(initial: Option<PunchResponse>, arrivals: seq<Option<PunchResponse>>, k: nat)
    ensures PollFrom(initial, arrivals, k).Some? <==>
      exists j :: k <= j < MaxChecks && Check(initial, arrivals, j).Some?
    ensures PollFrom(initial, arrivals, k).Some? ==>
      exists j :: k <= j < MaxChecks && Check(initial, arrivals, j) == PollFrom(initial, arrivals, k)
        && forall i :: k <= i < j ==> Check(initial, arrivals, i).None?
    decreases MaxChecks - k
  {
    if k < MaxChecks && Check(initial, arrivals, k).None? {
      PollFromFinds(initial, arrivals, k + 1);
    }
  }

  /** A response that arrives after the seventh check is never seen. */
  lemma LateResponseMissed(arrivals: seq<Option<PunchResponse>>)
    requires forall k :: 0 <= k < MaxChecks && k < |arrivals| ==> arrivals[k].None?
    ensures Poll(None, arrivals).None?
  {
    PollFromFinds(None, arrivals, 0);
  }

  /** The polling loop of `connectToAnotherUser`. The websocket reader
      stores `arrivals[k]` during the sleep before check `k`; a found entry
      is deleted, and after the check numbered 6 the loop gives up. */
  method AwaitPunchResponse(table: ResponseTable, owner: string, arrivals: seq<Option<PunchResponse>>)
    returns (r: Option<PunchResponse>, checks: nat)
    modifies table
    ensures var initial := if owner in old(table.entries) then Some(old(table.entries)[owner]) else None;
      r == Poll(initial, arrivals)
    ensures 1 <= checks <= MaxChecks
    ensures r.None? ==> checks == MaxChecks && table.entries == old(table.entries)
    ensures r.Some? ==> table.entries == old(table.entries) - {owner}
  {
    ghost var initial := if owner in table.entries then Some(table.entries[owner]) else None;
    var count := 0;
    while true
      invariant 0 <= count < MaxChecks
      invariant Poll(initial, arrivals) == PollFrom(initial, arrivals, count)
      invariant count == 0 ==> table.entries == old(table.entries)
      invariant count > 0 ==> owner !in table.entries && table.entries == old(table.entries)
      decreases MaxChecks - count
    {
      if count < |arrivals| && arrivals[count].Some? {
        table.entries := table.entries[owner := arrivals[count].value];
      }
      if owner in table.entries {
        r := Some(table.entries[owner]);
        table.entries := table.entries - {owner};
        return r, count + 1;
      }
      if count == MaxChecks - 1 {
        return None, MaxChecks;
      }
      count := count + 1;
    }
  }

  datatype PullError =
    | PublicIpFailed
    | PublicIpPanicked  // STUN text without ':': the Go program indexes out of range
    | PrivateIpFailed
    | RequestFailed
    | OwnerNotResponding(message: string)
    | ServerRefused(message: string)
    | ListenFailed
    | PunchFailed(punchError: NatPunching.PunchError)
    | SendFailed
    | ConfigFailed(configError: UsersConfig.ConfigError)
    | KeyFailed
    | EncryptFailed
    | MetaDataFailed(message: string)
    | DecryptKeyFailed
    | DecryptIvFailed
    | CreateFailed
    | ReceiveFailed(receiveError: ReceiveError)
    | MkdirFailed
    | UnzipFailed
    | ApplyFailed
    | RemoveFailed

  /** What connecting depends on: STUN's answer for the local port
      (`ip:port`), the private IP, whether the punch request reached the
      server, the responses that arrive while waiting, and whether the UDP
      socket could be opened and the owner's address resolved. */
  datatype Network = Network(
    myPublic: Option<string>,
    myPrivate: Option<string>,
    requestSent: bool,
    arrivals: seq<Option<PunchResponse>>,
    listenOk: bool,
    resolvable: bool)

  /** The owner's address the listener punches and dials. */
  function OwnerAddress(resp: PunchResponse, myPublicIp: string): string
  {
    NatPunching.PunchTarget(resp.ownerPublicIp, resp.ownerPublicPort, resp.ownerPrivateIp, resp.ownerPrivatePort, myPublicIp)
  }

  /** The owner and the listener punch along the same route. Each side's
      STUN answer is an `ip:port` text; the listener sends its public IP and
      port, private IP and local port to the server, which hands them to the
      owner's `HandleNotifyToPunchRequest`; the owner's `Reply` comes back as
      the `PunchResponse`. Both then punch private addresses exactly when
      the two public IPs are the same, and public ones otherwise. */
  lemma RouteAgreed(ownerStun: string, ownerStunPort: string, ownerPrivateIp: string, ownerLocalPort: string,
                    listenerStun: string, listenerStunPort: string, listenerPrivateIp: string, listenerLocalPort: string)
    requires ':' !in ownerStun && ':' !in ownerStunPort && ':' !in listenerStun && ':' !in listenerStunPort
    ensures var ownerMine := NatPunching.SplitHostPort(ownerStun + ":" + ownerStunPort);
      var listenerMine := NatPunching.SplitHostPort(listenerStun + ":" + listenerStunPort);
      && ownerMine.Some? && listenerMine.Some?
      && var reply := NotifyPunch.Reply(ownerMine.value.0, ownerMine.value.1, ownerPrivateIp, ownerLocalPort);
      && var ownerTarget := NatPunching.PunchTarget(listenerMine.value.0, listenerMine.value.1,
                                                    listenerPrivateIp, listenerLocalPort, ownerMine.value.0);
      && var listenerTarget := OwnerAddress(PunchResponse("", reply.publicIp, reply.publicPort, reply.privateIp, reply.localPort),
                                            listenerMine.value.0);
      && (ownerStun == listenerStun ==>
            ownerTarget == listenerPrivateIp + ":" + listenerLocalPort && listenerTarget == ownerPrivateIp + ":" + ownerLocalPort)
      && (ownerStun != listenerStun ==>
            ownerTarget == listenerStun + ":" + listenerStunPort && listenerTarget == ownerStun + ":" + ownerStunPort)
  {
    NatPunching.SplitHostPortRoundTrip(ownerStun, ownerStunPort);
    NatPunching.SplitHostPortRoundTrip(listenerStun, listenerStunPort);
  }

  /** What `connectToAnotherUser` returns, from the pending-response table,
      the datagrams that reach the UDP socket and its write budget: the
      failures in the source's order, then the punch towards the owner's
      address, whose handshake yields the owner's handler name. */
  function Connection(entries: map<string, PunchResponse>, inbox: seq<NatPunching.Datagram>, writable: nat,
                      owner: string, net: Network): Result<(string, string), PullError>
  {
    if net.myPublic.None? then Err(PublicIpFailed)
    else match NatPunching.SplitHostPort(net.myPublic.value)
      case None => Err(PublicIpPanicked)
      case Some(mine) =>
        if net.myPrivate.None? then Err(PrivateIpFailed)
        else if !net.requestSent then Err(RequestFailed)
        else
          var resp := Poll(if owner in entries then Some(entries[owner]) else None, net.arrivals);
          if resp.None? then Err(OwnerNotResponding(NotRespondingMsg))
          else if resp.value.error != "" then Err(ServerRefused(resp.value.error))
          else if !net.listenOk then Err(ListenFailed)
          else if !net.resolvable then Err(PunchFailed(NatPunching.ResolveFailed))
          else
            var target := OwnerAddress(resp.value, mine.0);
            var k := NatPunching.Min(NatPunching.PunchAttempts, writable);
            match NatPunching.ListenerWait(inbox, target, writable - k)
            case ListenerConnected(name) => Ok((name, target))
            case ListenerTimedOut => Err(PunchFailed(NatPunching.ReadFailed))
            case ListenerPanicked => Err(PunchFailed(NatPunching.Panicked))
  }

  /** When the owner's punch, carrying its handler name, is the first
      datagram to reach the listener and the listener can still write after
      its burst, connecting returns that name and the owner's address. */
  lemma ConnectionCarriesOwnerName(entries: map<string, PunchResponse>, name: string, later: seq<NatPunching.Datagram>,
                                   writable: nat, owner: string, net: Network)
    requires net.myPublic.Some? && NatPunching.SplitHostPort(net.myPublic.value).Some?
    requires net.myPrivate.Some? && net.requestSent && net.listenOk && net.resolvable
    requires var resp := Poll(if owner in entries then Some(entries[owner]) else None, net.arrivals);
      resp.Some? && resp.value.error == ""
    requires writable > NatPunching.PunchAttempts
    requires IsByteString(name) && ';' !in name && |NatPunching.OwnerAck(name)| <= NatPunching.DatagramBuffer
    ensures var resp := Poll(if owner in entries then Some(entries[owner]) else None, net.arrivals);
      var target := OwnerAddress(resp.value, NatPunching.SplitHostPort(net.myPublic.value).value.0);
      Connection(entries, [NatPunching.Datagram(target, Wire(NatPunching.OwnerPunch(name)))] + later, writable, owner, net)
        == Ok((name, target))
  {
    var resp := Poll(if owner in entries then Some(entries[owner]) else None, net.arrivals);
    var target := OwnerAddress(resp.value, NatPunching.SplitHostPort(net.myPublic.value).value.0);
    NatPunching.HandshakeCarriesName(name, target, later, writable - NatPunching.PunchAttempts);
  }

  /** `connectToAnotherUser`: the owner's handler name and address. */
  method ConnectToAnotherUser(table: ResponseTable, conn: NatPunching.UdpSocket, owner: string, net: Network)
    returns (r: Result<(string, string), PullError>)
    modifies table, conn
    ensures net.myPublic.None? ==> r == Err(PublicIpFailed)
    ensures net.myPublic.Some? && NatPunching.SplitHostPort(net.myPublic.value).None? ==> r == Err(PublicIpPanicked)
    ensures net.myPublic.Some? && NatPunching.SplitHostPort(net.myPublic.value).Some? ==>
      var myIp := NatPunching.SplitHostPort(net.myPublic.value).value.0;
      var initial := if owner in old(table.entries) then Some(old(table.entries)[owner]) else None;
      var resp := Poll(initial, net.arrivals);
      && (net.myPrivate.None? ==> r == Err(PrivateIpFailed))
      && (net.myPrivate.Some? && !net.requestSent ==> r == Err(RequestFailed))
      && (net.myPrivate.Some? && net.requestSent ==>
            && (resp.None? ==> r == Err(OwnerNotResponding(NotRespondingMsg)))
            && (resp.Some? && resp.value.error != "" ==> r == Err(ServerRefused(resp.value.error)))
            && (resp.Some? && resp.value.error == "" && !net.listenOk ==> r == Err(ListenFailed))
            && (resp.Some? && resp.value.error == "" && net.listenOk && r.Ok? ==>
                  r.value.1 == OwnerAddress(resp.value, myIp))
            && (resp.Some? && resp.value.error == "" && net.listenOk && !net.resolvable ==>
                  r == Err(PunchFailed(NatPunching.ResolveFailed)))
            && (resp.Some? && resp.value.error == "" && net.listenOk && net.resolvable ==>
                  var target := OwnerAddress(resp.value, myIp);
                  var k := NatPunching.Min(NatPunching.PunchAttempts, old(conn.writable));
                  match NatPunching.ListenerWait(old(conn.inbox), target, old(conn.writable) - k)
                  case ListenerConnected(name) => r == Ok((name, target))
                  case ListenerTimedOut => r == Err(PunchFailed(NatPunching.ReadFailed))
                  case ListenerPanicked => r == Err(PunchFailed(NatPunching.Panicked))))
    ensures r == Connection(old(table.entries), old(conn.inbox), old(conn.writable), owner, net)
  {
    if net.myPublic.None? {
      return Err(PublicIpFailed);
    }
    var split := NatPunching.SplitHostPort(net.myPublic.value);
    if split.None? {
      return Err(PublicIpPanicked);
    }
    var myIp := split.value.0;
    if net.myPrivate.None? {
      return Err(PrivateIpFailed);
    }
    if !net.requestSent {
      return Err(RequestFailed);
    }
    var resp, _ := AwaitPunchResponse(table, owner, net.arrivals);
    if resp.None? {
      return Err(OwnerNotResponding(NotRespondingMsg));
    }
    if resp.value.error != "" {
      return Err(ServerRefused(resp.value.error));
    }
    if !net.listenOk {
      return Err(ListenFailed);
    }
    var target := OwnerAddress(resp.value, myIp);
    var name := NatPunching.WorkspaceListenerUdpNatHolePunching(conn, target, net.resolvable);
    if name.Err? {
      return Err(PunchFailed(name.error));
    }
    return Ok((name.value, target));
  }

  // ---------------------------------------------------------------------
  // The receive loop
  // ---------------------------------------------------------------------

  datatype ReceiveError = ReadFailed | OwnerReported(message: string) | DecryptFailed

  /** A read the loop takes for an error of the owner: shorter than 30
      bytes and equal to one of two markers. */
  predicate OwnerErrorMarker(chunk: Bytes)
  {
    |chunk| < 30 &&
    (FromBytes(chunk) == ShareData.NoSuchPushMsg || FromBytes(chunk) == ShareData.InternalServerErrorMsg)
  }

  /** Of the markers an owner sends, only the internal-error one is short
      enough to be recognised; the others are taken for data. */
  lemma OnlyInternalErrorRecognised()
    ensures OwnerErrorMarker(Wire(ShareData.InternalServerErrorMsg))
    ensures !OwnerErrorMarker(Wire(ShareData.NoSuchPushMsg))
    ensures !OwnerErrorMarker(Wire(ShareData.NoSuchRangeMsg))
    ensures !OwnerErrorMarker(Wire(ShareData.InvalidRequestTypeMsg))
  {
    WireRoundTrip(ShareData.InternalServerErrorMsg);
  }

  /** A read loses no byte and always makes progress: fewer bytes are
      left, or as many bytes in fewer messages. */
  lemma ReadProgress(incoming: seq<Bytes>, cap: nat)
    requires cap > 0 && incoming != []
    ensures var m := ShareData.ReadMsg(incoming, cap).value;
      && |m.0| + |ShareData.Concat(m.1)| == |ShareData.Concat(incoming)|
      && (|m.0| > 0 || |m.1| < |incoming|)
  {
    ShareData.ReadKeepsStream(incoming, cap);
  }

  /** The receive loop from the point where `remaining` bytes are still
      expected: the decrypted data and what is left in the session. Every
      read is decrypted on its own, the keystream restarting at the IV. */
  function Receive(incoming: seq<Bytes>, remaining: int, key: Bytes, iv: Bytes, ks: Aes.Keystream)
    : (r: Result<(Bytes, seq<Bytes>), ReceiveError>)
    requires |iv| == Aes.BlockSize
    decreases |ShareData.Concat(incoming)|, |incoming|
  {
    if remaining <= 0 then Ok(([], incoming))
    else match ShareData.ReadMsg(incoming, Aes.DataChunk)
      case None => Err(ReadFailed)
      case Some((chunk, rest)) =>
        if OwnerErrorMarker(chunk) then Err(OwnerReported(FromBytes(chunk)))
        else if !Aes.ValidKeyLength(key) then Err(DecryptFailed)
        else
          ReadProgress(incoming, Aes.DataChunk);
          match Receive(rest, remaining - |chunk|, key, iv, ks)
          case Err(e) => Err(e)
          case Ok((data, left)) => Ok((Aes.Xor(chunk, key, iv, ks) + data, left))
  }

  /** `r` with `prefix` in front of its data. */
  function Prefixed(prefix: Bytes, r: Result<(Bytes, seq<Bytes>), ReceiveError>): Result<(Bytes, seq<Bytes>), ReceiveError>
  {
    match r
    case Err(e) => Err(e)
    case Ok((data, left)) => Ok((prefix + data, left))
  }

  /** The loop stops once the sum of the read lengths reaches `remaining`;
      the last read is kept whole, and the bytes it decrypted are exactly
      the bytes it consumed. */
  lemma {:induction false} ReceivedEnough(incoming: seq<Bytes>, remaining: int, key: Bytes, iv: Bytes, ks: Aes.Keystream)
    requires |iv| == Aes.BlockSize
    ensures var r := Receive(incoming, remaining, key, iv, ks);
      r.Ok? ==>
        && |r.value.0| >= remaining
        && |r.value.0| + |ShareData.Concat(r.value.1)| == |ShareData.Concat(incoming)|
    decreases |ShareData.Concat(incoming)|, |incoming|
  {
    if remaining > 0 && incoming != [] {
      var m := ShareData.ReadMsg(incoming, Aes.DataChunk).value;
      ReadProgress(incoming, Aes.DataChunk);
      if !OwnerErrorMarker(m.0) && Aes.ValidKeyLength(key) {
        ReceivedEnough(m.1, remaining - |m.0|, key, iv, ks);
      }
    }
  }

  /** The first message of an encrypted stream is its first chunk, encrypted. */
  lemma ChunkedMessages(zip: Bytes, key: Bytes, iv: Bytes, ks: Aes.Keystream)
    requires |zip| > 0
    ensures var n := if |zip| <= Aes.DataChunk then |zip| else Aes.DataChunk;
      ShareData.Chunks(Aes.Chunked(zip, key, iv, ks), Aes.DataChunk)
        == [Aes.Xor(zip[..n], key, iv, ks)] + ShareData.Chunks(Aes.Chunked(zip[n..], key, iv, ks), Aes.DataChunk)
  {
    var enc := Aes.Chunked(zip, key, iv, ks);
    var n := if |zip| <= Aes.DataChunk then |zip| else Aes.DataChunk;
    var head := Aes.Xor(zip[..n], key, iv, ks);
    var tail := Aes.Chunked(zip[n..], key, iv, ks);
    assert enc == head + tail by {
      if |zip| <= Aes.DataChunk {
        assert zip[..n] == zip;
        assert zip[n..] == [];
      }
    }
    assert enc[..n] == head && enc[n..] == tail;
    if |zip| <= Aes.DataChunk {
      assert tail == [] && enc == head;
      assert ShareData.Chunks(enc, Aes.DataChunk) == [enc];
    } else {
      assert ShareData.Chunks(enc, Aes.DataChunk) == [enc[..Aes.DataChunk]] + ShareData.Chunks(enc[Aes.DataChunk..], Aes.DataChunk);
    }
  }

  /** The bundle as the owner streams it, each chunk of the encrypted file
      in one message, is read back chunk for chunk and decrypted to the zip
      archive, provided no chunk happens to look like an error marker. */
  lemma {:induction false} AlignedStreamDecrypts(zip: Bytes, key: Bytes, iv: Bytes, ks: Aes.Keystream, later: seq<Bytes>)
    requires |iv| == Aes.BlockSize && Aes.ValidKeyLength(key)
    requires forall c :: c in ShareData.Chunks(Aes.Chunked(zip, key, iv, ks), Aes.DataChunk) ==> !OwnerErrorMarker(c)
    ensures Receive(ShareData.Chunks(Aes.Chunked(zip, key, iv, ks), Aes.DataChunk) + later, |zip|, key, iv, ks) == Ok((zip, later))
    decreases |zip|
  {
    var enc := Aes.Chunked(zip, key, iv, ks);
    var stream := ShareData.Chunks(enc, Aes.DataChunk) + later;
    if |zip| == 0 {
      assert stream == later;
    } else {
      var n := if |zip| <= Aes.DataChunk then |zip| else Aes.DataChunk;
      var head := Aes.Xor(zip[..n], key, iv, ks);
      var tail := Aes.Chunked(zip[n..], key, iv, ks);
      ChunkedMessages(zip, key, iv, ks);
      assert stream == [head] + (ShareData.Chunks(tail, Aes.DataChunk) + later);
      assert head in ShareData.Chunks(enc, Aes.DataChunk);
      assert ShareData.ReadMsg(stream, Aes.DataChunk) == Some((head, ShareData.Chunks(tail, Aes.DataChunk) + later));
      forall c | c in ShareData.Chunks(tail, Aes.DataChunk) ensures !OwnerErrorMarker(c) {
        assert c in ShareData.Chunks(enc, Aes.DataChunk);
      }
      AlignedStreamDecrypts(zip[n..], key, iv, ks, later);
      Aes.EncryptDecryptInvolution(zip[..n], key, iv, ks);
      assert Aes.Xor(head, key, iv, ks) == zip[..n];
      assert zip[..n] + zip[n..] == zip;
    }
  }

  /** A keystream that counts positions, to show what restarting it does. */
  function CountingKeystream(): Aes.Keystream
  {
    (key: Bytes, iv: Bytes, i: nat) => (i % 256) as byte
  }

  /** Decryption depends on how the stream is cut into reads: the same two
      zero bytes read as two messages and as one decrypt differently. */
  lemma ReadBoundariesMatter()
    ensures var key := seq(16, _ => 0 as byte);
      var iv := seq(16, _ => 0 as byte);
      && Receive([[0], [0]], 2, key, iv, CountingKeystream()) == Ok(([0, 0], []))
      && Receive([[0, 0]], 2, key, iv, CountingKeystream()) == Ok(([0, 1], []))
  {
    var key := seq(16, _ => 0 as byte);
    var iv := seq(16, _ => 0 as byte);
    var ks := CountingKeystream();
    assert Aes.ValidKeyLength(key);
    assert !OwnerErrorMarker([0]) by {
      assert FromBytes([0])[0] == 0 as char;
    }
    assert !OwnerErrorMarker([0, 0]) by {
      assert FromBytes([0, 0])[0] == 0 as char;
    }
    assert Aes.Xor([0], key, iv, ks) == [0];
    assert Aes.Xor([0, 0], key, iv, ks) == [0, 1];
    var two: seq<Bytes> := [[0], [0]];
    assert two[0] == [0] && two[1..] == [[0]];
    assert ShareData.ReadMsg(two, Aes.DataChunk) == Some(([0], [[0]]));
    var last: seq<Bytes> := [[0]];
    assert last[0] == [0] && last[1..] == [];
    assert ShareData.ReadMsg(last, Aes.DataChunk) == Some(([0], []));
    var nothing: seq<Bytes> := [];
    assert Receive(nothing, 0, key, iv, ks) == Ok(([], []));
    ReceiveStep(last, 1, key, iv, ks);
    assert Aes.Xor([0], key, iv, ks) + [] == [0];
    assert Receive(last, 1, key, iv, ks) == Ok(([0], []));
    ReceiveStep(two, 2, key, iv, ks);
    assert [0] + [0] == [0 as byte, 0];
    var one: seq<Bytes> := [[0, 0]];
    assert one[0] == [0, 0] && one[1..] == [];
    assert ShareData.ReadMsg(one, Aes.DataChunk) == Some(([0, 0], []));
    ReceiveStep(one, 2, key, iv, ks);
    assert Aes.Xor([0, 0], key, iv, ks) + [] == [0, 1];
  }

  /** A read of 30 bytes or more is never taken for a marker: when it
      covers what is still expected, it is decrypted and returned as the
      rest of the bundle. */
  lemma LongReadTakenForData(chunk: Bytes, later: seq<Bytes>, remaining: int, key: Bytes, iv: Bytes, ks: Aes.Keystream)
    requires |iv| == Aes.BlockSize && Aes.ValidKeyLength(key)
    requires 30 <= |chunk| <= Aes.DataChunk && 0 < remaining <= |chunk|
    ensures Receive([chunk] + later, remaining, key, iv, ks) == Ok((Aes.Xor(chunk, key, iv, ks), later))
  {
    var s := [chunk] + later;
    assert s[0] == chunk && s[1..] == later;
    assert ShareData.ReadMsg(s, Aes.DataChunk) == Some((chunk, later));
    ReceiveStep(s, remaining, key, iv, ks);
    assert Aes.Xor(chunk, key, iv, ks) + [] == Aes.Xor(chunk, key, iv, ks);
  }

  /** An owner's "Incorrect Workspace Name/Push Num Range" is decrypted and
      kept as data. */
  lemma RangeRefusalTakenForData(later: seq<Bytes>, remaining: int, key: Bytes, iv: Bytes, ks: Aes.Keystream)
    requires |iv| == Aes.BlockSize && Aes.ValidKeyLength(key)
    requires 0 < remaining <= |ShareData.NoSuchRangeMsg|
    ensures Receive([Wire(ShareData.NoSuchRangeMsg)] + later, remaining, key, iv, ks) ==
      Ok((Aes.Xor(Wire(ShareData.NoSuchRangeMsg), key, iv, ks), later))
  {
    LongReadTakenForData(Wire(ShareData.NoSuchRangeMsg), later, remaining, key, iv, ks);
  }

  /** One turn of the loop: a read that is not a marker is decrypted and
      put in front of whatever the rest of the loop yields. */
  lemma ReceiveStep(incoming: seq<Bytes>, remaining: int, key: Bytes, iv: Bytes, ks: Aes.Keystream)
    requires |iv| == Aes.BlockSize && remaining > 0 && incoming != [] && Aes.ValidKeyLength(key)
    requires !OwnerErrorMarker(ShareData.ReadMsg(incoming, Aes.DataChunk).value.0)
    ensures var m := ShareData.ReadMsg(incoming, Aes.DataChunk).value;
      Receive(incoming, remaining, key, iv, ks) ==
        Prefixed(Aes.Xor(m.0, key, iv, ks), Receive(m.1, remaining - |m.0|, key, iv, ks))
  {
  }

  lemma PrefixedTwice(a: Bytes, b: Bytes, r: Result<(Bytes, seq<Bytes>), ReceiveError>)
    ensures Prefixed(a, Prefixed(b, r)) == Prefixed(a + b, r)
  {
    if r.Ok? {
      assert a + (b + r.value.0) == (a + b) + r.value.0;
    }
  }

  /** The loop of `fetchAndStoreDataIntoWorkspace`: reads of at most 1024
      bytes until their lengths add up to `lenData`, each checked for an
      error marker, decrypted and appended to the zip file's content. */
  method ReceiveBundle(session: ShareData.Session, lenData: int, key: Bytes, iv: Bytes, ks: Aes.Keystream)
    returns (r: Result<Bytes, ReceiveError>)
    requires |iv| == Aes.BlockSize
    modifies session
    ensures session.sent == old(session.sent) && session.writable == old(session.writable)
    ensures match Receive(old(session.incoming), lenData, key, iv, ks)
      case Err(e) => r == Err(e)
      case Ok((data, left)) => r == Ok(data) && session.incoming == left
  {
    var written: Bytes := [];
    var offset := 0;
    assert Prefixed([], Receive(session.incoming, lenData, key, iv, ks)) == Receive(session.incoming, lenData, key, iv, ks) by {
      var rr := Receive(session.incoming, lenData, key, iv, ks);
      if rr.Ok? {
        assert [] + rr.value.0 == rr.value.0;
      }
    }
    while offset < lenData
      invariant session.sent == old(session.sent) && session.writable == old(session.writable)
      invariant Receive(old(session.incoming), lenData, key, iv, ks) ==
        Prefixed(written, Receive(session.incoming, lenData - offset, key, iv, ks))
      decreases |ShareData.Concat(session.incoming)|, |session.incoming|
    {
      ghost var before := session.incoming;
      var chunk := session.Read(Aes.DataChunk);
      if chunk.None? {
        return Err(ReadFailed);
      }
      if |chunk.value| < 30 {
        var msg := FromBytes(chunk.value);
        if msg == ShareData.NoSuchPushMsg || msg == ShareData.InternalServerErrorMsg {
          return Err(OwnerReported(msg));
        }
      }
      var decrypted := Aes.EncryptDecryptChunk(chunk.value, key, iv, ks);
      if decrypted.Err? {
        return Err(DecryptFailed);
      }
      ReadProgress(before, Aes.DataChunk);
      ReceiveStep(before, lenData - offset, key, iv, ks);
      PrefixedTwice(written, decrypted.value, Receive(session.incoming, lenData - offset - |chunk.value|, key, iv, ks));
      written := written + decrypted.value;
      offset := offset + |chunk.value|;
    }
    assert written + [] == written;
    return Ok(written);
  }

  // ---------------------------------------------------------------------
  // Fetching and applying the bundle
  // ---------------------------------------------------------------------

  /** Where a followed workspace keeps what it downloads. */
  function ContentsDir(ws: Path): Path
  {
    ws + [".PKr", "Contents"]
  }

  /** The zip file the decrypted bundle is written to. */
  function BundleFile(ws: Path, range: string): Path
  {
    ContentsDir(ws) + SplitPath(range + ".zip")
  }

  /** The directory the bundle is unpacked into before it is applied. */
  function StagingDir(ws: Path, range: string): Path
  {
    ContentsDir(ws) + SplitPath(range)
  }

  const PullMode := "Pull"

  /** The messages that open the plain KCP session of a pull: the session
      tag, the workspace name, the push range and the request type. */
  function PullRequestMessages(name: string, range: string): seq<Bytes>
  {
    [Wire(NotifyPunch.KcpTag), Wire(name), Wire(range), Wire(PullMode)]
  }

  /** The owner's session reader takes these messages for a KCP session
      carrying a pull request of exactly that workspace and range. */
  lemma PullRequestReachesOwner(name: string, range: string, later: seq<Bytes>)
    requires IsByteString(name) && IsByteString(range)
    requires |name| <= ShareData.MessageBuffer && |range| <= ShareData.MessageBuffer
    ensures var m := ShareData.ReadMsg(PullRequestMessages(name, range) + later, 3);
      && m.Some? && NotifyPunch.SessionTag(m.value.0) == Wire(NotifyPunch.KcpTag)
      && var req := ShareData.ParseRequest(m.value.1);
      && req.Some?
      && FromBytes(req.value.name) == name
      && FromBytes(req.value.push) == range
      && FromBytes(req.value.mode) == PullMode
      && req.value.rest == later
  {
    var msgs := PullRequestMessages(name, range) + later;
    var tag := Wire(NotifyPunch.KcpTag);
    assert msgs[0] == tag && |tag| == 3;
    assert msgs[1..] == [Wire(name), Wire(range), Wire(PullMode)] + later;
    assert ShareData.ReadMsg(msgs, 3) == Some((tag, msgs[1..]));
    assert NotifyPunch.SessionTag(tag)[..3] == tag;
    ShareData.ParseRequestRoundTrip(Wire(name), Wire(range), Wire(PullMode), later);
    WireRoundTrip(name);
    WireRoundTrip(range);
    assert IsByteString(PullMode) by {
      assert forall i :: 0 <= i < |PullMode| ==> PullMode[i] as int < 128;
    }
    WireRoundTrip(PullMode);
  }

  /** What fetching uses but does not compute: RSA decryption with the
      listener's private key (`None` on failure), the AES keystream and the
      zip decoder. */
  datatype FetchEnv = FetchEnv(
    rsaDecrypt: Bytes -> Option<Bytes>,
    ks: Aes.Keystream,
    decode: Bytes -> Option<Zip.Archive>)

  /** The changes a response carries; a response without any applies none. */
  function ChangeMap(updates: Option<map<string, string>>): map<string, string>
  {
    if updates.Some? then updates.value else map[]
  }

  /** The files left once the zip file and the staging directory are gone. */
  function Cleaned(files: map<Path, Bytes>, zip: Path, dest: Path): (r: map<Path, Bytes>)
    ensures forall q :: q in r <==> q in files && q != zip && !Under(dest, q)
    ensures forall q :: q in r ==> r[q] == files[q]
  {
    map q | q in files && q != zip && !Under(dest, q) :: files[q]
  }

  /** The changes took effect on the staged files the way
      `UpdateFilesFromWorkspace` promises. */
  ghost predicate ChangesApplied(staged: map<Path, Bytes>, applied: map<Path, Bytes>, ws: Path, dest: Path,
                                 changes: map<string, string>)
  {
    && FilesAndFolders.OnlyNewAt(staged, applied, ws, changes, changes.Keys)
    && FilesAndFolders.KeptOutside(staged, applied, ws, changes, changes.Keys)
    && (FilesAndFolders.Independent(ws, dest, changes) ==>
          FilesAndFolders.AllApplied(staged, applied, ws, dest, changes, changes.Keys))
  }

  /** What applying the downloaded zip file leaves behind: it is unpacked
      over the staging directory, the changes are applied from there, and
      the zip file and the staging directory are removed. */
  ghost predicate BundleApplied(before: map<Path, Bytes>, files: map<Path, Bytes>, ws: Path, range: string,
                                updates: Option<map<string, string>>, decode: Bytes -> Option<Zip.Archive>,
                                err: Option<PullError>, staged: map<Path, Bytes>, applied: map<Path, Bytes>)
  {
    var dest := StagingDir(ws, range);
    var zip := BundleFile(ws, range);
    && (err.Some? ==> err.value in {MkdirFailed, UnzipFailed, ApplyFailed, RemoveFailed})
    && (!NoFileOnPath(before, dest) ==> err == Some(MkdirFailed) && files == before)
    && (NoFileOnPath(before, dest) && (zip !in before || decode(before[zip]).None?) ==>
          err == Some(UnzipFailed) && files == before)
    && (err.None? ==>
          && NoFileOnPath(before, dest) && zip in before && decode(before[zip]).Some?
          && staged == before + Zip.Unpacked(decode(before[zip]).value, dest)
          && ChangesApplied(staged, applied, ws, dest, ChangeMap(updates))
          && files == Cleaned(applied, zip, dest))
  }

  /** Why applying the downloaded zip file fails, given the files and
      directories before and after: the staging directory cannot be made
      exactly when a file lies on its path; unpacking fails exactly when the
      zip file is missing, does not decode or has a member that cannot be
      written; applying fails only on a blocked change; removing the zip
      file fails only when it is already gone. */
  ghost predicate BundleFailure(before: map<Path, Bytes>, beforeDirs: set<Path>, files: map<Path, Bytes>, dirs: set<Path>,
                                ws: Path, range: string, updates: Option<map<string, string>>,
                                decode: Bytes -> Option<Zip.Archive>, err: Option<PullError>)
  {
    var dest := StagingDir(ws, range);
    var zip := BundleFile(ws, range);
    var changes := ChangeMap(updates);
    && (err == Some(MkdirFailed) <==> !NoFileOnPath(before, dest))
    && (err == Some(UnzipFailed) <==>
          && NoFileOnPath(before, dest)
          && (|| zip !in before || decode(before[zip]).None?
              || !Zip.Unpackable(before, beforeDirs + Prefixes(dest), dest, decode(before[zip]).value)))
    && (err == Some(ApplyFailed) ==>
          exists rel :: rel in changes && FilesAndFolders.ChangeBlocked(files, dirs, ws, dest, rel, changes[rel]))
    && (err == Some(RemoveFailed) ==> zip !in files)
  }

  /** The tail of `fetchAndStoreDataIntoWorkspace`, once the zip file is
      written: unpack, apply, clean up. */
  method ApplyBundle(disk: Disk, ws: Path, range: string, updates: Option<map<string, string>>,
                     decode: Bytes -> Option<Zip.Archive>)
    returns (err: Option<PullError>, ghost staged: map<Path, Bytes>, ghost applied: map<Path, Bytes>)
    requires disk.Valid()
    modifies disk
    ensures disk.Valid()
    ensures BundleApplied(old(disk.files), disk.files, ws, range, updates, decode, err, staged, applied)
    ensures BundleFailure(old(disk.files), old(disk.dirs), disk.files, disk.dirs, ws, range, updates, decode, err)
  {
    staged, applied := map[], map[];
    var dest := StagingDir(ws, range);
    var zip := BundleFile(ws, range);
    var ok := disk.MkdirAll(dest);
    if !ok {
      return Some(MkdirFailed), staged, applied;
    }
    var src := if zip in disk.files then decode(disk.files[zip]) else None;
    var unzipErr := Zip.UnzipData(disk, src, dest);
    if unzipErr.Some? {
      return Some(UnzipFailed), staged, applied;
    }
    staged := disk.files;
    var changes := ChangeMap(updates);
    var applyErr := FilesAndFolders.UpdateFilesFromWorkspace(disk, ws, dest, changes);
    if applyErr.Some? {
      return Some(ApplyFailed), staged, applied;
    }
    applied := disk.files;
    var removed := disk.Remove(zip);
    if removed != Removed {
      return Some(RemoveFailed), staged, applied;
    }
    ghost var mid := disk.files;
    disk.RemoveAll(dest);
    CleanedInTwoSteps(applied, mid, disk.files, zip, dest);
    return None, staged, applied;
  }

  /** Removing the zip file, then everything under the staging directory,
      leaves `Cleaned`. */
  lemma CleanedInTwoSteps(applied: map<Path, Bytes>, mid: map<Path, Bytes>, final: map<Path, Bytes>, zip: Path, dest: Path)
    requires mid == applied - {zip} || (zip !in applied && mid == applied)
    requires final == map q | q in mid && !Under(dest, q) :: mid[q]
    ensures final == Cleaned(applied, zip, dest)
  {
    var c := Cleaned(applied, zip, dest);
    assert final.Keys == c.Keys;
    forall q | q in final ensures final[q] == c[q] {
    }
  }

  /** After a successful pull with independent changes, outside the zip file
      and the staging directory, an `Updated` target holds what was staged
      for it and a `Removed` target is gone; any other file that was there
      before is as it was. */
  lemma PulledChangesLand(staged: map<Path, Bytes>, applied: map<Path, Bytes>, ws: Path, dest: Path, zip: Path,
                          changes: map<string, string>, rel: string)
    requires ChangesApplied(staged, applied, ws, dest, changes)
    requires FilesAndFolders.Independent(ws, dest, changes)
    requires rel in changes
    requires FilesAndFolders.Target(ws, rel) != zip && !Under(dest, FilesAndFolders.Target(ws, rel))
    ensures var target := FilesAndFolders.Target(ws, rel);
      var files := Cleaned(applied, zip, dest);
      && (changes[rel] == FileTree.Updated ==>
            target in files && files[target] == staged[FilesAndFolders.Source(dest, rel)])
      && (changes[rel] == FileTree.Removed ==> target !in files)
  {
    assert FilesAndFolders.StepDone(staged, applied, FilesAndFolders.Target(ws, rel), FilesAndFolders.Source(dest, rel), changes[rel]);
  }

  /** A file no effective change names survives a successful pull unless it
      is the zip file or lies in the staging directory. */
  lemma PullKeepsUntouched(staged: map<Path, Bytes>, applied: map<Path, Bytes>, ws: Path, dest: Path, zip: Path,
                           changes: map<string, string>, q: Path)
    requires ChangesApplied(staged, applied, ws, dest, changes)
    requires q in staged && q != zip && !Under(dest, q)
    requires forall rel :: rel in FilesAndFolders.Effective(changes) ==> q != FilesAndFolders.Target(ws, rel)
    ensures q in Cleaned(applied, zip, dest) && Cleaned(applied, zip, dest)[q] == staged[q]
  {
    assert forall rel :: rel in changes.Keys * FilesAndFolders.Effective(changes) ==> q != FilesAndFolders.Target(ws, rel);
  }

  /** What receiving and applying the bundle leaves behind, from the files
      (the zip file created empty) and directories, the session's pending
      reads, its write log and its remaining write budget before it. */
  ghost predicate Fetched(
      before: map<Path, Bytes>, beforeDirs: set<Path>, incoming: seq<Bytes>, sentBefore: seq<Bytes>, writable: nat,
      files: map<Path, Bytes>, dirs: set<Path>, sent: seq<Bytes>,
      ws: Path, md: Handler.MetaData, key: Bytes, iv: Bytes, env: FetchEnv,
      err: Option<PullError>, staged: map<Path, Bytes>, applied: map<Path, Bytes>)
    requires |iv| == Aes.BlockSize
  {
    var zip := BundleFile(ws, md.requestPushRange);
    var received := Receive(incoming, md.lenData, key, iv, env.ks);
    && (received.Err? ==>
          err == Some(ReceiveFailed(received.error)) && files == before && dirs == beforeDirs && sent == sentBefore)
    && (received.Ok? ==>
          && sent == sentBefore + (if writable > 0 then [Wire(ShareData.DataReceivedMsg)] else [])
          && BundleApplied(before[zip := received.value.0], files, ws, md.requestPushRange, md.updates, env.decode,
                           err, staged, applied)
          && BundleFailure(before[zip := received.value.0], beforeDirs, files, dirs, ws, md.requestPushRange,
                           md.updates, env.decode, err))
  }

  /** What the download leaves behind, from the files and directories, the
      session's pending reads, its write log and its write budget before it. */
  ghost predicate Downloaded(
      oldFiles: map<Path, Bytes>, oldDirs: set<Path>, incoming: seq<Bytes>, oldSent: seq<Bytes>, writable: nat,
      files: map<Path, Bytes>, dirs: set<Path>, sent: seq<Bytes>,
      ws: Path, name: string, md: Handler.MetaData, key: Bytes, iv: Bytes, env: FetchEnv,
      err: Option<PullError>, staged: map<Path, Bytes>, applied: map<Path, Bytes>)
    requires |iv| == Aes.BlockSize
  {
    var zip := BundleFile(ws, md.requestPushRange);
    var request := PullRequestMessages(name, md.requestPushRange);
    var createOk := zip !in oldDirs && |zip| > 0 && Parent(zip) in oldDirs;
    && (!createOk ==> err == Some(CreateFailed) && files == oldFiles && dirs == oldDirs && sent == oldSent)
    && (createOk && writable < |request| ==>
          && err == Some(SendFailed) && files == oldFiles[zip := []] && dirs == oldDirs
          && sent == oldSent + request[..writable])
    && (createOk && writable >= |request| ==>
          Fetched(oldFiles[zip := []], oldDirs, incoming, oldSent + request, writable - |request|, files, dirs, sent,
                  ws, md, key, iv, env, err, staged, applied))
  }

  /** The four writes that open the session; the first one that fails
      ends the pull. */
  method SendPullRequest(session: ShareData.Session, name: string, range: string) returns (ok: bool)
    modifies session
    ensures session.incoming == old(session.incoming)
    ensures var request := PullRequestMessages(name, range);
      && (ok <==> old(session.writable) >= |request|)
      && (ok ==> session.sent == old(session.sent) + request && session.writable == old(session.writable) - |request|)
      && (!ok ==> session.sent == old(session.sent) + request[..old(session.writable)])
  {
    ghost var request := PullRequestMessages(name, range);
    ok := session.Write(Wire(NotifyPunch.KcpTag));
    if !ok {
      assert request[..0] == [];
      return;
    }
    ok := session.Write(Wire(name));
    if !ok {
      assert request[..1] == [Wire(NotifyPunch.KcpTag)];
      return;
    }
    ok := session.Write(Wire(range));
    if !ok {
      assert request[..2] == [Wire(NotifyPunch.KcpTag), Wire(name)];
      return;
    }
    ok := session.Write(Wire(PullMode));
    if !ok {
      assert request[..3] == [Wire(NotifyPunch.KcpTag), Wire(name), Wire(range)];
      return;
    }
    assert session.sent == old(session.sent) + request;
  }

  /** The part of `fetchAndStoreDataIntoWorkspace` after the workspace is
      found: create the zip file, send the request, then receive and apply
      the bundle. */
  method DownloadBundle(disk: Disk, session: ShareData.Session, ws: Path, name: string, md: Handler.MetaData,
                        key: Bytes, iv: Bytes, env: FetchEnv)
    returns (err: Option<PullError>, ghost staged: map<Path, Bytes>, ghost applied: map<Path, Bytes>)
    requires disk.Valid() && |iv| == Aes.BlockSize
    modifies disk, session
    ensures disk.Valid()
    ensures Downloaded(old(disk.files), old(disk.dirs), old(session.incoming), old(session.sent), old(session.writable),
                       disk.files, disk.dirs, session.sent, ws, name, md, key, iv, env, err, staged, applied)
  {
    staged, applied := map[], map[];
    var zip := BundleFile(ws, md.requestPushRange);
    var ok := disk.WriteFile(zip, []);
    if !ok {
      return Some(CreateFailed), staged, applied;
    }
    ok := SendPullRequest(session, name, md.requestPushRange);
    if !ok {
      return Some(SendFailed), staged, applied;
    }
    err, staged, applied := ReceiveAndApply(disk, session, ws, md, key, iv, env);
  }

  /** Receive and decrypt the bundle into the zip file, acknowledge it
      (a failed acknowledgement is ignored), then apply it. */
  method ReceiveAndApply(disk: Disk, session: ShareData.Session, ws: Path, md: Handler.MetaData,
                         key: Bytes, iv: Bytes, env: FetchEnv)
    returns (err: Option<PullError>, ghost staged: map<Path, Bytes>, ghost applied: map<Path, Bytes>)
    requires disk.Valid() && |iv| == Aes.BlockSize
    requires BundleFile(ws, md.requestPushRange) in disk.files
    modifies disk, session
    ensures disk.Valid()
    ensures Fetched(old(disk.files), old(disk.dirs), old(session.incoming), old(session.sent), old(session.writable),
                    disk.files, disk.dirs, session.sent, ws, md, key, iv, env, err, staged, applied)
  {
    staged, applied := map[], map[];
    var zip := BundleFile(ws, md.requestPushRange);
    var data := ReceiveBundle(session, md.lenData, key, iv, env.ks);
    if data.Err? {
      return Some(ReceiveFailed(data.error)), staged, applied;
    }
    var ok := disk.WriteFile(zip, data.value);
    ok := session.Write(Wire(ShareData.DataReceivedMsg));
    err, staged, applied := ApplyBundle(disk, ws, md.requestPushRange, md.updates, env.decode);
  }

  /** `fetchAndStoreDataIntoWorkspace`: decrypt the AES key and IV with the
      listener's private key, find the followed workspace by name, then
      download and apply the bundle. */
  method FetchAndStoreDataIntoWorkspace(cfg: UsersConfig.UserConfigFile, disk: Disk, session: ShareData.Session,
                                        name: string, md: Handler.MetaData, env: FetchEnv)
    returns (err: Option<PullError>, ghost staged: map<Path, Bytes>, ghost applied: map<Path, Bytes>)
    requires disk.Valid()
    modifies disk, session
    ensures disk.Valid()
    ensures var key := env.rsaDecrypt(md.keyBytes);
      var iv := env.rsaDecrypt(md.ivBytes);
      var wsPath := UsersConfig.GetWorkspacePath(cfg.file, name);
      && (key.None? ==> err == Some(DecryptKeyFailed) && disk.files == old(disk.files))
      && (key.Some? && (iv.None? || |iv.value| != Aes.BlockSize) ==>
            err == Some(DecryptIvFailed) && disk.files == old(disk.files))
      && (key.Some? && iv.Some? && |iv.value| == Aes.BlockSize ==>
            && (wsPath.Err? ==> err == Some(ConfigFailed(wsPath.error)) && disk.files == old(disk.files))
            && (wsPath.Ok? ==>
                  Downloaded(old(disk.files), old(disk.dirs), old(session.incoming), old(session.sent), old(session.writable),
                             disk.files, disk.dirs, session.sent, SplitPath(wsPath.value), name, md, key.value, iv.value, env,
                             err, staged, applied)))
  {
    staged, applied := map[], map[];
    var key := env.rsaDecrypt(md.keyBytes);
    if key.None? {
      return Some(DecryptKeyFailed), staged, applied;
    }
    var iv := env.rsaDecrypt(md.ivBytes);
    if iv.None? || |iv.value| != Aes.BlockSize {
      return Some(DecryptIvFailed), staged, applied;
    }
    var wsPath := cfg.GetGetWorkspaceFilePath(name);
    if wsPath.Err? {
      return Some(ConfigFailed(wsPath.error)), staged, applied;
    }
    err, staged, applied := DownloadBundle(disk, session, SplitPath(wsPath.value), name, md, key.value, iv.value, env);
  }

  // ---------------------------------------------------------------------
  // The pull
  // ---------------------------------------------------------------------

  /** The followed workspace of that name and owner. */
  predicate Follows(f: UsersConfig.GetWorkspaceFolder, name: string, owner: string)
  {
    f.workspaceName == name && f.workspaceOwnerName == owner
  }

  /** Index of the last followed workspace of that name and owner. */
  function LastMatch(ws: seq<UsersConfig.GetWorkspaceFolder>, name: string, owner: string): (r: Option<nat>)
    ensures r.Some? ==> r.value < |ws| && Follows(ws[r.value], name, owner)
    decreases |ws|
  {
    if ws == [] then None
    else if Follows(ws[|ws| - 1], name, owner) then Some(|ws| - 1)
    else LastMatch(ws[..|ws| - 1], name, owner)
  }

  /** `LastMatch` finds the last entry that follows, and finds one
      whenever there is one. */
  lemma {:induction false} LastMatchIsLast(ws: seq<UsersConfig.GetWorkspaceFolder>, name: string, owner: string)
    ensures LastMatch(ws, name, owner).None? <==> forall i :: 0 <= i < |ws| ==> !Follows(ws[i], name, owner)
    ensures LastMatch(ws, name, owner).Some? ==>
      forall j :: LastMatch(ws, name, owner).value < j < |ws| ==> !Follows(ws[j], name, owner)
    decreases |ws|
  {
    if ws != [] && !Follows(ws[|ws| - 1], name, owner) {
      var init := ws[..|ws| - 1];
      LastMatchIsLast(init, name, owner);
      assert forall i :: 0 <= i < |init| ==> init[i] == ws[i];
    }
  }

  /** The password and push number the pull asks with: those of the last
      matching entry, or an empty password and push 0 when none matches. */
  function Credentials(ws: seq<UsersConfig.GetWorkspaceFolder>, name: string, owner: string): (string, int)
  {
    match LastMatch(ws, name, owner)
    case None => ("", 0)
    case Some(i) => (ws[i].workspacePassword, ws[i].lastPushNum)
  }

  /** The loop of `PullWorkspace` over the followed workspaces: every match
      overwrites what an earlier one set. */
  method FindCredentials(ws: seq<UsersConfig.GetWorkspaceFolder>, name: string, owner: string)
    returns (password: string, lastPushNum: int)
    ensures (password, lastPushNum) == Credentials(ws, name, owner)
  {
    password, lastPushNum := "", 0;
    for i := 0 to |ws|
      invariant (password, lastPushNum) == Credentials(ws[..i], name, owner)
    {
      assert ws[..i + 1][..i] == ws[..i];
      if Follows(ws[i], name, owner) {
        password, lastPushNum := ws[i].workspacePassword, ws[i].lastPushNum;
      }
    }
    assert ws[..|ws|] == ws;
  }

  /** The bookmark update finds its entry by name alone: when an earlier
      entry has the same name under another owner, the entry the pull asked
      with keeps its push number. */
  lemma BookmarkSkipsPulledEntry(conf: UsersConfig.UserConfig, name: string, owner: string, n: int, j: nat)
    requires LastMatch(conf.getWorkspaces, name, owner).Some?
    requires j < LastMatch(conf.getWorkspaces, name, owner).value && conf.getWorkspaces[j].workspaceName == name
    ensures var i := LastMatch(conf.getWorkspaces, name, owner).value;
      UsersConfig.WithLastPushNum(conf, name, n).getWorkspaces[i] == conf.getWorkspaces[i]
  {
    var ws := conf.getWorkspaces;
    assert UsersConfig.GetNamed(name)(ws[j]);
    var first := FirstIndex(ws, UsersConfig.GetNamed(name));
    assert first.Some? && first.value <= j;
  }

  /** Two owners sharing workspaces named "w": pulling from the second one
      asks with its push number 2 but moves the first owner's bookmark. */
  lemma PullFromSecondOwnerMovesFirst()
    ensures var a := UsersConfig.GetWorkspaceFolder("alice", "w", "pa", "/a", 1);
      var b := UsersConfig.GetWorkspaceFolder("bob", "w", "pb", "/b", 2);
      var conf := UsersConfig.UserConfig("me", "pw", "server", 0, 0, [], [a, b]);
      && Credentials(conf.getWorkspaces, "w", "bob") == ("pb", 2)
      && UsersConfig.WithLastPushNum(conf, "w", 5).getWorkspaces == [a.(lastPushNum := 5), b]
  {
    var a := UsersConfig.GetWorkspaceFolder("alice", "w", "pa", "/a", 1);
    var b := UsersConfig.GetWorkspaceFolder("bob", "w", "pb", "/b", 2);
    var ws := [a, b];
    assert Follows(ws[1], "w", "bob");
    assert UsersConfig.GetNamed("w")(ws[0]);
    assert FirstIndex(ws, UsersConfig.GetNamed("w")) == Some(0);
  }

  /** The owner's `GetMetaData` call as the listener makes it. */
  datatype MetaDataCall = MetaDataCall(
    rpcName: string,
    username: string,
    serverIp: string,
    workspaceName: string,
    password: string,
    lastPushNum: int)

  /** What pulling uses but does not compute: this user's name and server,
      where the others' public keys are, RSA encryption with a public key,
      the owner's answer to a `GetMetaData` call (an error text on failure),
      what fetching needs, and whether writing the user config succeeds. */
  datatype PullEnv = PullEnv(
    myUsername: string,
    myServerIp: string,
    othersKeys: Path,
    rsaEncrypt: (string, Bytes) -> Option<string>,
    getMetaData: MetaDataCall -> Result<Handler.MetaData, string>,
    fetch: FetchEnv,
    writeOk: bool)

  /** `PullWorkspace`: connect to the owner, open an RPC session, ask with
      the password and push number of the last matching followed workspace,
      fetch and apply what is new, then move the bookmark. Every error
      leaves the user config as it was, including the owner's "already up
      to date" answer, which arrives as an RPC error text and is reported
      like any other. */
  method PullWorkspace(table: ResponseTable, conn: NatPunching.UdpSocket, rpc: ShareData.Session, data: ShareData.Session,
                       cfg: UsersConfig.UserConfigFile, disk: Disk, owner: string, wsName: string, net: Network, env: PullEnv)
    returns (err: Option<PullError>, ghost call: Option<MetaDataCall>,
             ghost staged: map<Path, Bytes>, ghost applied: map<Path, Bytes>)
    requires disk.Valid() && rpc != data
    modifies table, conn, rpc, data, cfg, disk
    ensures disk.Valid()
    ensures err.Some? ==> cfg.file == old(cfg.file)
    ensures net.myPublic.None? ==> err == Some(PublicIpFailed) && disk.files == old(disk.files)
    ensures call.None? ==> err.Some? && disk.files == old(disk.files) && disk.dirs == old(disk.dirs)
    ensures var connected := Connection(old(table.entries), old(conn.inbox), old(conn.writable), owner, net);
      && (connected.Err? ==> err == Some(connected.error))
      && (call.Some? <==> CallReady(connected, old(rpc.writable), old(cfg.file), old(disk.files), owner, wsName, env))
      && (call.Some? ==> call.value.rpcName == NotifyPunch.CallName(connected.value.0, "GetMetaData"))
    ensures call.Some? ==>
      && CallMadeFor(call.value, old(cfg.file), old(disk.files), owner, wsName, env)
      && (env.getMetaData(call.value).Err? ==>
            && err == Some(MetaDataFailed(env.getMetaData(call.value).error))
            && disk.files == old(disk.files) && disk.dirs == old(disk.dirs))
    ensures err.None? ==>
      && call.Some? && env.getMetaData(call.value).Ok?
      && cfg.file == UsersConfig.Present(UsersConfig.WithLastPushNum(old(cfg.file).conf, wsName,
                                                                       env.getMetaData(call.value).value.lastPushNum))
      && var md := env.getMetaData(call.value).value;
      && var key := env.fetch.rsaDecrypt(md.keyBytes);
      && var iv := env.fetch.rsaDecrypt(md.ivBytes);
      && var wsPath := UsersConfig.GetWorkspacePath(old(cfg.file), wsName);
      && key.Some? && iv.Some? && |iv.value| == Aes.BlockSize && wsPath.Ok?
      && Downloaded(old(disk.files), old(disk.dirs), old(data.incoming), old(data.sent), old(data.writable),
                    disk.files, disk.dirs, data.sent, SplitPath(wsPath.value), wsName, md, key.value, iv.value, env.fetch,
                    None, staged, applied)
  {
    staged, applied := map[], map[];
    var reply;
    reply, call := RequestMetaData(table, conn, rpc, cfg, disk, owner, wsName, net, env);
    if reply.Err? {
      return Some(reply.error), call, staged, applied;
    }
    err, staged, applied := FetchThenBookmark(cfg, disk, data, wsName, reply.value, env.fetch, env.writeOk);
  }

  /** The `GetMetaData` call asks, for the follower's last matching
      bookmark of `wsName` by `owner`, with its password encrypted under
      the owner's public key and its last push number. */
  ghost predicate CallMadeFor(call: MetaDataCall, cfg: UsersConfig.ConfigFile, files: map<Path, Bytes>,
                              owner: string, wsName: string, env: PullEnv)
  {
    && cfg.Present?
    && var cred := Credentials(cfg.conf.getWorkspaces, wsName, owner);
    && var key := UsersConfig.GetPublicKeyUsingUsername(files, env.othersKeys, owner);
    && key.Ok? && env.rsaEncrypt(cred.0, key.value) == Some(call.password)
    && call.lastPushNum == cred.1
    && call.workspaceName == wsName
    && call.username == env.myUsername && call.serverIp == env.myServerIp
  }

  /** Everything before the `GetMetaData` call succeeds: connecting, the RPC
      session's tag, reading the user config, finding the owner's public key
      and encrypting the password under it. */
  ghost predicate CallReady(connected: Result<(string, string), PullError>, rpcWritable: nat, cfg: UsersConfig.ConfigFile,
                            files: map<Path, Bytes>, owner: string, wsName: string, env: PullEnv)
  {
    && connected.Ok? && rpcWritable > 0 && cfg.Present?
    && var key := UsersConfig.GetPublicKeyUsingUsername(files, env.othersKeys, owner);
    && key.Ok? && env.rsaEncrypt(Credentials(cfg.conf.getWorkspaces, wsName, owner).0, key.value).Some?
  }

  /** The start of `PullWorkspace`: connect to the owner, open the RPC
      session and ask for the metadata; nothing on disk or in the user
      config changes. The call is made exactly when everything before it
      succeeds, and it names the service of the handler the punch
      handshake reported. */
  method RequestMetaData(table: ResponseTable, conn: NatPunching.UdpSocket, rpc: ShareData.Session,
                         cfg: UsersConfig.UserConfigFile, disk: Disk, owner: string, wsName: string,
                         net: Network, env: PullEnv)
    returns (reply: Result<Handler.MetaData, PullError>, ghost call: Option<MetaDataCall>)
    modifies table, conn, rpc
    ensures net.myPublic.None? ==> reply == Err(PublicIpFailed)
    ensures call.Some? ==>
      && CallMadeFor(call.value, cfg.file, disk.files, owner, wsName, env)
      && (env.getMetaData(call.value).Err? ==> reply == Err(MetaDataFailed(env.getMetaData(call.value).error)))
    ensures reply.Ok? ==> call.Some? && env.getMetaData(call.value) == Ok(reply.value)
    ensures var connected := Connection(old(table.entries), old(conn.inbox), old(conn.writable), owner, net);
      && (connected.Err? ==> reply == Err(connected.error))
      && (call.Some? <==> CallReady(connected, old(rpc.writable), cfg.file, disk.files, owner, wsName, env))
      && (call.Some? ==> call.value.rpcName == NotifyPunch.CallName(connected.value.0, "GetMetaData"))
      && (call.Some? && env.getMetaData(call.value).Ok? ==> reply == Ok(env.getMetaData(call.value).value))
  {
    call := None;
    var connected := ConnectToAnotherUser(table, conn, owner, net);
    if connected.Err? {
      return Err(connected.error), call;
    }
    var handlerName := connected.value.0;
    var ok := rpc.Write(Wire(NotifyPunch.RpcTag));
    if !ok {
      return Err(SendFailed), call;
    }
    if !cfg.file.Present? {
      return Err(ConfigFailed(UsersConfig.ReadFailed)), call;
    }
    var password, lastPushNum := FindCredentials(cfg.file.conf.getWorkspaces, wsName, owner);
    var publicKey := UsersConfig.GetPublicKeyUsingUsername(disk.files, env.othersKeys, owner);
    if publicKey.Err? {
      return Err(KeyFailed), call;
    }
    var encrypted := env.rsaEncrypt(password, publicKey.value);
    if encrypted.None? {
      return Err(EncryptFailed), call;
    }
    var c := MetaDataCall(NotifyPunch.CallName(handlerName, "GetMetaData"), env.myUsername, env.myServerIp,
                          wsName, encrypted.value, lastPushNum);
    call := Some(c);
    var res := env.getMetaData(c);
    if res.Err? {
      return Err(MetaDataFailed(res.error)), call;
    }
    return Ok(res.value), call;
  }

  /** The end of `PullWorkspace`: fetch and apply the owner's data, then
      record the owner's push number as the followed workspace's last one. */
  method FetchThenBookmark(cfg: UsersConfig.UserConfigFile, disk: Disk, data: ShareData.Session,
                           wsName: string, md: Handler.MetaData, fetch: FetchEnv, writeOk: bool)
    returns (err: Option<PullError>, ghost staged: map<Path, Bytes>, ghost applied: map<Path, Bytes>)
    requires disk.Valid()
    modifies cfg, disk, data
    ensures disk.Valid()
    ensures err.Some? ==> cfg.file == old(cfg.file)
    ensures err.None? ==>
      && old(cfg.file).Present?
      && cfg.file == UsersConfig.Present(UsersConfig.WithLastPushNum(old(cfg.file).conf, wsName, md.lastPushNum))
      && var key := fetch.rsaDecrypt(md.keyBytes);
      && var iv := fetch.rsaDecrypt(md.ivBytes);
      && var wsPath := UsersConfig.GetWorkspacePath(old(cfg.file), wsName);
      && key.Some? && iv.Some? && |iv.value| == Aes.BlockSize && wsPath.Ok?
      && Downloaded(old(disk.files), old(disk.dirs), old(data.incoming), old(data.sent), old(data.writable),
                    disk.files, disk.dirs, data.sent, SplitPath(wsPath.value), wsName, md, key.value, iv.value, fetch,
                    None, staged, applied)
  {
    var fetchErr;
    fetchErr, staged, applied := FetchAndStoreDataIntoWorkspace(cfg, disk, data, wsName, md, fetch);
    if fetchErr.Some? {
      return fetchErr, staged, applied;
    }
    var updateErr := cfg.UpdateLastPushNumInGetWorkspaceFolderToUserConfig(wsName, md.lastPushNum, writeOk);
    if updateErr.Some? {
      return Some(ConfigFailed(updateErr.value)), staged, applied;
    }
    return None, staged, applied;
  }
}

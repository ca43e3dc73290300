/** The owner's answer to a punch notification (handler/notify-punch.go):
    pick a local port and a fresh handler name, report the owner's
    addresses, then punch towards the listener and serve the KCP sessions
    that come in on the punched socket under a per-handler RPC name.

    The punch and the server run in a goroutine after the reply; here
    `HandleNotifyToPunchRequest` returns what that goroutine is started
    with, and `PunchAndServe` is its body. STUN, the private-address lookup
    and the random draws are parameters. */
module NotifyPunch {
  import opened Common
  import opened FileSystem
  import UsersConfig
  import Aes
  import ShareData
  import NatPunching

  /** Local ports are drawn from [16384, 32768). */
  const PortBase := 16384

  /** `CLIENT_BASE_HANDLER_NAME`, the prefix of every handler's RPC name. */
  const ClientHandlerPrefix := "ClientHandler"

  /** The local port for a draw of `rand.Intn(16384)`. */
  function LocalPort(draw: nat): (port: nat)
    requires draw < PortBase
    ensures PortBase <= port < 2 * PortBase
    ensures port - PortBase == draw
  {
    draw + PortBase
  }

  /** Whether `name` is not yet in the list of handler names. */
  function Fresh(taken: seq<string>): string -> bool
  {
    (name: string) => name !in taken
  }

  /** `clientHandlerNameManager`: the handler names in use. Nothing in the
      program adds to the list, so it stays as it was initialised. */
  class HandlerNames {
    var taken: seq<string>

    constructor ()
      ensures taken == []
    {
      taken := [];
    }

    /** The retry loop: random names are drawn until one is not in the list.
        `candidates` are the successive draws; when every one of them is
        taken the Go loop would go on drawing, and the model gives up. */
    method ChooseName(candidates: seq<string>) returns (name: Option<string>)
      ensures name.Some? ==> name.value !in taken
      ensures name.Some? ==>
        (FirstIndex(candidates, Fresh(taken)).Some? && name.value == candidates[FirstIndex(candidates, Fresh(taken)).value])
      ensures name.None? <==> forall i :: 0 <= i < |candidates| ==> candidates[i] in taken
    {
      var i := 0;
      while i < |candidates| && candidates[i] in taken
        invariant 0 <= i <= |candidates|
        invariant forall j :: 0 <= j < i ==> candidates[j] in taken
      {
        i := i + 1;
      }
      if i == |candidates| {
        return None;
      }
      ChosenIsFirstFresh(taken, candidates, i);
      return Some(candidates[i]);
    }
  }

  /** The first fresh draw is the one taken. */
  lemma ChosenIsFirstFresh(taken: seq<string>, candidates: seq<string>, i: nat)
    requires i < |candidates| && candidates[i] !in taken
    requires forall j :: 0 <= j < i ==> candidates[j] in taken
    ensures FirstIndex(candidates, Fresh(taken)) == Some(i)
  {
    assert Fresh(taken)(candidates[i]);
    var r := FirstIndex(candidates, Fresh(taken));
    assert Fresh(taken)(candidates[r.value]);
  }

  datatype NotifyError = PublicIpFailed | PublicIpPanicked | PrivateIpFailed | ListenFailed | NoFreshName

  /** What the punching goroutine is started with. */
  datatype PunchPlan = PunchPlan(target: string, name: string, localPort: nat)

  /** The reply: public IP, public port, private IP and local port. */
  datatype Reply = Reply(publicIp: string, publicPort: string, privateIp: string, localPort: string)

  /** `HandleNotifyToPunchRequest`. `myPublic` is what STUN reports for the
      local port as `ip:port`; a text without ':' makes the Go program index
      out of range and is `PublicIpPanicked` here. */
  method HandleNotifyToPunchRequest(names: HandlerNames,
                                    peerPublicIp: string, peerPublicPort: string,
                                    peerPrivateIp: string, peerPrivatePort: string,
                                    draw: nat, myPublic: Option<string>, myPrivate: Option<string>,
                                    listenOk: bool, candidates: seq<string>)
    returns (r: Result<Reply, NotifyError>, plan: Option<PunchPlan>)
    requires draw < PortBase
    ensures r.Err? <==> plan.None?
    ensures myPublic.None? ==> r == Err(PublicIpFailed)
    ensures myPublic.Some? && NatPunching.SplitHostPort(myPublic.value).None? ==> r == Err(PublicIpPanicked)
    ensures myPublic.Some? && NatPunching.SplitHostPort(myPublic.value).Some? ==>
      var mine := NatPunching.SplitHostPort(myPublic.value).value;
      && (myPrivate.None? ==> r == Err(PrivateIpFailed))
      && (myPrivate.Some? && !listenOk ==> r == Err(ListenFailed))
      && (myPrivate.Some? && listenOk && r.Ok? ==>
            && r.value == Reply(mine.0, mine.1, myPrivate.value, IntToString(LocalPort(draw)))
            && plan.value.target == NatPunching.PunchTarget(peerPublicIp, peerPublicPort, peerPrivateIp, peerPrivatePort, mine.0)
            && plan.value.localPort == LocalPort(draw)
            && plan.value.name !in names.taken
            && FirstIndex(candidates, Fresh(names.taken)).Some?
            && plan.value.name == candidates[FirstIndex(candidates, Fresh(names.taken)).value])
      && (myPrivate.Some? && listenOk ==> (r == Err(NoFreshName) <==> forall i :: 0 <= i < |candidates| ==> candidates[i] in names.taken))
      && (myPrivate.Some? && listenOk ==> (r.Ok? <==> exists i :: 0 <= i < |candidates| && candidates[i] !in names.taken))
  {
    var port := LocalPort(draw);
    if myPublic.None? {
      return Err(PublicIpFailed), None;
    }
    var split := NatPunching.SplitHostPort(myPublic.value);
    if split.None? {
      return Err(PublicIpPanicked), None;
    }
    var (ip, publicPort) := split.value;
    if myPrivate.None? {
      return Err(PrivateIpFailed), None;
    }
    if !listenOk {
      return Err(ListenFailed), None;
    }
    var name := names.ChooseName(candidates);
    if name.None? {
      return Err(NoFreshName), None;
    }
    var target := NatPunching.PunchTarget(peerPublicIp, peerPublicPort, peerPrivateIp, peerPrivatePort, ip);
    return Ok(Reply(ip, publicPort, myPrivate.value, IntToString(port))), Some(PunchPlan(target, name.value, port));
  }

  // ---------------------------------------------------------------------
  // RPC names
  // ---------------------------------------------------------------------

  /** The name a handler's RPC service is registered under. */
  function ServiceName(handlerName: string): string
  {
    ClientHandlerPrefix + handlerName
  }

  /** The name a listener calls a method of that handler by
      (dialer/kcp-rpc.go). */
  function CallName(handlerName: string, methodName: string): string
  {
    ClientHandlerPrefix + handlerName + "." + methodName
  }

  /** Index of the last `c` in `s`. */
  function LastIndexOf(s: string, c: char): (r: Option<nat>)
    ensures r.Some? ==> r.value < |s| && s[r.value] == c && c !in s[r.value + 1..]
    ensures r.None? ==> c !in s
    decreases |s|
  {
    if |s| == 0 then None
    else if s[|s| - 1] == c then Some(|s| - 1)
    else
      var r := LastIndexOf(s[..|s| - 1], c);
      assert r.Some? ==> s[r.value + 1..] == s[..|s| - 1][r.value + 1..] + [s[|s| - 1]];
      r
  }

  /** How `net/rpc` splits a call name: service and method around the last '.'. */
  function SplitCallName(call: string): (r: Option<(string, string)>)
    ensures r.None? <==> '.' !in call
    ensures r.Some? ==> call == r.value.0 + "." + r.value.1 && '.' !in r.value.1
  {
    match LastIndexOf(call, '.')
    case None => None
    case Some(i) =>
      assert call == call[..i] + "." + call[i + 1..];
      Some((call[..i], call[i + 1..]))
  }

  /** A call made by name reaches the service registered under that name:
      the server recovers the handler's service name and the method. */
  lemma CallReachesService(handlerName: string, methodName: string)
    requires '.' !in methodName
    ensures SplitCallName(CallName(handlerName, methodName)) == Some((ServiceName(handlerName), methodName))
  {
    var call := CallName(handlerName, methodName);
    var k := |ServiceName(handlerName)|;
    assert call[k] == '.';
    assert call[k + 1..] == methodName;
    assert forall j :: k < j < |call| ==> call[j] == methodName[j - k - 1];
    var r := LastIndexOf(call, '.');
    assert call[..k] == ServiceName(handlerName);
  }

  /** The RPC server's table of registered service names. */
  class RpcServer {
    var services: set<string>

    constructor ()
      ensures services == {}
    {
      services := {};
    }

    /** `RegisterName`: refused for a name already registered. */
    method RegisterName(name: string) returns (ok: bool)
      modifies this
      ensures ok <==> name !in old(services)
      ensures services == old(services) + {name}
    {
      ok := name !in services;
      services := services + {name};
    }
  }

  // ---------------------------------------------------------------------
  // The KCP server on the punched socket
  // ---------------------------------------------------------------------

  /** The KCP listener: the sessions it accepts before the first accept
      error (the 5-minute deadline among them), and the ones it has handed
      to a goroutine. */
  class KcpListener {
    var pending: seq<ShareData.Session>
    var spawned: seq<ShareData.Session>
    var closed: bool

    constructor (pending: seq<ShareData.Session>)
      ensures this.pending == pending && spawned == [] && !closed
    {
      this.pending := pending;
      spawned := [];
      closed := false;
    }
  }

  /** The accept loop: every accepted session goes to its own goroutine,
      and the first accept error closes the listener and ends the server. */
  method AcceptLoop(lis: KcpListener)
    modifies lis
    ensures lis.pending == [] && lis.closed
    ensures lis.spawned == old(lis.spawned) + old(lis.pending)
  {
    while lis.pending != []
      invariant lis.spawned + lis.pending == old(lis.spawned) + old(lis.pending)
      decreases |lis.pending|
    {
      lis.spawned := lis.spawned + [lis.pending[0]];
      lis.pending := lis.pending[1..];
    }
    lis.closed := true;
  }

  datatype ServeError = RegisterFailed | KcpListenFailed

  /** `StartNewNewServer`: registers the handler's RPC service, then runs
      the accept loop. */
  method StartNewNewServer(rpc: RpcServer, lis: KcpListener, handlerName: string, listenOk: bool)
    returns (err: Option<ServeError>)
    modifies rpc, lis
    ensures rpc.services == old(rpc.services) + {ServiceName(handlerName)}
    ensures ServiceName(handlerName) in old(rpc.services) ==>
      err == Some(RegisterFailed) && lis.spawned == old(lis.spawned) && lis.pending == old(lis.pending)
    ensures ServiceName(handlerName) !in old(rpc.services) && !listenOk ==>
      err == Some(KcpListenFailed) && lis.spawned == old(lis.spawned) && lis.pending == old(lis.pending)
    ensures ServiceName(handlerName) !in old(rpc.services) && listenOk ==>
      err.None? && lis.closed && lis.pending == [] && lis.spawned == old(lis.spawned) + old(lis.pending)
  {
    var ok := rpc.RegisterName(ServiceName(handlerName));
    if !ok {
      return Some(RegisterFailed);
    }
    if !listenOk {
      return Some(KcpListenFailed);
    }
    AcceptLoop(lis);
    return None;
  }

  /** The goroutine started after the reply: punch, then serve. */
  method PunchAndServe(plan: PunchPlan, conn: NatPunching.UdpSocket, resolvable: bool,
                       rpc: RpcServer, lis: KcpListener, listenOk: bool)
    returns (punchErr: Option<NatPunching.PunchError>, serveErr: Option<ServeError>)
    modifies conn, rpc, lis
    ensures punchErr.Some? ==> serveErr.None? && rpc.services == old(rpc.services) && lis.spawned == old(lis.spawned)
    ensures punchErr.None? ==> rpc.services == old(rpc.services) + {ServiceName(plan.name)}
    ensures punchErr.None? && serveErr.None? ==> lis.closed && lis.spawned == old(lis.spawned) + old(lis.pending)
    ensures punchErr.None? ==>
      serveErr == (if ServiceName(plan.name) in old(rpc.services) then Some(RegisterFailed)
                   else if !listenOk then Some(KcpListenFailed)
                   else None)
    ensures !resolvable ==> punchErr == Some(NatPunching.ResolveFailed)
    ensures resolvable ==>
      (punchErr.None? <==>
        NatPunching.OwnerWait(old(conn.inbox), plan.target,
                              old(conn.writable) - NatPunching.Min(NatPunching.PunchAttempts, old(conn.writable))).OwnerConnected?)
  {
    punchErr := NatPunching.WorkspaceOwnerUdpNatPunching(conn, plan.target, resolvable, plan.name);
    if punchErr.Some? {
      return punchErr, None;
    }
    serveErr := StartNewNewServer(rpc, lis, plan.name, listenOk);
  }

  // ---------------------------------------------------------------------
  // Session dispatch
  // ---------------------------------------------------------------------

  /** The bytes of the 3-byte type buffer after one read into it: what was
      read, the rest left zero. */
  function SessionTag(read: Bytes): (tag: Bytes)
    requires |read| <= 3
    ensures |tag| == 3 && tag[..|read|] == read
    ensures forall i :: |read| <= i < 3 ==> tag[i] == 0
  {
    read + seq(3 - |read|, _ => 0)
  }

  const KcpTag := "KCP"
  const RpcTag := "RPC"

  datatype SessionOutcome =
    | TagMissing
    | DataServed(outcome: ShareData.Outcome)
    | RpcServed
    | UnknownSession(tag: Bytes)

  /** The goroutine body for one accepted session: the type is read into a
      3-byte buffer; "KCP" is a bulk transfer, "RPC" is served by the RPC
      server, and any other type ends the session. */
  method DispatchSession(users: UsersConfig.UserConfigFile, disk: Disk, session: ShareData.Session, ks: Aes.Keystream)
    returns (o: SessionOutcome)
    requires ShareData.CloneIvsAreBlocks(disk.files)
    modifies session
    ensures var m := ShareData.ReadMsg(old(session.incoming), 3);
      && (m.None? ==> o == TagMissing && session.sent == old(session.sent))
      && (m.Some? && SessionTag(m.value.0) == Wire(KcpTag) ==>
            o.DataServed? &&
            var req := ShareData.ParseRequest(m.value.1);
            && (req.None? ==> o.outcome == ShareData.RequestIncomplete && session.sent == old(session.sent))
            && (req.Some? ==>
                  ShareData.Dispatched(users.file, disk.files, disk.dirs, req.value,
                                       old(session.sent), old(session.writable), session.sent, o.outcome, ks)))
      && (m.Some? && SessionTag(m.value.0) == Wire(RpcTag) ==> o == RpcServed)
      && (m.Some? && SessionTag(m.value.0) != Wire(KcpTag) && SessionTag(m.value.0) != Wire(RpcTag) ==>
            o == UnknownSession(SessionTag(m.value.0)) && session.sent == old(session.sent))
  {
    var read := session.Read(3);
    if read.None? {
      return TagMissing;
    }
    var tag := SessionTag(read.value);
    if tag == Wire(KcpTag) {
      TagsDistinct();
      var outcome := ShareData.GetDataHandler(users, disk, session, ks);
      return DataServed(outcome);
    } else if tag == Wire(RpcTag) {
      return RpcServed;
    }
    return UnknownSession(tag);
  }

  /** The two tags differ. */
  lemma TagsDistinct()
    ensures Wire(KcpTag) != Wire(RpcTag)
  {
    assert Wire(KcpTag)[0] != Wire(RpcTag)[0];
  }

  /** A type message shorter than three bytes is padded with zeros and so
      never matches either tag. */
  lemma ShortTagUnknown(read: Bytes)
    requires |read| < 3
    ensures SessionTag(read) != Wire(KcpTag) && SessionTag(read) != Wire(RpcTag)
  {
    assert SessionTag(read)[2] == 0;
    assert Wire(KcpTag)[2] != 0 && Wire(RpcTag)[2] != 0;
  }
}

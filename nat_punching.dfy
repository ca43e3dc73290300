/** UDP hole punching between a workspace owner and a listener
    (dialer/nat-punching.go). Each side fires a burst of punch datagrams at
    the other's address, then reads datagrams until one from that address
    settles the exchange or the 30-second read deadline passes. The owner
    hands its RPC handler name to the listener inside its datagrams.

    The socket is a queue of the datagrams that arrive before the deadline
    (an empty queue is the timeout or a read error), a log of the datagrams
    written, and a budget of writes that succeed. */
module NatPunching {
  import opened Common

  /** `PUNCH_ATTEMPTS`: datagrams in each burst. */
  const PunchAttempts := 5
  /** The buffer datagrams are read into; a longer datagram is cut. */
  const DatagramBuffer := 512

  const PunchMsg := "Punch"
  const PunchAckMsg := "Punch ACK"

  /** The owner's punch, carrying its handler name. */
  function OwnerPunch(name: string): string
  {
    PunchMsg + ";" + name
  }

  /** The owner's answer to a listener's punch, carrying its handler name. */
  function OwnerAck(name: string): string
  {
    PunchAckMsg + ";" + name
  }

  datatype Datagram = Datagram(from: string, payload: Bytes)

  /** The text of a datagram as read into the 512-byte buffer. */
  function Received(payload: Bytes): (msg: string)
    ensures |msg| <= DatagramBuffer
    ensures |payload| <= DatagramBuffer ==> msg == FromBytes(payload)
    ensures |payload| > DatagramBuffer ==> msg == FromBytes(payload[..DatagramBuffer])
  {
    if |payload| <= DatagramBuffer then FromBytes(payload) else FromBytes(payload[..DatagramBuffer])
  }

  /** A short protocol text arrives as itself. */
  lemma ReceivedText(s: string)
    requires IsByteString(s) && |s| <= DatagramBuffer
    ensures Received(Wire(s)) == s
  {
    WireRoundTrip(s);
  }

  function Min(a: nat, b: nat): nat
  {
    if a <= b then a else b
  }

  /** `k` copies of one datagram. */
  function Repeat(b: Bytes, k: nat): (r: seq<Bytes>)
    ensures |r| == k && forall i :: 0 <= i < k ==> r[i] == b
  {
    seq(k, _ => b)
  }

  class UdpSocket {
    /** The datagrams that arrive before the read deadline, in order. */
    var inbox: seq<Datagram>
    /** The datagrams written to the peer, in order. */
    var sent: seq<Bytes>
    /** How many more writes succeed. */
    var writable: nat
    /** Whether a read deadline is set on the socket. */
    var deadline: bool

    constructor (inbox: seq<Datagram>, writable: nat)
      ensures this.inbox == inbox && sent == [] && this.writable == writable && !deadline
    {
      this.inbox := inbox;
      sent := [];
      this.writable := writable;
      deadline := false;
    }

    /** `WriteToUDP` to the peer. */
    method WriteTo(payload: Bytes) returns (ok: bool)
      modifies this
      ensures inbox == old(inbox) && deadline == old(deadline)
      ensures ok <==> old(writable) > 0
      ensures ok ==> sent == old(sent) + [payload] && writable == old(writable) - 1
      ensures !ok ==> sent == old(sent) && writable == old(writable)
    {
      if writable == 0 {
        return false;
      }
      sent := sent + [payload];
      writable := writable - 1;
      return true;
    }

    /** `ReadFromUDP`: the next datagram, or the read error once none is left. */
    method ReadFrom() returns (d: Option<Datagram>)
      modifies this
      ensures sent == old(sent) && writable == old(writable) && deadline == old(deadline)
      ensures old(inbox) == [] ==> d.None? && inbox == []
      ensures old(inbox) != [] ==> d == Some(old(inbox)[0]) && inbox == old(inbox)[1..]
    {
      if inbox == [] {
        return None;
      }
      d := Some(inbox[0]);
      inbox := inbox[1..];
    }
  }

  /** The burst: five writes of the same datagram, failures ignored. */
  method SendPunches(conn: UdpSocket, payload: Bytes)
    modifies conn
    ensures conn.inbox == old(conn.inbox) && conn.deadline == old(conn.deadline)
    ensures conn.sent == old(conn.sent) + Repeat(payload, Min(PunchAttempts, old(conn.writable)))
    ensures conn.writable == old(conn.writable) - Min(PunchAttempts, old(conn.writable))
  {
    for i := 0 to PunchAttempts
      invariant conn.inbox == old(conn.inbox) && conn.deadline == old(conn.deadline)
      invariant conn.sent == old(conn.sent) + Repeat(payload, Min(i, old(conn.writable)))
      invariant conn.writable == old(conn.writable) - Min(i, old(conn.writable))
    {
      var _ := conn.WriteTo(payload);
    }
  }

  // ---------------------------------------------------------------------
  // The owner's side
  // ---------------------------------------------------------------------

  datatype PunchError = ResolveFailed | ReadFailed | Panicked

  datatype OwnerResult = OwnerTimedOut | OwnerConnected(replied: bool)

  /** The owner stops at a datagram from the peer that is exactly "Punch"
      (once its reply went out) or exactly "Punch ACK". */
  predicate OwnerAccepts(d: Datagram, peer: string, writable: nat)
  {
    d.from == peer && ((Received(d.payload) == PunchMsg && writable > 0) || Received(d.payload) == PunchAckMsg)
  }

  /** The owner's read loop over the datagrams that arrive: a "Punch" is
      answered and ends the loop unless the answer cannot be written, in
      which case reading goes on; a "Punch ACK" ends it; anything else, and
      anything from another address, is skipped. */
  function OwnerWait(inbox: seq<Datagram>, peer: string, writable: nat): OwnerResult
  {
    if inbox == [] then OwnerTimedOut
    else
      var d := inbox[0];
      if d.from == peer && Received(d.payload) == PunchMsg && writable > 0 then OwnerConnected(true)
      else if d.from == peer && Received(d.payload) == PunchAckMsg then OwnerConnected(false)
      else OwnerWait(inbox[1..], peer, writable)
  }

  /** The owner connects exactly when some datagram it reads is accepted. */
  lemma {:induction false} OwnerConnectsIffAccepted(inbox: seq<Datagram>, peer: string, writable: nat)
    ensures OwnerWait(inbox, peer, writable).OwnerConnected? <==>
      exists i :: 0 <= i < |inbox| && OwnerAccepts(inbox[i], peer, writable)
  {
    if inbox != [] {
      OwnerConnectsIffAccepted(inbox[1..], peer, writable);
      if !OwnerAccepts(inbox[0], peer, writable) {
        assert forall i :: 1 <= i < |inbox| ==> inbox[i] == inbox[1..][i - 1];
        if OwnerWait(inbox[1..], peer, writable).OwnerConnected? {
          var i :| 0 <= i < |inbox[1..]| && OwnerAccepts(inbox[1..][i], peer, writable);
          assert OwnerAccepts(inbox[i + 1], peer, writable);
        }
      }
    }
  }

  /** Datagrams the owner does not accept change nothing. */
  lemma {:induction false} OwnerSkipsOthers(junk: seq<Datagram>, inbox: seq<Datagram>, peer: string, writable: nat)
    requires forall i :: 0 <= i < |junk| ==> !OwnerAccepts(junk[i], peer, writable)
    ensures OwnerWait(junk + inbox, peer, writable) == OwnerWait(inbox, peer, writable)
  {
    if junk != [] {
      assert (junk + inbox)[0] == junk[0];
      assert !OwnerAccepts(junk[0], peer, writable);
      assert (junk + inbox)[1..] == junk[1..] + inbox;
      OwnerSkipsOthers(junk[1..], inbox, peer, writable);
    } else {
      assert junk + inbox == inbox;
    }
  }

  /** The owner's read loop. */
  method OwnerAwait(conn: UdpSocket, peerAddr: string, name: string) returns (r: OwnerResult)
    modifies conn
    ensures conn.deadline == old(conn.deadline)
    ensures r == OwnerWait(old(conn.inbox), peerAddr, old(conn.writable))
    ensures r == OwnerConnected(true) ==> conn.sent == old(conn.sent) + [Wire(OwnerAck(name))]
    ensures r != OwnerConnected(true) ==> conn.sent == old(conn.sent)
  {
    while true
      invariant conn.deadline == old(conn.deadline) && conn.writable == old(conn.writable)
      invariant conn.sent == old(conn.sent)
      invariant OwnerWait(conn.inbox, peerAddr, conn.writable) == OwnerWait(old(conn.inbox), peerAddr, old(conn.writable))
      decreases |conn.inbox|
    {
      var d := conn.ReadFrom();
      if d.None? {
        return OwnerTimedOut;
      }
      var msg := Received(d.value.payload);
      if d.value.from == peerAddr {
        if msg == PunchMsg {
          var ok := conn.WriteTo(Wire(OwnerAck(name)));
          if !ok {
            continue;
          }
          return OwnerConnected(true);
        } else if msg == PunchAckMsg {
          return OwnerConnected(false);
        }
      }
    }
  }

  /** `WorkspaceOwnerUdpNatPunching`: the burst of "Punch;<name>", then the
      read loop under a deadline that is cleared again on the way out. */
  method WorkspaceOwnerUdpNatPunching(conn: UdpSocket, peerAddr: string, resolvable: bool, name: string)
    returns (err: Option<PunchError>)
    modifies conn
    ensures !resolvable ==> err == Some(ResolveFailed) && conn.sent == old(conn.sent) && conn.deadline == old(conn.deadline)
    ensures resolvable ==> !conn.deadline
    ensures resolvable ==>
      var k := Min(PunchAttempts, old(conn.writable));
      var punched := old(conn.sent) + Repeat(Wire(OwnerPunch(name)), k);
      match OwnerWait(old(conn.inbox), peerAddr, old(conn.writable) - k)
      case OwnerTimedOut => err == Some(ReadFailed) && conn.sent == punched
      case OwnerConnected(replied) =>
        err.None? && conn.sent == punched + (if replied then [Wire(OwnerAck(name))] else [])
  {
    if !resolvable {
      return Some(ResolveFailed);
    }
    SendPunches(conn, Wire(OwnerPunch(name)));
    conn.deadline := true;
    var r := OwnerAwait(conn, peerAddr, name);
    conn.deadline := false;
    if r.OwnerTimedOut? {
      return Some(ReadFailed);
    }
    return None;
  }

  // ---------------------------------------------------------------------
  // The listener's side
  // ---------------------------------------------------------------------

  /** `strings.Split(msg, ";")[1]`: the text between the first ';' and the
      next one (or the end); without a ';' the index is out of range. */
  function SecondField(msg: string): (r: Option<string>)
    ensures r.None? <==> ';' !in msg
    ensures r.Some? ==> ';' !in r.value
  {
    match IndexOf(msg, ';')
    case None => None
    case Some(i) =>
      var rest := msg[i + 1..];
      match IndexOf(rest, ';')
      case None => Some(rest)
      case Some(j) => Some(rest[..j])
  }

  /** A name with no ';' is recovered from a payload `<prefix>;<name>`. */
  lemma SecondFieldOfPayload(prefix: string, name: string)
    requires ';' !in prefix && ';' !in name
    ensures SecondField(prefix + ";" + name) == Some(name)
  {
    var s := prefix + ";" + name;
    assert s[|prefix|] == ';';
    assert s[..|prefix|] == prefix;
    IndexOfAt(s, ';', |prefix|);
    assert s[|prefix| + 1..] == name;
  }

  datatype ListenerResult = ListenerTimedOut | ListenerConnected(name: string) | ListenerPanicked

  /** The listener's read loop: every datagram from the peer that starts
      with "Punch" (which includes every "Punch ACK...") takes the first
      branch, whose name lookup fails on a text without ';'; the answer
      "Punch ACK" must go out for the loop to end, otherwise reading goes
      on. The branch for a "Punch ACK" prefix after it is never reached. */
  function ListenerWait(inbox: seq<Datagram>, peer: string, writable: nat): ListenerResult
  {
    if inbox == [] then ListenerTimedOut
    else
      var msg := Received(inbox[0].payload);
      if inbox[0].from == peer && HasPrefix(msg, PunchMsg) then
        match SecondField(msg)
        case None => ListenerPanicked
        case Some(name) => if writable > 0 then ListenerConnected(name) else ListenerWait(inbox[1..], peer, writable)
      else ListenerWait(inbox[1..], peer, writable)
  }

  /** Every text the second branch would take is already taken by the first. */
  lemma AckBranchUnreachable(msg: string)
    ensures HasPrefix(msg, PunchAckMsg) ==> HasPrefix(msg, PunchMsg)
  {
    if HasPrefix(msg, PunchAckMsg) {
      assert msg[..|PunchMsg|] == msg[..|PunchAckMsg|][..|PunchMsg|];
    }
  }

  /** Datagrams from other addresses, or from the peer without the "Punch"
      prefix, change nothing. */
  lemma {:induction false} ListenerSkipsOthers(junk: seq<Datagram>, inbox: seq<Datagram>, peer: string, writable: nat)
    requires forall i :: 0 <= i < |junk| ==> junk[i].from != peer || !HasPrefix(Received(junk[i].payload), PunchMsg)
    ensures ListenerWait(junk + inbox, peer, writable) == ListenerWait(inbox, peer, writable)
  {
    if junk != [] {
      assert (junk + inbox)[0] == junk[0];
      assert (junk + inbox)[1..] == junk[1..] + inbox;
      ListenerSkipsOthers(junk[1..], inbox, peer, writable);
    } else {
      assert junk + inbox == inbox;
    }
  }

  /** A datagram `<prefix>;<name>` from the peer, with "Punch" at its head,
      gives the listener that name once its answer goes out. */
  lemma ListenerReadsName(prefix: string, name: string, peer: string, later: seq<Datagram>, writable: nat)
    requires IsByteString(prefix + ";" + name) && |prefix + ";" + name| <= DatagramBuffer
    requires ';' !in prefix && ';' !in name && HasPrefix(prefix, PunchMsg)
    requires writable > 0
    ensures ListenerWait([Datagram(peer, Wire(prefix + ";" + name))] + later, peer, writable) == ListenerConnected(name)
  {
    var msg := prefix + ";" + name;
    ReceivedText(msg);
    SecondFieldOfPayload(prefix, name);
    assert msg[..|PunchMsg|] == prefix[..|PunchMsg|];
  }

  /** The handshake carries the name: whichever of its two datagrams the
      owner's first one to arrive is, the listener recovers the owner's
      handler name from it, provided the name holds no ';'. */
  lemma HandshakeCarriesName(name: string, peer: string, later: seq<Datagram>, writable: nat)
    requires IsByteString(name) && ';' !in name && |OwnerAck(name)| <= DatagramBuffer
    requires writable > 0
    ensures ListenerWait([Datagram(peer, Wire(OwnerPunch(name)))] + later, peer, writable) == ListenerConnected(name)
    ensures ListenerWait([Datagram(peer, Wire(OwnerAck(name)))] + later, peer, writable) == ListenerConnected(name)
  {
    assert forall i :: 0 <= i < |OwnerPunch(name)| ==> OwnerPunch(name)[i] as int < 256 by {
      forall i | 0 <= i < |OwnerPunch(name)| ensures OwnerPunch(name)[i] as int < 256 {
        if i > |PunchMsg| { assert OwnerPunch(name)[i] == name[i - |PunchMsg| - 1]; }
      }
    }
    assert forall i :: 0 <= i < |OwnerAck(name)| ==> OwnerAck(name)[i] as int < 256 by {
      forall i | 0 <= i < |OwnerAck(name)| ensures OwnerAck(name)[i] as int < 256 {
        if i > |PunchAckMsg| { assert OwnerAck(name)[i] == name[i - |PunchAckMsg| - 1]; }
      }
    }
    ListenerReadsName(PunchMsg, name, peer, later, writable);
    ListenerReadsName(PunchAckMsg, name, peer, later, writable);
  }

  /** And the owner accepts both datagrams the listener sends. */
  lemma HandshakeCompletesOwner(peer: string, later: seq<Datagram>, writable: nat)
    requires writable > 0
    ensures OwnerWait([Datagram(peer, Wire(PunchMsg))] + later, peer, writable) == OwnerConnected(true)
    ensures OwnerWait([Datagram(peer, Wire(PunchAckMsg))] + later, peer, writable) == OwnerConnected(false)
  {
    ReceivedText(PunchMsg);
    ReceivedText(PunchAckMsg);
  }

  /** A "Punch" datagram from the peer without a ';' is fatal to the listener. */
  lemma BarePunchPanics(peer: string, later: seq<Datagram>, writable: nat)
    ensures ListenerWait([Datagram(peer, Wire(PunchMsg))] + later, peer, writable) == ListenerPanicked
  {
    var inbox := [Datagram(peer, Wire(PunchMsg))] + later;
    ReceivedText(PunchMsg);
    assert inbox[0].payload == Wire(PunchMsg);
    assert PunchMsg[..|PunchMsg|] == PunchMsg;
    assert HasPrefix(Received(inbox[0].payload), PunchMsg);
    assert forall i :: 0 <= i < |PunchMsg| ==> PunchMsg[i] != ';';
    assert SecondField(PunchMsg) == None;
  }

  /** The listener's read loop. */
  method ListenerAwait(conn: UdpSocket, peerAddr: string) returns (r: ListenerResult)
    modifies conn
    ensures conn.deadline == old(conn.deadline)
    ensures r == ListenerWait(old(conn.inbox), peerAddr, old(conn.writable))
    ensures r.ListenerConnected? ==> conn.sent == old(conn.sent) + [Wire(PunchAckMsg)]
    ensures !r.ListenerConnected? ==> conn.sent == old(conn.sent)
  {
    while true
      invariant conn.deadline == old(conn.deadline) && conn.writable == old(conn.writable)
      invariant conn.sent == old(conn.sent)
      invariant ListenerWait(conn.inbox, peerAddr, conn.writable) == ListenerWait(old(conn.inbox), peerAddr, old(conn.writable))
      decreases |conn.inbox|
    {
      var d := conn.ReadFrom();
      if d.None? {
        return ListenerTimedOut;
      }
      var msg := Received(d.value.payload);
      if d.value.from == peerAddr && HasPrefix(msg, PunchMsg) {
        var field := SecondField(msg);
        if field.None? {
          return ListenerPanicked;
        }
        var ok := conn.WriteTo(Wire(PunchAckMsg));
        if !ok {
          continue;
        }
        return ListenerConnected(field.value);
      }
    }
  }

  /** `WorkspaceListenerUdpNatHolePunching`: the burst of bare "Punch", then
      the read loop; the owner's handler name is the result. A run that the
      Go program ends with a panic ends here with `Panicked`. */
  method WorkspaceListenerUdpNatHolePunching(conn: UdpSocket, peerAddr: string, resolvable: bool)
    returns (r: Result<string, PunchError>)
    modifies conn
    ensures !resolvable ==> r == Err(ResolveFailed) && conn.sent == old(conn.sent) && conn.deadline == old(conn.deadline)
    ensures resolvable ==> !conn.deadline
    ensures resolvable ==>
      var k := Min(PunchAttempts, old(conn.writable));
      var punched := old(conn.sent) + Repeat(Wire(PunchMsg), k);
      match ListenerWait(old(conn.inbox), peerAddr, old(conn.writable) - k)
      case ListenerTimedOut => r == Err(ReadFailed) && conn.sent == punched
      case ListenerPanicked => r == Err(Panicked) && conn.sent == punched
      case ListenerConnected(name) => r == Ok(name) && conn.sent == punched + [Wire(PunchAckMsg)]
  {
    if !resolvable {
      return Err(ResolveFailed);
    }
    SendPunches(conn, Wire(PunchMsg));
    conn.deadline := true;
    var w := ListenerAwait(conn, peerAddr);
    conn.deadline := false;
    match w
    case ListenerTimedOut => return Err(ReadFailed);
    case ListenerPanicked => return Err(Panicked);
    case ListenerConnected(name) => return Ok(name);
  }

  // ---------------------------------------------------------------------
  // The address to punch
  // ---------------------------------------------------------------------

  /** Two peers behind the same public IP reach each other on their private
      addresses; otherwise on their public ones. Both sides of a punch make
      this choice (ws/pull.go and handler/notify-punch.go). */
  predicate ViaPrivate(peerPublicIp: string, myPublicIp: string)
  {
    peerPublicIp == myPublicIp
  }

  /** The `ip:port` a side punches. */
  function PunchTarget(peerPublicIp: string, peerPublicPort: string, peerPrivateIp: string, peerPrivatePort: string,
                       myPublicIp: string): (addr: string)
    ensures ViaPrivate(peerPublicIp, myPublicIp) ==> addr == peerPrivateIp + ":" + peerPrivatePort
    ensures !ViaPrivate(peerPublicIp, myPublicIp) ==> addr == peerPublicIp + ":" + peerPublicPort
  {
    if peerPublicIp == myPublicIp then peerPrivateIp + ":" + peerPrivatePort
    else peerPublicIp + ":" + peerPublicPort
  }

  /** `strings.Split(addr, ":")` taken at indexes 0 and 1: the host and the
      port of an `ip:port` text; a text without ':' has no index 1. */
  function SplitHostPort(addr: string): (r: Option<(string, string)>)
    ensures r.None? <==> ':' !in addr
    ensures r.Some? ==> ':' !in r.value.0 && ':' !in r.value.1
  {
    match IndexOf(addr, ':')
    case None => None
    case Some(i) =>
      var rest := addr[i + 1..];
      match IndexOf(rest, ':')
      case None => Some((addr[..i], rest))
      case Some(j) => Some((addr[..i], rest[..j]))
  }

  /** An IPv4 `ip:port` splits back into its host and port. */
  lemma SplitHostPortRoundTrip(ip: string, port: string)
    requires ':' !in ip && ':' !in port
    ensures SplitHostPort(ip + ":" + port) == Some((ip, port))
  {
    var s := ip + ":" + port;
    assert s[|ip|] == ':';
    assert s[..|ip|] == ip;
    IndexOfAt(s, ':', |ip|);
    assert s[|ip| + 1..] == port;
  }
}

/**
 The UDP ASSOCIATE relay (section 7 of RFC 1928) as a loop over socket events. What the
 peers, the resolver and the network do is carried by the events, so every statement
 below holds for all of their behaviours.
 */
module UdpRelay {
  import opened Basics
  import opened Protocol
  import Utf8

  const MAX_UDP_REMOTE_ENDPOINTS := 1024

  type u32 = x: int | 0 <= x < 0x1_0000_0000

  datatype IpAddr = IpV4(Ip4) | IpV6(Ip6)

  datatype SocketAddr =
    | SocketV4(ip4: Ip4, port: u16)
    | SocketV6(ip6: Ip6, port: u16, flowinfo: u32, scopeId: u32)

  function IpOf(a: SocketAddr): IpAddr {
    match a
    case SocketV4(ip, _) => IpV4(ip)
    case SocketV6(ip, _, _, _) => IpV6(ip)
  }

  /** The wire address of a socket address; the IPv6 flow label and scope are not carried. */
  function FromSocketAddr(a: SocketAddr): Address {
    match a
    case SocketV4(ip, port) => V4(ip, port)
    case SocketV6(ip, port, _, _) => V6(ip, port)
  }

  /** Domain names resolve to whatever the lookup answered. */
  function Resolve(a: Address, lookup: Option<SocketAddr>): Option<SocketAddr> {
    match a
    case V4(ip, port) => Some(SocketV4(ip, port))
    case V6(ip, port) => Some(SocketV6(ip, port, 0, 0))
    case Domain(_, _) => lookup
  }

  /** One wake-up of the relay loop. `lookup` and `sendOk` answer the calls the event leads to. */
  datatype Event =
    | ControlReadFailed
    | ControlClosed
    | ControlData
    | ReceiveFailed
    | Received(packet: seq<byte>, source: SocketAddr, lookup: Option<SocketAddr>, sendOk: bool)

  datatype RelayError =
    | ControlReadError
    | UnexpectedTcpData
    | ReceiveError
    | ResolutionError
    | RequestSendError
    | ResponseSendError
    | EncodeError

  datatype Status = Running | Closed | Failed(error: RelayError)

  /** What becomes visible outside the relay, in order. */
  datatype Output =
    | ToTarget(payload: seq<byte>, target: SocketAddr, delivered: bool)
    | ToClient(wrapped: seq<byte>, client: SocketAddr, delivered: bool)
    | Recorded(error: RelayError)

  datatype Relay = Relay(
    client: Option<SocketAddr>,
    targets: set<SocketAddr>,
    udpBytesIn: u64,
    udpBytesOut: u64,
    relayFailures: u64,
    status: Status)

  const FRESH := Relay(None, {}, 0, 0, 0, Running)

  // ----- the trace semantics

  /** A packet whose header decodes and is not a fragment. */
  predicate Wellformed(packet: seq<byte>) {
    ParseUdpDatagram(packet).Ok? && ParseUdpDatagram(packet).value.Some?
  }

  function ClientPacket(s: Relay, packet: seq<byte>, source: SocketAddr, lookup: Option<SocketAddr>, sendOk: bool)
    : (Relay, seq<Output>)
  {
    if !Wellformed(packet) then (s, []) else
    var datagram := ParseUdpDatagram(packet).value.value;
    var locked := if s.client.None? then s.(client := Some(source)) else s;
    match Resolve(datagram.destination, lookup)
    case None => (locked, [Recorded(ResolutionError)])
    case Some(target) =>
      if target !in locked.targets && |locked.targets| >= MAX_UDP_REMOTE_ENDPOINTS then (locked, [])
      else
        var contacted := locked.(targets := locked.targets + {target});
        if sendOk then
          (contacted.(udpBytesOut := FetchAdd(contacted.udpBytesOut, |datagram.payload|)),
           [ToTarget(datagram.payload, target, true)])
        else
          (contacted.(relayFailures := FetchAdd(contacted.relayFailures, 1)),
           [ToTarget(datagram.payload, target, false), Recorded(RequestSendError)])
  }

  function RemotePacket(s: Relay, client: SocketAddr, packet: seq<byte>, source: SocketAddr, sendOk: bool)
    : (Relay, seq<Output>)
  {
    var counted := s.(udpBytesIn := FetchAdd(s.udpBytesIn, |packet|));
    match EncodeUdpDatagram(FromSocketAddr(source), packet)
    case Err(_) => (counted.(status := Failed(EncodeError)), [])
    case Ok(wrapped) =>
      if sendOk then (counted, [ToClient(wrapped, client, true)])
      else
        (counted.(relayFailures := FetchAdd(s.relayFailures, 1), status := Failed(ResponseSendError)),
         [ToClient(wrapped, client, false), Recorded(ResponseSendError)])
  }

  function Step(tcpPeer: SocketAddr, s: Relay, e: Event): (Relay, seq<Output>) {
    if !s.status.Running? then (s, []) else
    match e
    case ControlReadFailed => (s.(status := Failed(ControlReadError)), [])
    case ControlClosed => (s.(status := Closed), [])
    case ControlData => (s.(status := Failed(UnexpectedTcpData)), [])
    case ReceiveFailed =>
      (s.(relayFailures := FetchAdd(s.relayFailures, 1), status := Failed(ReceiveError)), [Recorded(ReceiveError)])
    case Received(packet, source, lookup, sendOk) =>
      if s.client == Some(source) then ClientPacket(s, packet, source, lookup, sendOk)
      else if s.client.None? && IpOf(source) == IpOf(tcpPeer) then ClientPacket(s, packet, source, lookup, sendOk)
      else if s.client.Some? && source in s.targets then RemotePacket(s, s.client.value, packet, source, sendOk)
      else (s, [])
  }

  function Run(tcpPeer: SocketAddr, s: Relay, events: seq<Event>): (Relay, seq<Output>)
    decreases |events|
  {
    if events == [] then (s, []) else
    var (next, out) := Step(tcpPeer, s, events[0]);
    var (last, rest) := Run(tcpPeer, next, events[1..]);
    (last, out + rest)
  }

  lemma {:induction false} RunAppend(tcpPeer: SocketAddr, s: Relay, a: seq<Event>, b: seq<Event>)
    ensures var (mid, out) := Run(tcpPeer, s, a);
            var (last, rest) := Run(tcpPeer, mid, b);
            Run(tcpPeer, s, a + b) == (last, out + rest)
    decreases |a|
  {
    hide Step;
    if a == [] {
      assert a + b == b;
      assert Run(tcpPeer, s, b).1 == [] + Run(tcpPeer, s, b).1;
    } else {
      var (next, first) := Step(tcpPeer, s, a[0]);
      var (mid, out) := Run(tcpPeer, next, a[1..]);
      var (_, rest) := Run(tcpPeer, mid, b);
      assert (a + b)[1..] == a[1..] + b;
      RunAppend(tcpPeer, next, a[1..], b);
      assert first + (out + rest) == (first + out) + rest;
    }
  }

  lemma {:induction false} StoppedStays(tcpPeer: SocketAddr, s: Relay, events: seq<Event>)
    requires !s.status.Running?
    ensures Run(tcpPeer, s, events) == (s, [])
    decreases |events|
  {
    if events != [] {
      StoppedStays(tcpPeer, s, events[1..]);
      assert Step(tcpPeer, s, events[0]) == (s, []);
      assert Run(tcpPeer, s, events).1 == [];
    }
  }

  /** The run seen from its last event. */
  lemma RunLast(tcpPeer: SocketAddr, s: Relay, events: seq<Event>)
    requires events != []
    ensures var n := |events| - 1;
            var (before, out) := Run(tcpPeer, s, events[..n]);
            var (after, step) := Step(tcpPeer, before, events[n]);
            Run(tcpPeer, s, events) == (after, out + step)
  {
    var n := |events| - 1;
    assert events == events[..n] + [events[n]];
    RunAppend(tcpPeer, s, events[..n], [events[n]]);
    var (before, out) := Run(tcpPeer, s, events[..n]);
    assert Run(tcpPeer, before, [events[n]]) == Step(tcpPeer, before, events[n]) by {
      var (after, step) := Step(tcpPeer, before, events[n]);
      assert Run(tcpPeer, after, [events[n]][1..]) == (after, []);
      assert step + [] == step;
    }
  }

  // ----- what every run keeps

  ghost predicate Inv(tcpPeer: SocketAddr, s: Relay) {
    && (s.client.None? ==> s.targets == {})
    && (s.client.Some? ==> IpOf(s.client.value) == IpOf(tcpPeer))
    && |s.targets| <= MAX_UDP_REMOTE_ENDPOINTS
    && s.status != Failed(EncodeError)
  }

  lemma StepKeepsInv(tcpPeer: SocketAddr, s: Relay, e: Event)
    requires Inv(tcpPeer, s)
    ensures var t := Step(tcpPeer, s, e).0;
            Inv(tcpPeer, t) && s.targets <= t.targets && (s.client.Some? ==> t.client == s.client)
  {
  }

  /** The lock is set at most once, contacted targets are never dropped, and there are at most 1024. */
  lemma {:induction false} RunKeepsInv(tcpPeer: SocketAddr, s: Relay, events: seq<Event>)
    requires Inv(tcpPeer, s)
    ensures var t := Run(tcpPeer, s, events).0;
            Inv(tcpPeer, t) && s.targets <= t.targets && (s.client.Some? ==> t.client == s.client)
    decreases |events|
  {
    if events != [] {
      StepKeepsInv(tcpPeer, s, events[0]);
      RunKeepsInv(tcpPeer, Step(tcpPeer, s, events[0]).0, events[1..]);
    }
  }

  /** The source of the first well-formed packet from the TCP peer's IP, if one precedes the session's end. */
  function FirstClient(tcpPeer: SocketAddr, events: seq<Event>): Option<SocketAddr> {
    if events == [] || !events[0].Received? then None
    else if IpOf(events[0].source) == IpOf(tcpPeer) && Wellformed(events[0].packet) then Some(events[0].source)
    else FirstClient(tcpPeer, events[1..])
  }

  lemma {:induction false} LockedToFirstClient(tcpPeer: SocketAddr, s: Relay, events: seq<Event>)
    requires Inv(tcpPeer, s) && s.client.None? && s.status.Running?
    ensures Run(tcpPeer, s, events).0.client == FirstClient(tcpPeer, events)
    decreases |events|
  {
    if events != [] {
      var next := Step(tcpPeer, s, events[0]).0;
      StepKeepsInv(tcpPeer, s, events[0]);
      if !next.status.Running? {
        StoppedStays(tcpPeer, next, events[1..]);
      } else if next.client.None? {
        LockedToFirstClient(tcpPeer, next, events[1..]);
      } else {
        RunKeepsInv(tcpPeer, next, events[1..]);
      }
    }
  }

  // ----- one step, from outside

  /** The lock compares addresses, not ports, and never takes an IPv4 address for an IPv6 one. */
  lemma SameIpExactly(a: SocketAddr, b: SocketAddr)
    ensures IpOf(a) == IpOf(b) <==>
      (a.SocketV4? && b.SocketV4? && a.ip4 == b.ip4) || (a.SocketV6? && b.SocketV6? && a.ip6 == b.ip6)
  {
  }

  /** `packet` is what a reply of `payload` from `source` looks like to the client, byte by byte. */
  predicate Wraps(packet: seq<byte>, source: SocketAddr, payload: seq<byte>) {
    match source
    case SocketV4(ip, port) => packet == [0, 0, 0, 1] + ip + [port / 256, port % 256] + payload
    case SocketV6(ip, port, _, _) => packet == [0, 0, 0, 4] + ip + [port / 256, port % 256] + payload
  }

  /** The wire address that carries the IP bytes and the port of a socket address. */
  predicate CarriesAddress(a: Address, source: SocketAddr) {
    match source
    case SocketV4(ip, port) => a == V4(ip, port)
    case SocketV6(ip, port, _, _) => a == V6(ip, port)
  }

  lemma WrapsExactly(source: SocketAddr, payload: seq<byte>)
    ensures var encoded := EncodeUdpDatagram(FromSocketAddr(source), payload);
      && encoded.Ok? && Wraps(encoded.value, source, payload)
      && ParseUdpDatagram(encoded.value) == Ok(Some(Datagram(FromSocketAddr(source), payload)))
      && CarriesAddress(FromSocketAddr(source), source)
  {
    var a := FromSocketAddr(source);
    ParseEncodedDatagram(a, payload);
    hide ParseUdpDatagram;
    var packet := EncodeUdpDatagram(a, payload).value;
    match source {
      case SocketV4(ip, port) =>
        assert [0, 0, 0] + ([ATYP_IPV4] + ip + PortBytes(port)) == [0, 0, 0, 1] + ip + [port / 256, port % 256];
      case SocketV6(ip, port, _, _) =>
        assert [0, 0, 0] + ([ATYP_IPV6] + ip + PortBytes(port)) == [0, 0, 0, 4] + ip + [port / 256, port % 256];
    }
  }

  /** A packet from an endpoint the locked client contacted, other than the client itself. */
  predicate IsReply(s: Relay, e: Event) {
    e.Received? && s.client.Some? && s.client.value != e.source && e.source in s.targets
  }

  /** The reply as the client gets it. */
  ghost predicate Delivers(s: Relay, e: Event, o: Output)
    requires IsReply(s, e)
  {
    && o.ToClient? && o.client == s.client.value && o.delivered == e.sendOk
    && Wraps(o.wrapped, e.source, e.packet)
    && exists a :: CarriesAddress(a, e.source) && ParseUdpDatagram(o.wrapped) == Ok(Some(Datagram(a, e.packet)))
  }

  /**
   Exactly the packets of contacted endpoints reach the client, whatever their size: each one is
   counted, wrapped with the endpoint's own address, and sent once; a send that fails ends the session.
   */
  lemma ReplyStep(tcpPeer: SocketAddr, s: Relay, e: Event)
    requires s.status.Running?
    ensures var (t, out) := Step(tcpPeer, s, e);
      && ((exists k :: 0 <= k < |out| && out[k].ToClient?) <==> IsReply(s, e))
      && (IsReply(s, e) ==>
            && |out| == (if e.sendOk then 1 else 2) && Delivers(s, e, out[0])
            && (!e.sendOk ==> out[1] == Recorded(ResponseSendError))
            && t.udpBytesIn == (s.udpBytesIn + |e.packet|) % 0x1_0000_0000_0000_0000
            && t.relayFailures == (s.relayFailures + if e.sendOk then 0 else 1) % 0x1_0000_0000_0000_0000
            && t.udpBytesOut == s.udpBytesOut && t.client == s.client && t.targets == s.targets
            && t.status == if e.sendOk then Running else Failed(ResponseSendError))
  {
    if e.Received? {
      ClientPacketStaysAway(s, e.packet, e.source, e.lookup, e.sendOk);
      WrapsExactly(e.source, e.packet);
      hide ParseUdpDatagram, EncodeUdpDatagram, ClientPacket, Wraps, CarriesAddress, FromSocketAddr;
      if IsReply(s, e) {
        var o := Step(tcpPeer, s, e).1[0];
        assert o.ToClient?;
        assert Delivers(s, e, o);
      }
    }
  }

  /** A packet of the client that asks for the endpoint at this address, byte by byte. */
  lemma RequestBytes(packet: seq<byte>, target: SocketAddr, payload: seq<byte>, lookup: Option<SocketAddr>)
    requires Wraps(packet, target, payload) && (target.SocketV6? ==> target.flowinfo == 0 && target.scopeId == 0)
    ensures ParseUdpDatagram(packet).Ok? && ParseUdpDatagram(packet).value.Some?
    ensures var datagram := ParseUdpDatagram(packet).value.value;
            Resolve(datagram.destination, lookup) == Some(target) && datagram.payload == payload
  {
    WrapsExactly(target, payload);
    WrapsOnce(packet, EncodeUdpDatagram(FromSocketAddr(target), payload).value, target, payload);
    hide ParseUdpDatagram, EncodeUdpDatagram, Wraps;
  }

  /** A packet of the client that asks for a name goes where the lookup says, if anywhere. */
  lemma RequestName(packet: seq<byte>, name: seq<byte>, port: u16, payload: seq<byte>, lookup: Option<SocketAddr>)
    requires 1 <= |name| <= 255 && Utf8.Valid(name)
    requires packet == [0, 0, 0, 3, |name|] + name + [port / 256, port % 256] + payload
    ensures ParseUdpDatagram(packet).Ok? && ParseUdpDatagram(packet).value.Some?
    ensures var datagram := ParseUdpDatagram(packet).value.value;
            Resolve(datagram.destination, lookup) == lookup && datagram.payload == payload
  {
    var a := Domain(name, port);
    var head: seq<byte> := [ATYP_DOMAIN, |name|];
    ParseEncodedDatagram(a, payload);
    hide ParseUdpDatagram, Utf8.Valid;
    Regroup([0, 0, 0], head, name, PortBytes(port), payload);
    assert [0, 0, 0] + head == [0, 0, 0, 3, |name|];
  }

  lemma Regroup(z: seq<byte>, h: seq<byte>, n: seq<byte>, p: seq<byte>, rest: seq<byte>)
    ensures (z + h) + n + p + rest == z + (h + n + p) + rest
  {
    Assoc(z, h, n);
    Assoc(z, h + n, p);
  }

  lemma WrapsOnce(a: seq<byte>, b: seq<byte>, source: SocketAddr, payload: seq<byte>)
    requires Wraps(a, source, payload) && Wraps(b, source, payload)
    ensures a == b
  {
  }

  /** When a session ends, and how. */
  lemma StopsExactly(tcpPeer: SocketAddr, s: Relay, e: Event)
    requires s.status.Running?
    ensures var (t, out) := Step(tcpPeer, s, e);
      && (t.status.Running? <==> e.Received? && (IsReply(s, e) ==> e.sendOk))
      && (t.status == Closed <==> e == ControlClosed)
      && (t.status == Failed(ControlReadError) <==> e == ControlReadFailed)
      && (t.status == Failed(UnexpectedTcpData) <==> e == ControlData)
      && (t.status == Failed(ReceiveError) <==> e == ReceiveFailed)
      && (t.status == Failed(ResponseSendError) <==> IsReply(s, e) && !e.sendOk)
      && (!e.Received? ==>
            out == (if e == ReceiveFailed then [Recorded(ReceiveError)] else [])
            && t == s.(status := t.status, relayFailures := t.relayFailures)
            && t.relayFailures == (s.relayFailures + if e == ReceiveFailed then 1 else 0) % 0x1_0000_0000_0000_0000)
  {
    if e.Received? {
      WrapsExactly(e.source, e.packet);
      hide ParseUdpDatagram, EncodeUdpDatagram, Wellformed, Resolve, Wraps, CarriesAddress, FromSocketAddr, FetchAdd;
    }
  }

  // ----- who can influence a session

  /** The endpoint a packet of `client` asks for. */
  function Named(client: Option<SocketAddr>, e: Event): Option<SocketAddr> {
    if e.Received? && Some(e.source) == client && Wellformed(e.packet)
    then Resolve(ParseUdpDatagram(e.packet).value.value.destination, e.lookup)
    else None
  }

  function AllNamed(client: Option<SocketAddr>, events: seq<Event>): set<SocketAddr> {
    set i | 0 <= i < |events| && Named(client, events[i]).Some? :: Named(client, events[i]).value
  }

  /** Packets from strangers, and the client's own packets that do not decode. */
  predicate Noise(client: Option<SocketAddr>, named: set<SocketAddr>, e: Event) {
    e.Received? && if Some(e.source) == client then !Wellformed(e.packet) else e.source !in named
  }

  function Core(client: Option<SocketAddr>, named: set<SocketAddr>, events: seq<Event>): seq<Event> {
    if events == [] then []
    else if Noise(client, named, events[0]) then Core(client, named, events[1..])
    else [events[0]] + Core(client, named, events[1..])
  }

  function Essence(tcpPeer: SocketAddr, events: seq<Event>): seq<Event> {
    var client := FirstClient(tcpPeer, events);
    Core(client, AllNamed(client, events), events)
  }

  /** A session whose lock, if still open, will go to `client`, and whose targets are all in `named`. */
  ghost predicate Foreseen(tcpPeer: SocketAddr, s: Relay, events: seq<Event>,
                           client: Option<SocketAddr>, named: set<SocketAddr>)
  {
    && Inv(tcpPeer, s)
    && s.targets <= named
    && (if s.client.Some? then s.client == client else FirstClient(tcpPeer, events) == client)
    && forall i :: 0 <= i < |events| && Named(client, events[i]).Some? ==> Named(client, events[i]).value in named
  }

  lemma ForeseenStep(tcpPeer: SocketAddr, s: Relay, events: seq<Event>,
                     client: Option<SocketAddr>, named: set<SocketAddr>)
    requires Foreseen(tcpPeer, s, events, client, named)
    requires events != [] && s.status.Running?
    ensures var (next, out) := Step(tcpPeer, s, events[0]);
            && (Noise(client, named, events[0]) ==> next == s && out == [])
            && (next.status.Running? ==> Foreseen(tcpPeer, next, events[1..], client, named))
  {
    var next := Step(tcpPeer, s, events[0]).0;
    StepKeepsInv(tcpPeer, s, events[0]);
    assert Named(client, events[0]).Some? ==> Named(client, events[0]).value in named;
    assert next.targets <= named;
    forall i | 0 <= i < |events[1..]| && Named(client, events[1..][i]).Some?
      ensures Named(client, events[1..][i]).value in named
    {
      assert events[1..][i] == events[i + 1];
    }
  }

  lemma {:induction false} RunOfCore(tcpPeer: SocketAddr, s: Relay, events: seq<Event>,
                                     client: Option<SocketAddr>, named: set<SocketAddr>)
    requires Foreseen(tcpPeer, s, events, client, named)
    ensures Run(tcpPeer, s, events) == Run(tcpPeer, s, Core(client, named, events))
    decreases |events|
  {
    if !s.status.Running? {
      StoppedStays(tcpPeer, s, events);
      StoppedStays(tcpPeer, s, Core(client, named, events));
    } else if events != [] {
      var (next, out) := Step(tcpPeer, s, events[0]);
      ForeseenStep(tcpPeer, s, events, client, named);
      if !next.status.Running? {
        StoppedStays(tcpPeer, next, events[1..]);
        StoppedStays(tcpPeer, next, Core(client, named, events[1..]));
      } else {
        RunOfCore(tcpPeer, next, events[1..], client, named);
      }
      if Noise(client, named, events[0]) {
        assert out + Run(tcpPeer, s, events[1..]).1 == Run(tcpPeer, s, events[1..]).1;
      } else {
        assert Core(client, named, events)[1..] == Core(client, named, events[1..]);
      }
    }
  }

  /**
   Deleting every packet that is neither a well-formed packet of the locked client nor sent by an
   endpoint the client named leaves all outputs, the lock, the targets and the counters unchanged.
   */
  lemma NonInterference(tcpPeer: SocketAddr, events: seq<Event>)
    ensures Run(tcpPeer, FRESH, events) == Run(tcpPeer, FRESH, Essence(tcpPeer, events))
  {
    var client := FirstClient(tcpPeer, events);
    RunOfCore(tcpPeer, FRESH, events, client, AllNamed(client, events));
  }

  /** Two sessions that differ only in such packets cannot be told apart. */
  lemma NoiseIsInvisible(tcpPeer: SocketAddr, a: seq<Event>, b: seq<Event>)
    requires Essence(tcpPeer, a) == Essence(tcpPeer, b)
    ensures Run(tcpPeer, FRESH, a) == Run(tcpPeer, FRESH, b)
  {
    NonInterference(tcpPeer, a);
    NonInterference(tcpPeer, b);
  }

  lemma {:induction false} CoreAppend(client: Option<SocketAddr>, named: set<SocketAddr>, a: seq<Event>, b: seq<Event>)
    ensures Core(client, named, a + b) == Core(client, named, a) + Core(client, named, b)
    decreases |a|
  {
    if a == [] {
      assert a + b == b;
    } else {
      assert (a + b)[1..] == a[1..] + b;
      CoreAppend(client, named, a[1..], b);
    }
  }

  /** An event that cannot take the lock itself does not move it. */
  lemma {:induction false} FirstClientInsert(tcpPeer: SocketAddr, a: seq<Event>, e: Event, b: seq<Event>)
    requires e.Received?
    requires FirstClient(tcpPeer, a).Some? || IpOf(e.source) != IpOf(tcpPeer) || !Wellformed(e.packet)
    ensures FirstClient(tcpPeer, a + [e] + b) == FirstClient(tcpPeer, a + b)
    decreases |a|
  {
    if a == [] {
      assert a + b == b && (a + [e] + b)[1..] == b;
    } else {
      assert (a + b)[1..] == a[1..] + b && (a + [e] + b)[1..] == a[1..] + [e] + b;
      if FirstClient(tcpPeer, a).None? || FirstClient(tcpPeer, a[1..]).Some? {
        FirstClientInsert(tcpPeer, a[1..], e, b);
      }
    }
  }

  lemma AllNamedInsert(client: Option<SocketAddr>, a: seq<Event>, e: Event, b: seq<Event>)
    requires Named(client, e).None?
    ensures AllNamed(client, a + [e] + b) == AllNamed(client, a + b)
  {
    var without, with := a + b, a + [e] + b;
    hide Named;
    forall i | 0 <= i < |without| && Named(client, without[i]).Some?
      ensures Named(client, without[i]).value in AllNamed(client, with)
    {
      assert with[if i < |a| then i else i + 1] == without[i];
    }
    forall i | 0 <= i < |with| && Named(client, with[i]).Some?
      ensures Named(client, with[i]).value in AllNamed(client, without)
    {
      assert i != |a|;
      assert without[if i < |a| then i else i - 1] == with[i];
    }
  }

  /**
   A packet put anywhere into a session changes nothing, provided that it could not take the lock
   (the lock is taken, or the IP is not the TCP peer's, or the header does not decode) and that it
   is either an undecodable packet of the client or comes from an endpoint the client never names.
   */
  lemma InsertedNoiseIsInvisible(tcpPeer: SocketAddr, a: seq<Event>, e: Event, b: seq<Event>)
    requires e.Received?
    requires FirstClient(tcpPeer, a).Some? || IpOf(e.source) != IpOf(tcpPeer) || !Wellformed(e.packet)
    requires var client := FirstClient(tcpPeer, a + b);
             Noise(client, AllNamed(client, a + b), e)
    ensures Run(tcpPeer, FRESH, a + [e] + b) == Run(tcpPeer, FRESH, a + b)
  {
    var client := FirstClient(tcpPeer, a + b);
    var without, with := a + b, a + [e] + b;
    assert Named(client, e).None?;
    FirstClientInsert(tcpPeer, a, e, b);
    hide Run, FirstClient, AllNamed, Named, Noise, Wellformed;
    AllNamedInsert(client, a, e, b);
    var named := AllNamed(client, without);
    CoreAppend(client, named, a, b);
    CoreAppend(client, named, a + [e], b);
    CoreAppend(client, named, a, [e]);
    assert Core(client, named, [e]) == [] by {
      assert [e][1..] == [];
    }
    NoiseIsInvisible(tcpPeer, with, without);
  }

  // ----- provenance

  /** Event `i` is a packet of the locked client that named `target`. */
  ghost predicate NamedBy(events: seq<Event>, i: nat, client: Option<SocketAddr>, target: SocketAddr) {
    i < |events| && client.Some? && Named(client, events[i]) == Some(target)
  }

  lemma {:induction false} TargetsWereNamed(tcpPeer: SocketAddr, events: seq<Event>, target: SocketAddr)
    returns (i: nat)
    requires target in Run(tcpPeer, FRESH, events).0.targets
    ensures NamedBy(events, i, Run(tcpPeer, FRESH, events).0.client, target)
    decreases |events|
  {
    var n := |events| - 1;
    RunLast(tcpPeer, FRESH, events);
    RunKeepsInv(tcpPeer, FRESH, events[..n]);
    var before := Run(tcpPeer, FRESH, events[..n]).0;
    StepKeepsInv(tcpPeer, before, events[n]);
    if target in before.targets {
      i := TargetsWereNamed(tcpPeer, events[..n], target);
    } else {
      i := n;
    }
  }

  lemma ClientPacketStaysAway(s: Relay, packet: seq<byte>, source: SocketAddr, lookup: Option<SocketAddr>, sendOk: bool)
    ensures var out := ClientPacket(s, packet, source, lookup, sendOk).1;
            forall k :: 0 <= k < |out| ==> !out[k].ToClient?
  {
    hide Wellformed, ParseUdpDatagram, Resolve, FetchAdd;
  }

  lemma RemotePacketIsWrapped(s: Relay, client: SocketAddr, packet: seq<byte>, source: SocketAddr, sendOk: bool)
    ensures var out := RemotePacket(s, client, packet, source, sendOk).1;
            forall k :: 0 <= k < |out| && out[k].ToClient? ==>
              (out[k].client == client
               && ParseUdpDatagram(out[k].wrapped) == Ok(Some(Datagram(FromSocketAddr(source), packet))))
  {
    ParseEncodedDatagram(FromSocketAddr(source), packet);
    hide ParseUdpDatagram, EncodeUdpDatagram, FetchAdd;
  }

  /** What a step hands to the client was just received from a contacted endpoint. */
  lemma ToClientStep(tcpPeer: SocketAddr, s: Relay, e: Event, k: nat)
    requires var out := Step(tcpPeer, s, e).1;
             k < |out| && out[k].ToClient?
    ensures var sent := Step(tcpPeer, s, e).1[k];
            && e.Received? && e.source in s.targets && Some(sent.client) == s.client
            && ParseUdpDatagram(sent.wrapped) == Ok(Some(Datagram(FromSocketAddr(e.source), e.packet)))
  {
    hide ParseUdpDatagram, ClientPacket, RemotePacket, FetchAdd;
    if e.Received? {
      ClientPacketStaysAway(s, e.packet, e.source, e.lookup, e.sendOk);
      if s.client.Some? {
        RemotePacketIsWrapped(s, s.client.value, e.packet, e.source, e.sendOk);
      }
    }
  }

  lemma LockIsFirstClient(tcpPeer: SocketAddr, events: seq<Event>, j: nat)
    requires j <= |events| && Run(tcpPeer, FRESH, events[..j]).0.client.Some?
    ensures Run(tcpPeer, FRESH, events[..j]).0.client == FirstClient(tcpPeer, events)
  {
    assert events == events[..j] + events[j..];
    RunAppend(tcpPeer, FRESH, events[..j], events[j..]);
    RunKeepsInv(tcpPeer, FRESH, events[..j]);
    RunKeepsInv(tcpPeer, Run(tcpPeer, FRESH, events[..j]).0, events[j..]);
    LockedToFirstClient(tcpPeer, FRESH, events);
  }

  /**
   Every datagram handed to the client was received from an endpoint that an earlier packet of the
   locked client named, and its wrapper decodes to exactly that endpoint and that payload.
   */
  lemma DeliveredFromNamedTarget(tcpPeer: SocketAddr, events: seq<Event>, j: nat, k: nat) returns (i: nat)
    requires j < |events|
    requires var (_, out) := Step(tcpPeer, Run(tcpPeer, FRESH, events[..j]).0, events[j]);
             k < |out| && out[k].ToClient?
    ensures var s := Run(tcpPeer, FRESH, events[..j]).0;
            var sent := Step(tcpPeer, s, events[j]).1[k];
            && i < j && events[j].Received?
            && NamedBy(events, i, s.client, events[j].source)
            && Some(sent.client) == s.client == FirstClient(tcpPeer, events)
            && ParseUdpDatagram(sent.wrapped) == Ok(Some(Datagram(FromSocketAddr(events[j].source), events[j].packet)))
  {
    hide Step, Run, FirstClient, Named, ParseUdpDatagram;
    ToClientStep(tcpPeer, Run(tcpPeer, FRESH, events[..j]).0, events[j], k);
    i := TargetsWereNamed(tcpPeer, events[..j], events[j].source);
    LockIsFirstClient(tcpPeer, events, j);
  }

  /** An endpoint that was contacted once is contacted again whenever the client asks, full table or not. */
  lemma ContactedStaysReachable(tcpPeer: SocketAddr, events: seq<Event>, i: nat, j: nat, target: SocketAddr)
    requires i < j < |events|
    requires var s := Run(tcpPeer, FRESH, events[..j]).0;
             s.status.Running? && NamedBy(events, j, s.client, target)
    requires target in Run(tcpPeer, FRESH, events[..i]).0.targets
    ensures var out := Step(tcpPeer, Run(tcpPeer, FRESH, events[..j]).0, events[j]).1;
            && out != []
            && out[0] == ToTarget(ParseUdpDatagram(events[j].packet).value.value.payload, target, events[j].sendOk)
  {
    assert events[..j] == events[..i] + events[i..j];
    RunAppend(tcpPeer, FRESH, events[..i], events[i..j]);
    RunKeepsInv(tcpPeer, FRESH, events[..i]);
    RunKeepsInv(tcpPeer, Run(tcpPeer, FRESH, events[..i]).0, events[i..j]);
  }

  /** While fewer than 1024 endpoints are known every endpoint the client names gets its packet. */
  lemma {:induction false} TargetsAreTheNamedOnes(tcpPeer: SocketAddr, events: seq<Event>)
    requires Run(tcpPeer, FRESH, events).0.status.Running?
    ensures var s := Run(tcpPeer, FRESH, events).0;
            && s.targets <= AllNamed(s.client, events)
            && (|s.targets| < MAX_UDP_REMOTE_ENDPOINTS ==> s.targets == AllNamed(s.client, events))
  {
    var s := Run(tcpPeer, FRESH, events).0;
    forall t | t in s.targets ensures t in AllNamed(s.client, events) {
      var i := TargetsWereNamed(tcpPeer, events, t);
    }
    if |s.targets| < MAX_UDP_REMOTE_ENDPOINTS {
      forall i | 0 <= i < |events| && Named(s.client, events[i]).Some?
        ensures Named(s.client, events[i]).value in s.targets
      {
        NamedIsKept(tcpPeer, events, i);
      }
    }
  }

  /**
   Request and reply use the same header: when a contacted endpoint answers the packet that named it by
   its address, what the client gets is the header of its own packet with the answer behind it.
   */
  lemma AnswersCarryTheRequestsHeader(tcpPeer: SocketAddr, s: Relay, packet: seq<byte>, payload: seq<byte>, e: Event)
    requires s.status.Running? && IsReply(s, e) && Wraps(packet, e.source, payload)
    ensures var out := Step(tcpPeer, s, e).1;
      && |out| > 0 && out[0].ToClient? && |packet| >= |payload|
      && out[0].wrapped == packet[..|packet| - |payload|] + e.packet
  {
    ReplyStep(tcpPeer, s, e);
    var o := Step(tcpPeer, s, e).1[0];
    hide Step, ParseUdpDatagram;
    HeaderOf(packet, payload, o.wrapped, e.packet, e.source);
  }

  lemma HeaderOf(a: seq<byte>, x: seq<byte>, b: seq<byte>, y: seq<byte>, source: SocketAddr)
    requires Wraps(a, source, x) && Wraps(b, source, y)
    ensures |a| >= |x| && b == a[..|a| - |x|] + y
  {
    var ip: seq<byte> := if source.SocketV4? then source.ip4 else source.ip6;
    var header := [0, 0, 0, if source.SocketV4? then 1 else 4] + ip + [source.port / 256, source.port % 256];
    assert a == header + x && b == header + y;
    FrontAndBack(header, x);
  }

  // ----- what leaves for the targets

  /**
   One event leads to a send exactly when it is a well-formed packet of the client that names an
   endpoint which is known or still fits; that endpoint is sent the packet's payload, once, and is in
   the table from then on. A name that does not resolve is recorded; a send that fails is recorded and
   counted, and the session goes on.
   */
  lemma RequestStep(tcpPeer: SocketAddr, s: Relay, e: Event)
    requires Inv(tcpPeer, s) && s.status.Running?
    ensures var (t, out) := Step(tcpPeer, s, e);
            var named := Named(t.client, e);
            var sent := named.Some? && (named.value in s.targets || |s.targets| < 1024);
      && ((exists k :: 0 <= k < |out| && out[k].ToTarget?) <==> sent)
      && (sent ==>
            && out[0] == ToTarget(ParseUdpDatagram(e.packet).value.value.payload, named.value, e.sendOk)
            && out[1..] == (if e.sendOk then [] else [Recorded(RequestSendError)])
            && t.targets == s.targets + {named.value} && t.status.Running?)
      && (!sent ==> t.targets == s.targets && t.udpBytesOut == s.udpBytesOut)
      && (Recorded(ResolutionError) in out <==>
            e.Received? && Some(e.source) == t.client && Wellformed(e.packet) && named.None?)
  {
    hide ParseUdpDatagram, EncodeUdpDatagram, Resolve, FetchAdd;
    var (t, out) := Step(tcpPeer, s, e);
    assert Named(t.client, e).Some? && |out| > 0 ==> out[0].ToTarget?;
  }

  /** Whoever is ever sent anything stays in the table, so at most 1024 endpoints are. */
  lemma {:induction false} OnlyKnownTargetsAreSent(tcpPeer: SocketAddr, s: Relay, events: seq<Event>)
    requires Inv(tcpPeer, s)
    ensures var (t, out) := Run(tcpPeer, s, events);
      && |t.targets| <= 1024
      && forall k :: 0 <= k < |out| && out[k].ToTarget? ==> out[k].target in t.targets
    decreases |events|
  {
    if !s.status.Running? {
      StoppedStays(tcpPeer, s, events);
    } else if events != [] {
      var (next, out) := Step(tcpPeer, s, events[0]);
      RequestStep(tcpPeer, s, events[0]);
      StepKeepsInv(tcpPeer, s, events[0]);
      hide Step;
      OnlyKnownTargetsAreSent(tcpPeer, next, events[1..]);
      RunKeepsInv(tcpPeer, next, events[1..]);
    }
  }

  lemma SmallerSubset<T>(a: set<T>, b: set<T>)
    requires a <= b
    ensures |a| <= |b|
  {
    assert b == a + (b - a);
  }

  lemma NamedIsKept(tcpPeer: SocketAddr, events: seq<Event>, i: nat)
    requires var s := Run(tcpPeer, FRESH, events).0;
             && s.status.Running? && |s.targets| < MAX_UDP_REMOTE_ENDPOINTS
             && i < |events| && Named(s.client, events[i]).Some?
    ensures var s := Run(tcpPeer, FRESH, events).0;
            Named(s.client, events[i]).value in s.targets
  {
    var s := Run(tcpPeer, FRESH, events).0;
    assert events == events[..i + 1] + events[i + 1..];
    RunAppend(tcpPeer, FRESH, events[..i + 1], events[i + 1..]);
    assert events[..i + 1][..i] == events[..i];
    RunLast(tcpPeer, FRESH, events[..i + 1]);
    var before := Run(tcpPeer, FRESH, events[..i]).0;
    var after := Run(tcpPeer, FRESH, events[..i + 1]).0;
    RunKeepsInv(tcpPeer, FRESH, events[..i]);
    StepKeepsInv(tcpPeer, before, events[i]);
    RunKeepsInv(tcpPeer, after, events[i + 1..]);
    if !after.status.Running? {
      StoppedStays(tcpPeer, after, events[i + 1..]);
    }
    SmallerSubset(before.targets, s.targets);
  }

  // ----- accounting

  function BytesSent(out: seq<Output>): nat {
    if out == [] then 0
    else BytesSent(out[1..]) + if out[0].ToTarget? && out[0].delivered then |out[0].payload| else 0
  }

  /** Payload bytes the client finds in a wrapped datagram. */
  function Carried(wrapped: seq<byte>): nat {
    if Wellformed(wrapped) then |ParseUdpDatagram(wrapped).value.value.payload| else 0
  }

  function BytesDelivered(out: seq<Output>): nat {
    if out == [] then 0
    else BytesDelivered(out[1..]) + if out[0].ToClient? && out[0].delivered then Carried(out[0].wrapped) else 0
  }

  /** A send or receive that failed. */
  predicate IsFailure(o: Output) {
    o in {Recorded(ReceiveError), Recorded(RequestSendError), Recorded(ResponseSendError)}
  }

  function Failures(out: seq<Output>): nat {
    if out == [] then 0
    else Failures(out[1..]) + if IsFailure(out[0]) then 1 else 0
  }

  /** Bytes counted as received although the send that ended the session never delivered them. */
  function Undelivered(s: Relay, out: seq<Output>): nat {
    if s.status == Failed(ResponseSendError) && |out| >= 2 && out[|out| - 2].ToClient?
    then Carried(out[|out| - 2].wrapped) else 0
  }

  /** Only the send that ends a session may fail to reach the client. */
  ghost predicate LossesEndTheSession(s: Relay, out: seq<Output>) {
    && (forall k :: 0 <= k < |out| && out[k].ToClient? && !out[k].delivered ==>
          s.status == Failed(ResponseSendError) && k == |out| - 2)
    && (s.status == Failed(ResponseSendError) ==> |out| >= 2 && out[|out| - 2].ToClient? && !out[|out| - 2].delivered)
  }

  lemma {:induction false} SumsAppend(a: seq<Output>, b: seq<Output>)
    ensures BytesSent(a + b) == BytesSent(a) + BytesSent(b)
    ensures BytesDelivered(a + b) == BytesDelivered(a) + BytesDelivered(b)
    ensures Failures(a + b) == Failures(a) + Failures(b)
  {
    if a == [] {
      assert a + b == b;
    } else {
      assert (a + b)[1..] == a[1..] + b;
      SumsAppend(a[1..], b);
    }
  }

  lemma SumsOfOne(o: Output)
    ensures BytesSent([o]) == if o.ToTarget? && o.delivered then |o.payload| else 0
    ensures BytesDelivered([o]) == if o.ToClient? && o.delivered then Carried(o.wrapped) else 0
    ensures Failures([o]) == if IsFailure(o) then 1 else 0
  {
    assert [o][1..] == [];
  }

  lemma SumsOfTwo(o: Output, p: Output)
    ensures BytesSent([o, p]) == BytesSent([o]) + BytesSent([p])
    ensures BytesDelivered([o, p]) == BytesDelivered([o]) + BytesDelivered([p])
    ensures Failures([o, p]) == Failures([o]) + Failures([p])
  {
    assert [o, p] == [o] + [p];
    SumsAppend([o], [p]);
  }

  ghost predicate Counted(s: Relay, t: Relay, sent: nat, received: nat, failures: nat) {
    && t.udpBytesOut == FetchAdd(s.udpBytesOut, sent)
    && t.udpBytesIn == FetchAdd(s.udpBytesIn, received)
    && t.relayFailures == FetchAdd(s.relayFailures, failures)
  }

  lemma CountedTwice(s: Relay, t: Relay, u: Relay, sent: nat, received: nat, failures: nat,
                     sent': nat, received': nat, failures': nat)
    requires Counted(s, t, sent, received, failures) && Counted(t, u, sent', received', failures')
    ensures Counted(s, u, sent + sent', received + received', failures + failures')
  {
    AddTwice(s.udpBytesOut, sent, sent');
    AddTwice(s.udpBytesIn, received, received');
    AddTwice(s.relayFailures, failures, failures');
    hide FetchAdd;
  }

  /** The counters of `t` are those of `s` plus what `out` shows, and only the last send may be lost. */
  ghost predicate Accounted(s: Relay, t: Relay, out: seq<Output>) {
    && Counted(s, t, BytesSent(out), BytesDelivered(out) + Undelivered(t, out), Failures(out))
    && LossesEndTheSession(t, out)
  }

  lemma NothingAccounted(s: Relay)
    requires s.status.Running?
    ensures Accounted(s, s, [])
  {
  }

  lemma ClientPacketAccounts(s: Relay, packet: seq<byte>, source: SocketAddr, lookup: Option<SocketAddr>, sendOk: bool)
    requires s.status.Running?
    ensures var (t, out) := ClientPacket(s, packet, source, lookup, sendOk);
            Accounted(s, t, out)
  {
    NothingAccounted(s);
    hide FetchAdd, Wellformed, Resolve;
    var (t, out) := ClientPacket(s, packet, source, lookup, sendOk);
    if |out| == 1 {
      SumsOfOne(out[0]);
    } else if |out| == 2 {
      SumsOfOne(out[0]);
      SumsOfOne(out[1]);
      SumsOfTwo(out[0], out[1]);
    }
  }

  lemma RemotePacketAccounts(s: Relay, client: SocketAddr, packet: seq<byte>, source: SocketAddr, sendOk: bool)
    requires s.status.Running?
    ensures var (t, out) := RemotePacket(s, client, packet, source, sendOk);
            Accounted(s, t, out)
  {
    NothingAccounted(s);
    ParseEncodedDatagram(FromSocketAddr(source), packet);
    hide FetchAdd, EncodeUdpDatagram, ParseUdpDatagram;
    var (t, out) := RemotePacket(s, client, packet, source, sendOk);
    SumsOfOne(out[0]);
    if !sendOk {
      SumsOfOne(out[1]);
      SumsOfTwo(out[0], out[1]);
    }
  }

  lemma StepAccounts(tcpPeer: SocketAddr, s: Relay, e: Event)
    requires s.status.Running?
    ensures var (t, out) := Step(tcpPeer, s, e);
            Accounted(s, t, out)
  {
    NothingAccounted(s);
    hide FetchAdd, ClientPacket, RemotePacket;
    match e {
      case Received(packet, source, lookup, sendOk) =>
        ClientPacketAccounts(s, packet, source, lookup, sendOk);
        if s.client.Some? {
          RemotePacketAccounts(s, s.client.value, packet, source, sendOk);
        }
      case ReceiveFailed => SumsOfOne(Recorded(ReceiveError));
      case _ =>
    }
  }

  lemma LossesAppend(t: Relay, u: Relay, out: seq<Output>, rest: seq<Output>)
    requires LossesEndTheSession(t, out) && LossesEndTheSession(u, rest) && t.status.Running?
    ensures LossesEndTheSession(u, out + rest) && Undelivered(u, out + rest) == Undelivered(u, rest)
    ensures Undelivered(t, out) == 0
  {
    hide Carried;
    var all := out + rest;
    assert forall k | 0 <= k < |out| :: all[k] == out[k];
    forall k | 0 <= k < |all| && all[k].ToClient? && !all[k].delivered
      ensures u.status == Failed(ResponseSendError) && k == |all| - 2
    {
      assert k >= |out| ==> all[k] == rest[k - |out|];
    }
    if |rest| >= 2 {
      assert all[|all| - 2] == rest[|rest| - 2];
    }
  }

  lemma AccountedAppend(s: Relay, t: Relay, u: Relay, out: seq<Output>, rest: seq<Output>)
    requires Accounted(s, t, out) && Accounted(t, u, rest) && t.status.Running?
    ensures Accounted(s, u, out + rest)
  {
    hide Counted, LossesEndTheSession, Undelivered, BytesSent, BytesDelivered, Failures;
    LossesAppend(t, u, out, rest);
    SumsAppend(out, rest);
    CountedTwice(s, t, u, BytesSent(out), BytesDelivered(out), Failures(out),
                 BytesSent(rest), BytesDelivered(rest) + Undelivered(u, rest), Failures(rest));
  }

  /**
   After any run the counters are the sums over what was actually sent: bytes out are the payloads
   whose send succeeded, bytes in are the payloads the client received plus at most one payload that
   was counted before the send whose failure ended the session.
   */
  lemma {:induction false} Accounting(tcpPeer: SocketAddr, s: Relay, events: seq<Event>)
    requires s.status.Running?
    ensures var (t, out) := Run(tcpPeer, s, events);
            Accounted(s, t, out)
    decreases |events|
  {
    if events != [] {
      var (next, out) := Step(tcpPeer, s, events[0]);
      var (last, rest) := Run(tcpPeer, next, events[1..]);
      StepAccounts(tcpPeer, s, events[0]);
      if next.status.Running? {
        Accounting(tcpPeer, next, events[1..]);
        AccountedAppend(s, next, last, out, rest);
      } else {
        StoppedStays(tcpPeer, next, events[1..]);
        assert out + rest == out;
      }
    }
  }

  // ----- the relay as the program runs it

  class UdpSession {
    const tcpPeer: SocketAddr
    var clientUdpAddr: Option<SocketAddr>
    var relayedTargets: set<SocketAddr>
    var udpBytesIn: u64
    var udpBytesOut: u64
    var relayFailures: u64
    var status: Status
    var visible: seq<Output>

    ghost function State(): Relay
      reads this
    {
      Relay(clientUdpAddr, relayedTargets, udpBytesIn, udpBytesOut, relayFailures, status)
    }

    constructor (tcpPeer: SocketAddr)
      ensures State() == FRESH && visible == [] && this.tcpPeer == tcpPeer
    {
      this.tcpPeer := tcpPeer;
      clientUdpAddr, relayedTargets := None, {};
      udpBytesIn, udpBytesOut, relayFailures := 0, 0, 0;
      status, visible := Running, [];
    }

    method HandleClientUdpPacket(packet: seq<byte>, source: SocketAddr, lookup: Option<SocketAddr>, sendOk: bool)
      modifies this
      ensures var (s, out) := ClientPacket(old(State()), packet, source, lookup, sendOk);
              State() == s && visible == old(visible) + out
    {
      var parsed := ParseUdpDatagram(packet);
      if parsed.Err? || parsed.value.None? {
        return;
      }
      var datagram := parsed.value.value;
      if clientUdpAddr.None? {
        clientUdpAddr := Some(source);
      }
      var resolved := Resolve(datagram.destination, lookup);
      if resolved.None? {
        visible := visible + [Recorded(ResolutionError)];
        return;
      }
      var target := resolved.value;
      if target !in relayedTargets && |relayedTargets| >= MAX_UDP_REMOTE_ENDPOINTS {
        return;
      }
      relayedTargets := relayedTargets + {target};
      visible := visible + [ToTarget(datagram.payload, target, sendOk)];
      if !sendOk {
        relayFailures := FetchAdd(relayFailures, 1);
        visible := visible + [Recorded(RequestSendError)];
        return;
      }
      udpBytesOut := FetchAdd(udpBytesOut, |datagram.payload|);
    }

    method HandleReceived(packet: seq<byte>, source: SocketAddr, lookup: Option<SocketAddr>, sendOk: bool)
      requires status.Running?
      modifies this
      ensures var (s, out) := Step(tcpPeer, old(State()), Received(packet, source, lookup, sendOk));
              State() == s && visible == old(visible) + out
    {
      if Some(source) == clientUdpAddr {
        HandleClientUdpPacket(packet, source, lookup, sendOk);
        return;
      }
      if clientUdpAddr.None? && IpOf(source) == IpOf(tcpPeer) {
        HandleClientUdpPacket(packet, source, lookup, sendOk);
        return;
      }
      if clientUdpAddr.Some? && source in relayedTargets {
        udpBytesIn := FetchAdd(udpBytesIn, |packet|);
        var wrapped := WriteUdpDatagram(FromSocketAddr(source), packet);
        if wrapped.Err? {
          assert false;
        }
        visible := visible + [ToClient(wrapped.value, clientUdpAddr.value, sendOk)];
        if !sendOk {
          relayFailures := FetchAdd(relayFailures, 1);
          visible := visible + [Recorded(ResponseSendError)];
          status := Failed(ResponseSendError);
        }
      }
    }

    /** One turn of the loop. */
    method HandleEvent(e: Event)
      requires status.Running?
      modifies this
      ensures var (s, out) := Step(tcpPeer, old(State()), e);
              State() == s && visible == old(visible) + out
    {
      match e {
        case ControlReadFailed => status := Failed(ControlReadError);
        case ControlClosed => status := Closed;
        case ControlData => status := Failed(UnexpectedTcpData);
        case ReceiveFailed =>
          relayFailures := FetchAdd(relayFailures, 1);
          visible := visible + [Recorded(ReceiveError)];
          status := Failed(ReceiveError);
        case Received(packet, source, lookup, sendOk) =>
          HandleReceived(packet, source, lookup, sendOk);
      }
    }

    method RelayUdp(events: seq<Event>)
      requires status.Running?
      modifies this
      ensures var (s, out) := Run(tcpPeer, old(State()), events);
              State() == s && visible == old(visible) + out
    {
      hide Step;
      ghost var start := State();
      var i := 0;
      while i < |events| && status.Running?
        invariant 0 <= i <= |events|
        invariant var (s, out) := Run(tcpPeer, start, events[..i]);
                  State() == s && visible == old(visible) + out
      {
        assert events[..i + 1][..i] == events[..i];
        RunLast(tcpPeer, start, events[..i + 1]);
        HandleEvent(events[i]);
        i := i + 1;
      }
      if status.Running? {
        assert events[..i] == events;
      } else {
        assert events == events[..i] + events[i..];
        RunAppend(tcpPeer, start, events[..i], events[i..]);
        StoppedStays(tcpPeer, State(), events[i..]);
      }
    }
  }
}

/**
 A SOCKS5 connection from its first byte to the chosen command: protocol dispatch, method
 negotiation (section 3 of RFC 1928), the username/password exchange (section 2 of RFC 1929) and the
 request (section 4 of RFC 1928).
 */
module Socks5 {
  import opened Basics
  import opened Config
  import opened Protocol
  import opened Streams
  import Utf8

  const SOCKS_VERSION: byte := 0x05
  const SOCKS_NO_AUTH: byte := 0x00
  const SOCKS_AUTH_USER: byte := 0x02
  const SOCKS_CMD_CONNECT: byte := 0x01
  const SOCKS_CMD_UDP_ASSOCIATE: byte := 0x03

  datatype AuthMethod = NoAuth | UsernamePassword

  datatype Command = Connect(address: Address) | UdpAssociate(address: Address)

  datatype SocksError =
    | Io(error: IoError)
    | InvalidProtocol
    | NoAcceptableAuthMethod
    | UnsupportedCommand
    | AuthUnavailable
    | AuthFailed

  /** What one step of the dialogue returns, and the connection it leaves behind. */
  datatype After<+T> = After(result: Result<T, SocksError>, wire: Wire)

  function MethodByte(m: AuthMethod): byte {
    match m
    case NoAuth => SOCKS_NO_AUTH
    case UsernamePassword => SOCKS_AUTH_USER
  }

  // ----- the dialogue as functions of the unfragmented stream

  function Read(w: Wire, n: nat): After<seq<byte>> {
    match Take(w, n)
    case (Ok(bytes), w') => After(Ok(bytes), w')
    case (Err(e), w') => After(Err(Io(e)), w')
  }

  function Write(w: Wire, bytes: seq<byte>): After<()> {
    match Put(w, bytes)
    case (Ok(_), w') => After(Ok(()), w')
    case (Err(e), w') => After(Err(Io(e)), w')
  }

  function Handshake(w: Wire, m: AuthMethod): After<()> {
    match Read(w, 2)
    case After(Err(e), w') => After(Err(e), w')
    case After(Ok(header), w') =>
      if header[0] != SOCKS_VERSION then After(Err(InvalidProtocol), w') else
      match Read(w', header[1])
      case After(Err(e), w'') => After(Err(e), w'')
      case After(Ok(methods), w'') =>
        if MethodByte(m) in methods then Write(w'', [SOCKS_VERSION, MethodByte(m)])
        else
          match Write(w'', [SOCKS_VERSION, 0xFF])
          case After(Err(e), last) => After(Err(e), last)
          case After(Ok(_), last) => After(Err(NoAcceptableAuthMethod), last)
  }

  function ReadString(w: Wire): After<seq<byte>> {
    match Read(w, 1)
    case After(Err(e), w') => After(Err(e), w')
    case After(Ok(len), w') =>
      match Read(w', len[0])
      case After(Err(e), w'') => After(Err(e), w'')
      case After(Ok(body), w'') => After(Ok(Utf8.Lossy(body)), w'')
  }

  function BasicAuthenticate(w: Wire, auth: AuthConfig): After<()> {
    match Read(w, 1)
    case After(Err(e), w') => After(Err(e), w')
    case After(Ok(version), w') =>
      if version[0] != 0x01 then After(Err(InvalidProtocol), w') else
      match ReadString(w')
      case After(Err(e), w'') => After(Err(e), w'')
      case After(Ok(username), w'') =>
        match ReadString(w'')
        case After(Err(e), w3) => After(Err(e), w3)
        case After(Ok(password), w3) =>
          if auth.username.None? || auth.password.None? then After(Err(AuthUnavailable), w3)
          else if auth.username == Some(username) && auth.password == Some(password) then Write(w3, [0x01, 0x00])
          else
            match Write(w3, [0x01, 0x01])
            case After(Err(e), last) => After(Err(e), last)
            case After(Ok(_), last) => After(Err(AuthFailed), last)
  }

  function ReadPort(w: Wire): After<u16> {
    match Read(w, 2)
    case After(Err(e), w') => After(Err(e), w')
    case After(Ok(b), w') => After(Ok(PortOf(b[0], b[1])), w')
  }

  function ReadAddress(w: Wire, atyp: byte): After<Address> {
    if atyp == ATYP_IPV4 then
      match Read(w, 4)
      case After(Err(e), w') => After(Err(e), w')
      case After(Ok(ip), w') =>
        match ReadPort(w')
        case After(Err(e), w'') => After(Err(e), w'')
        case After(Ok(port), w'') => After(Ok(V4(ip, port)), w'')
    else if atyp == ATYP_DOMAIN then
      match Read(w, 1)
      case After(Err(e), w') => After(Err(e), w')
      case After(Ok(len), w') =>
        if len[0] == 0 then After(Err(InvalidProtocol), w') else
        match Read(w', len[0])
        case After(Err(e), w'') => After(Err(e), w'')
        case After(Ok(name), w'') =>
          match ReadPort(w'')
          case After(Err(e), w3) => After(Err(e), w3)
          case After(Ok(port), w3) =>
            if Utf8.Valid(name) then After(Ok(Domain(name, port)), w3) else After(Err(InvalidProtocol), w3)
    else if atyp == ATYP_IPV6 then
      match Read(w, 16)
      case After(Err(e), w') => After(Err(e), w')
      case After(Ok(ip), w') =>
        match ReadPort(w')
        case After(Err(e), w'') => After(Err(e), w'')
        case After(Ok(port), w'') => After(Ok(V6(ip, port)), w'')
    else After(Err(InvalidProtocol), w)
  }

  function ReadRequest(w: Wire): After<Command> {
    match Read(w, 4)
    case After(Err(e), w') => After(Err(e), w')
    case After(Ok(header), w') =>
      if header[0] != SOCKS_VERSION || header[2] != 0x00 then After(Err(InvalidProtocol), w') else
      match ReadAddress(w', header[3])
      case After(Err(e), w'') => After(Err(e), w'')
      case After(Ok(address), w'') =>
        if header[1] == SOCKS_CMD_CONNECT then After(Ok(Connect(address)), w'')
        else if header[1] == SOCKS_CMD_UDP_ASSOCIATE then After(Ok(UdpAssociate(address)), w'')
        else After(Err(UnsupportedCommand), w'')
  }

  /** How far a connection gets before a relay takes over. */
  datatype Outcome = Silent | Socks(command: Command) | Http | Failed(error: SocksError)

  datatype Session = Session(outcome: Outcome, authFailures: nat, wire: Wire)

  function RequiredMethod(bypass: bool): AuthMethod {
    if bypass then NoAuth else UsernamePassword
  }

  /** Clients on the allowlist skip the exchange of credentials. */
  function Authenticate(w: Wire, bypass: bool, auth: AuthConfig): After<()> {
    if bypass then After(Ok(()), w) else BasicAuthenticate(w, auth)
  }

  function SocksSession(w: Wire, bypass: bool, auth: AuthConfig): Session {
    match Handshake(w, RequiredMethod(bypass))
    case After(Err(e), w') => Session(Failed(e), if bypass then 0 else 1, w')
    case After(Ok(_), w') =>
      match Authenticate(w', bypass, auth)
      case After(Err(e), w'') => Session(Failed(e), 1, w'')
      case After(Ok(_), w'') =>
        match ReadRequest(w'')
        case After(Err(e), w3) => Session(Failed(e), 0, w3)
        case After(Ok(command), w3) => Session(Socks(command), 0, w3)
  }

  /** The first byte selects the protocol and is replayed to it. */
  function Serve(w: Wire, bypass: bool, auth: AuthConfig): Session {
    if w.input == [] then Session(if w.ending.Eof? then Silent else Failed(Io(ReadFailed)), 0, w)
    else if w.input[0] == SOCKS_VERSION then SocksSession(w, bypass, auth)
    else Session(Http, 0, w)
  }

  // ----- the messages of the dialogue, as the standards lay them out

  function Greeting(methods: seq<byte>): seq<byte>
    requires |methods| < 256
  {
    [5, |methods|] + methods
  }

  function LengthPrefixed(s: seq<byte>): seq<byte>
    requires |s| < 256
  {
    [|s|] + s
  }

  function Credentials(username: seq<byte>, password: seq<byte>): seq<byte>
    requires |username| < 256 && |password| < 256
  {
    [0x01] + (LengthPrefixed(username) + LengthPrefixed(password))
  }

  function Request(c: Command): seq<byte>
    requires Encodable(c.address)
  {
    [5, if c.Connect? then 1 else 3, 0] + EncodeAddress(c.address).value
  }

  lemma TakeFront(w: Wire, front: seq<byte>, rest: seq<byte>)
    requires w.input == front + rest
    ensures Read(w, |front|) == After(Ok(front), w.(input := rest))
  {
    assert w.input[..|front|] == front && w.input[|front|..] == rest;
  }

  /** A successful read splits the stream. */
  lemma ReadSplits(w: Wire, n: nat)
    requires Read(w, n).result.Ok?
    ensures var After(Ok(bytes), w') := Read(w, n);
            |bytes| == n && w.input == bytes + w'.input && w' == w.(input := w'.input)
  {
  }

  lemma GreetingAccepted(w: Wire, m: AuthMethod, methods: seq<byte>, rest: seq<byte>)
    requires |methods| < 256 && w.input == Greeting(methods) + rest
    requires MethodByte(m) in methods && w.writesLeft > 0
    ensures Handshake(w, m) == After(Ok(()), Put(w.(input := rest), [SOCKS_VERSION, MethodByte(m)]).1)
  {
    var header: seq<byte> := [SOCKS_VERSION, |methods|];
    assert w.input == header + (methods + rest);
    TakeFront(w, header, methods + rest);
    TakeFront(w.(input := methods + rest), methods, rest);
  }

  lemma OnlyGreetingAccepted(w: Wire, m: AuthMethod) returns (methods: seq<byte>)
    requires Handshake(w, m).result.Ok?
    ensures |methods| < 256 && w.input == Greeting(methods) + Handshake(w, m).wire.input
    ensures MethodByte(m) in methods && w.writesLeft > 0
    ensures Handshake(w, m).wire.writesLeft == w.writesLeft - 1
  {
    ReadSplits(w, 2);
    var After(Ok(header), w') := Read(w, 2);
    ReadSplits(w', header[1]);
    var After(Ok(body), w'') := Read(w', header[1]);
    methods := body;
    assert header == [SOCKS_VERSION, |methods|];
  }

  lemma StringRead(w: Wire, s: seq<byte>, rest: seq<byte>)
    requires |s| < 256 && w.input == LengthPrefixed(s) + rest
    ensures ReadString(w) == After(Ok(Utf8.Lossy(s)), w.(input := rest))
  {
    hide Read, Utf8.Lossy;
    var len: seq<byte> := [|s|];
    Assoc(len, s, rest);
    TakeFront(w, len, s + rest);
    TakeFront(w.(input := s + rest), s, rest);
  }

  lemma OnlyStringRead(w: Wire) returns (s: seq<byte>)
    requires ReadString(w).result.Ok?
    ensures |s| < 256 && ReadString(w).result == Ok(Utf8.Lossy(s))
    ensures w.input == LengthPrefixed(s) + ReadString(w).wire.input
    ensures ReadString(w).wire == w.(input := ReadString(w).wire.input)
  {
    ReadSplits(w, 1);
    var After(Ok(len), w') := Read(w, 1);
    ReadSplits(w', len[0]);
    s := Read(w', len[0]).result.value;
    assert len == [|s|];
    Assoc(len, s, Read(w', len[0]).wire.input);
  }

  ghost predicate Matches(auth: AuthConfig, username: seq<byte>, password: seq<byte>) {
    auth.username == Some(Utf8.Lossy(username)) && auth.password == Some(Utf8.Lossy(password))
  }

  lemma CredentialsAccepted(w: Wire, auth: AuthConfig, username: seq<byte>, password: seq<byte>, rest: seq<byte>)
    requires |username| < 256 && |password| < 256 && w.input == Credentials(username, password) + rest
    requires Matches(auth, username, password) && w.writesLeft > 0
    ensures BasicAuthenticate(w, auth) == After(Ok(()), Put(w.(input := rest), [0x01, 0x00]).1)
  {
    hide Read, ReadString, LengthPrefixed, Utf8.Lossy, Utf8.Valid;
    var u, p := LengthPrefixed(username), LengthPrefixed(password);
    var second := p + rest;
    var first := u + second;
    Assoc([0x01], u + p, rest);
    Assoc(u, p, rest);
    TakeFront(w, [0x01], first);
    StringRead(w.(input := first), username, second);
    StringRead(w.(input := second), password, rest);
  }

  lemma OnlyCredentialsAccepted(w: Wire, auth: AuthConfig) returns (username: seq<byte>, password: seq<byte>)
    requires BasicAuthenticate(w, auth).result.Ok?
    ensures |username| < 256 && |password| < 256 && Matches(auth, username, password) && w.writesLeft > 0
    ensures w.input == Credentials(username, password) + BasicAuthenticate(w, auth).wire.input
  {
    hide Read, ReadString, Utf8.Lossy, Utf8.Valid;
    ReadSplits(w, 1);
    var After(Ok(version), w') := Read(w, 1);
    username := OnlyStringRead(w');
    var w'' := ReadString(w').wire;
    password := OnlyStringRead(w'');
    assert version == [0x01];
    var u, p, rest := LengthPrefixed(username), LengthPrefixed(password), ReadString(w'').wire.input;
    Assoc(u, p, rest);
    Assoc([0x01], u + p, rest);
  }

  // ----- the two address parsers

  lemma PortRead(w: Wire)
    ensures |w.input| >= 2 ==> ReadPort(w) == After(Ok(PortOf(w.input[0], w.input[1])), w.(input := w.input[2..]))
    ensures |w.input| < 2 ==> ReadPort(w).result.Err?
  {
  }

  /** Reading an address off a stream and parsing it out of a buffer accept the same bytes with the same result. */
  lemma AddressParsersAgree(w: Wire, atyp: byte)
    ensures match ParseAddressBytes([atyp] + w.input)
            case Ok((a, n)) => ReadAddress(w, atyp) == After(Ok(a), w.(input := w.input[n - 1..]))
            case Err(_) => ReadAddress(w, atyp).result.Err?
  {
    if atyp == ATYP_DOMAIN {
      DomainParsersAgree(w);
    } else {
      var buf := [atyp] + w.input;
      var n := if atyp == ATYP_IPV4 then 4 else 16;
      if |w.input| >= n {
        assert buf[1..1 + n] == w.input[..n];
        PortRead(w.(input := w.input[n..]));
      }
    }
  }

  lemma DomainParsersAgree(w: Wire)
    ensures match ParseAddressBytes([ATYP_DOMAIN] + w.input)
            case Ok((a, n)) => ReadAddress(w, ATYP_DOMAIN) == After(Ok(a), w.(input := w.input[n - 1..]))
            case Err(_) => ReadAddress(w, ATYP_DOMAIN).result.Err?
  {
    hide Utf8.Valid, ReadPort;
    if |w.input| >= 1 && |w.input| > w.input[0] {
      var len: nat := w.input[0];
      var buf := [ATYP_DOMAIN] + w.input;
      assert w.input[1..][..len] == buf[2..2 + len];
      assert w.input[1..][len..] == w.input[1 + len..];
      PortRead(w.(input := w.input[1 + len..]));
    }
  }

  /** A request of any command, and more. */
  ghost predicate Requests(input: seq<byte>, command: byte, a: Address, rest: seq<byte>) {
    Encodable(a) && EncodeAddress(a).Ok? && input == [5, command, 0] + EncodeAddress(a).value + rest
  }

  /** The answer to each command number. */
  lemma RequestAnswered(w: Wire, command: byte, a: Address, rest: seq<byte>)
    requires Requests(w.input, command, a, rest)
    ensures ReadRequest(w) == After(
              if command == 1 then Ok(Connect(a))
              else if command == 3 then Ok(UdpAssociate(a))
              else Err(UnsupportedCommand),
              w.(input := rest))
  {
    EncodedShape(a);
    hide Read, ReadAddress, ParseAddressBytes, EncodeAddress, Utf8.Valid;
    var e := EncodeAddress(a).value;
    var header: seq<byte> := [5, command, 0, e[0]];
    assert w.input == header + (e[1..] + rest);
    TakeFront(w, header, e[1..] + rest);
    var w' := w.(input := e[1..] + rest);
    assert [header[3]] + w'.input == e + rest;
    ParseEncodedAddress(a, rest);
    AddressParsersAgree(w', header[3]);
    assert w'.input[|e| - 1..] == rest;
  }

  /** What is answered with a command or as unsupported was such a request. */
  lemma OnlyRequestAnswered(w: Wire) returns (command: byte, a: Address, rest: seq<byte>)
    requires ReadRequest(w).result.Ok? || ReadRequest(w).result == Err(UnsupportedCommand)
    ensures Requests(w.input, command, a, rest)
  {
    AddressErrors(w);
    hide Read, ReadAddress, ParseAddressBytes, EncodeAddress;
    ReadSplits(w, 4);
    var After(Ok(header), w') := Read(w, 4);
    command := header[1];
    a := ReadAddress(w', header[3]).result.value;
    rest := OnlyAddressRead(w', header[3]);
    var e := EncodeAddress(a).value;
    assert header == [5, command, 0] + [header[3]];
    calc {
      w.input;
      header + w'.input;
      [5, command, 0] + ([header[3]] + w'.input);
      [5, command, 0] + (e + rest);
      [5, command, 0] + e + rest;
    }
  }

  /** Reading itself never reports an unsupported command. */
  lemma AddressErrors(w: Wire)
    ensures Read(w, 4).result != Err(UnsupportedCommand)
    ensures Read(w, 4).result.Ok? ==>
      var After(Ok(header), w') := Read(w, 4);
      ReadAddress(w', header[3]).result != Err(UnsupportedCommand)
  {
    hide Utf8.Valid;
  }

  /** Requests are accepted, and refused as unsupported, exactly by their command number. */
  lemma RequestExactly(w: Wire)
    ensures ReadRequest(w).result.Ok? <==>
      exists command, a, rest :: Requests(w.input, command, a, rest) && command in {1, 3}
    ensures ReadRequest(w).result == Err(UnsupportedCommand) <==>
      exists command, a, rest :: Requests(w.input, command, a, rest) && command !in {1, 3}
  {
    hide ReadRequest, Requests;
    if ReadRequest(w).result.Ok? || ReadRequest(w).result == Err(UnsupportedCommand) {
      var command, a, rest := OnlyRequestAnswered(w);
      RequestAnswered(w, command, a, rest);
    }
    forall command: byte, a, rest | Requests(w.input, command, a, rest)
      ensures ReadRequest(w).result.Ok? <==> command in {1, 3}
      ensures ReadRequest(w).result == Err(UnsupportedCommand) <==> command !in {1, 3}
    {
      RequestAnswered(w, command, a, rest);
    }
  }

  lemma RequestAccepted(w: Wire, c: Command, rest: seq<byte>)
    requires Encodable(c.address) && w.input == Request(c) + rest
    ensures ReadRequest(w) == After(Ok(c), w.(input := rest))
  {
    EncodedShape(c.address);
    hide ReadRequest, EncodeAddress;
    RequestAnswered(w, if c.Connect? then 1 else 3, c.address, rest);
  }

  lemma OnlyRequestAccepted(w: Wire)
    requires ReadRequest(w).result.Ok?
    ensures var After(Ok(c), w') := ReadRequest(w);
            Encodable(c.address) && w.input == Request(c) + w'.input && w' == w.(input := w'.input)
  {
    hide ReadRequest, EncodeAddress;
    var command, a, rest := OnlyRequestAnswered(w);
    RequestAnswered(w, command, a, rest);
  }

  /** An address that is read was encoded on the stream, type byte first. */
  lemma OnlyAddressRead(w: Wire, atyp: byte) returns (rest: seq<byte>)
    requires ReadAddress(w, atyp).result.Ok?
    ensures var a := ReadAddress(w, atyp).result.value;
            && Encodable(a) && ReadAddress(w, atyp).wire == w.(input := rest)
            && EncodeAddress(a).Ok? && [atyp] + w.input == EncodeAddress(a).value + rest
  {
    hide ReadAddress, ParseAddressBytes;
    AddressParsersAgree(w, atyp);
    var buf := [atyp] + w.input;
    EncodeParsedAddress(buf);
    var (a, n) := ParseAddressBytes(buf).value;
    assert buf == buf[..n] + buf[n..];
    rest := w.input[n - 1..];
    assert buf[n..] == rest;
  }

  // ----- the whole session

  /** The client's half of a session that selects a command, followed by what it sends afterwards. */
  ghost predicate Dialogue(input: seq<byte>, bypass: bool, auth: AuthConfig, c: Command, rest: seq<byte>,
                           methods: seq<byte>, username: seq<byte>, password: seq<byte>)
  {
    && |methods| < 256 && |username| < 256 && |password| < 256 && Encodable(c.address)
    && (if bypass then 0 else 2) in methods
    && (bypass || Matches(auth, username, password))
    && input == Greeting(methods) + (CredentialsBlock(bypass, username, password) + (Request(c) + rest))
  }

  function CredentialsBlock(bypass: bool, username: seq<byte>, password: seq<byte>): seq<byte>
    requires |username| < 256 && |password| < 256
  {
    if bypass then [] else Credentials(username, password)
  }

  function AuthReply(bypass: bool): seq<byte> {
    if bypass then [] else [0x01, 0x00]
  }

  lemma AuthenticateAccepted(w: Wire, bypass: bool, auth: AuthConfig,
                             username: seq<byte>, password: seq<byte>, rest: seq<byte>)
    requires |username| < 256 && |password| < 256 && (bypass || (Matches(auth, username, password) && w.writesLeft > 0))
    requires w.input == CredentialsBlock(bypass, username, password) + rest
    ensures var After(r, w') := Authenticate(w, bypass, auth);
            r.Ok? && w'.input == rest && w'.sent == w.sent + AuthReply(bypass)
  {
    hide BasicAuthenticate, Utf8.Lossy, Utf8.Valid;
    if bypass {
      assert [] + rest == rest;
    } else {
      CredentialsAccepted(w, auth, username, password, rest);
    }
  }

  lemma OnlyAuthenticateAccepted(w: Wire, bypass: bool, auth: AuthConfig)
    returns (username: seq<byte>, password: seq<byte>)
    requires Authenticate(w, bypass, auth).result.Ok?
    ensures |username| < 256 && |password| < 256 && (bypass || (Matches(auth, username, password) && w.writesLeft > 0))
    ensures w.input == CredentialsBlock(bypass, username, password) + Authenticate(w, bypass, auth).wire.input
  {
    hide BasicAuthenticate, Utf8.Lossy, Utf8.Valid;
    if bypass {
      username, password := [], [];
      assert [] + w.input == w.input;
    } else {
      username, password := OnlyCredentialsAccepted(w, auth);
    }
  }

  lemma DialogueAccepted(w: Wire, bypass: bool, auth: AuthConfig, c: Command, rest: seq<byte>,
                         methods: seq<byte>, username: seq<byte>, password: seq<byte>)
    requires Dialogue(w.input, bypass, auth, c, rest, methods, username, password)
    requires w.writesLeft >= if bypass then 1 else 2
    ensures var Session(outcome, failures, w') := Serve(w, bypass, auth);
            && outcome == Socks(c) && failures == 0 && w'.input == rest
            && w'.sent == w.sent + [5, if bypass then 0 else 2] + AuthReply(bypass)
  {
    assert Greeting(methods)[0] == SOCKS_VERSION;
    hide Handshake, Authenticate, ReadRequest, Greeting, CredentialsBlock, Request, Utf8.Lossy, Utf8.Valid;
    var request := Request(c) + rest;
    GreetingAccepted(w, RequiredMethod(bypass), methods, CredentialsBlock(bypass, username, password) + request);
    var w' := Handshake(w, RequiredMethod(bypass)).wire;
    AuthenticateAccepted(w', bypass, auth, username, password, request);
    RequestAccepted(Authenticate(w', bypass, auth).wire, c, rest);
  }

  lemma OnlyDialogueAccepted(w: Wire, bypass: bool, auth: AuthConfig)
    returns (methods: seq<byte>, username: seq<byte>, password: seq<byte>)
    requires Serve(w, bypass, auth).outcome.Socks?
    ensures var Session(outcome, _, w') := Serve(w, bypass, auth);
            Dialogue(w.input, bypass, auth, outcome.command, w'.input, methods, username, password)
    ensures w.writesLeft >= if bypass then 1 else 2
  {
    hide Handshake, Authenticate, ReadRequest, Utf8.Lossy, Utf8.Valid;
    methods := OnlyGreetingAccepted(w, RequiredMethod(bypass));
    var w' := Handshake(w, RequiredMethod(bypass)).wire;
    username, password := OnlyAuthenticateAccepted(w', bypass, auth);
    OnlyRequestAccepted(Authenticate(w', bypass, auth).wire);
  }

  /**
   A command is reached with `rest` left for its relay exactly when the client sent a greeting that
   offers the required method, then (unless its address bypasses authentication) credentials equal to
   the configured ones after lossy decoding, then that command's request, then `rest`, and the replies
   could be written.
   */
  lemma SessionExact(w: Wire, bypass: bool, auth: AuthConfig, c: Command, rest: seq<byte>)
    ensures (Serve(w, bypass, auth).outcome == Socks(c) && Serve(w, bypass, auth).wire.input == rest)
      <==> w.writesLeft >= (if bypass then 1 else 2)
           && exists methods, username, password ::
                Dialogue(w.input, bypass, auth, c, rest, methods, username, password)
  {
    hide Serve, Dialogue;
    if Serve(w, bypass, auth).outcome == Socks(c) && Serve(w, bypass, auth).wire.input == rest {
      var methods, username, password := OnlyDialogueAccepted(w, bypass, auth);
    }
    if w.writesLeft >= if bypass then 1 else 2 {
      forall methods, username, password | Dialogue(w.input, bypass, auth, c, rest, methods, username, password)
        ensures Serve(w, bypass, auth).outcome == Socks(c) && Serve(w, bypass, auth).wire.input == rest
      {
        DialogueAccepted(w, bypass, auth, c, rest, methods, username, password);
      }
    }
  }

  // ----- refusals

  /** Without the required method on offer the client is told so and the session ends. */
  lemma GreetingRefused(w: Wire, bypass: bool, auth: AuthConfig, methods: seq<byte>, rest: seq<byte>)
    requires |methods| < 256 && w.input == Greeting(methods) + rest
    requires MethodByte(RequiredMethod(bypass)) !in methods && w.writesLeft > 0
    ensures var Session(outcome, failures, w') := Serve(w, bypass, auth);
            && outcome == Failed(NoAcceptableAuthMethod) && failures == (if bypass then 0 else 1)
            && w'.input == rest && w'.sent == w.sent + [SOCKS_VERSION, 0xFF]
  {
    var header: seq<byte> := [SOCKS_VERSION, |methods|];
    Assoc(header, methods, rest);
    TakeFront(w, header, methods + rest);
    TakeFront(w.(input := methods + rest), methods, rest);
    hide Read, Authenticate, ReadRequest;
  }

  /** Wrong credentials are answered with a failure status, counted, and end the session. */
  lemma CredentialsRefused(w: Wire, auth: AuthConfig, methods: seq<byte>,
                           username: seq<byte>, password: seq<byte>, rest: seq<byte>)
    requires |methods| < 256 && |username| < 256 && |password| < 256 && SOCKS_AUTH_USER in methods
    requires w.input == Greeting(methods) + (Credentials(username, password) + rest)
    requires auth.username.Some? && auth.password.Some? && !Matches(auth, username, password) && w.writesLeft >= 2
    ensures var Session(outcome, failures, w') := Serve(w, false, auth);
            && outcome == Failed(AuthFailed) && failures == 1 && w'.input == rest
            && w'.sent == w.sent + [SOCKS_VERSION, SOCKS_AUTH_USER] + [0x01, 0x01]
  {
    assert Greeting(methods)[0] == SOCKS_VERSION;
    GreetingAccepted(w, UsernamePassword, methods, Credentials(username, password) + rest);
    hide Handshake, ReadRequest, Greeting;
    var w' := Handshake(w, UsernamePassword).wire;
    WrongCredentials(w', auth, username, password, rest);
    hide BasicAuthenticate;
  }

  lemma WrongCredentials(w: Wire, auth: AuthConfig, username: seq<byte>, password: seq<byte>, rest: seq<byte>)
    requires |username| < 256 && |password| < 256 && w.input == Credentials(username, password) + rest
    requires auth.username.Some? && auth.password.Some? && !Matches(auth, username, password) && w.writesLeft > 0
    ensures BasicAuthenticate(w, auth) == After(Err(AuthFailed), Put(w.(input := rest), [0x01, 0x01]).1)
  {
    hide Read, ReadString, LengthPrefixed, Utf8.Lossy, Utf8.Valid;
    var u, p := LengthPrefixed(username), LengthPrefixed(password);
    var second := p + rest;
    var first := u + second;
    Assoc([0x01], u + p, rest);
    Assoc(u, p, rest);
    TakeFront(w, [0x01], first);
    StringRead(w.(input := first), username, second);
    StringRead(w.(input := second), password, rest);
  }

  // ----- every session, from outside

  /**
   The protocol goes by the first byte: anything but 5 is HTTP, which gets the whole stream, the byte
   that was looked at included, with nothing sent and nothing counted. A client that sends nothing is
   dropped silently, or as failed if the connection broke.
   */
  lemma DispatchExactly(w: Wire, bypass: bool, auth: AuthConfig)
    ensures var Session(outcome, failures, left) := Serve(w, bypass, auth);
      && (outcome.Http? <==> w.input != [] && w.input[0] != 5)
      && (outcome.Silent? <==> w.input == [] && w.ending.Eof?)
      && (w.input == [] && w.ending.Broken? ==> outcome == Failed(Io(ReadFailed)))
      && (w.input == [] || w.input[0] != 5 ==> left == w && failures == 0)
  {
    hide Handshake, Authenticate, ReadRequest;
  }

  /** `input` is a greeting that offers `methods`, and more. */
  ghost predicate Greets(input: seq<byte>, methods: seq<byte>, rest: seq<byte>) {
    |methods| < 256 && input == [5, |methods|] + methods + rest
  }

  /** `input` is a username/password message, and more. */
  ghost predicate LogsIn(input: seq<byte>, username: seq<byte>, password: seq<byte>, rest: seq<byte>) {
    && |username| < 256 && |password| < 256
    && input == [1, |username|] + username + [|password|] + password + rest
  }

  lemma GreetsOnce(input: seq<byte>, m: seq<byte>, r: seq<byte>, m': seq<byte>, r': seq<byte>)
    requires Greets(input, m, r) && Greets(input, m', r')
    ensures m == m' && r == r'
  {
    var n: nat := input[1];
    assert |m| == n && |m'| == n;
    assert input[2..2 + n] == m && input[2..2 + n] == m' && input[2 + n..] == r && input[2 + n..] == r';
  }

  lemma LogsInOnce(input: seq<byte>, u: seq<byte>, p: seq<byte>, r: seq<byte>,
                   u': seq<byte>, p': seq<byte>, r': seq<byte>)
    requires LogsIn(input, u, p, r) && LogsIn(input, u', p', r')
    ensures u == u' && p == p' && r == r'
  {
    LoginParts(input, u, p, r);
    LoginParts(input, u', p', r');
  }

  lemma LoginParts(input: seq<byte>, u: seq<byte>, p: seq<byte>, r: seq<byte>)
    requires LogsIn(input, u, p, r)
    ensures |u| == input[1] && input[2..2 + |u|] == u && |p| == input[2 + |u|]
    ensures input[3 + |u|..3 + |u| + |p|] == p && input[3 + |u| + |p|..] == r
  {
  }

  /** No complete greeting: nothing is answered. */
  lemma NoGreeting(w: Wire, m: AuthMethod)
    requires w.input != [] && w.input[0] == 5 && forall methods, rest :: !Greets(w.input, methods, rest)
    ensures Handshake(w, m).result == Err(Io(EndError(w.ending))) && Handshake(w, m).wire.sent == w.sent
  {
    if |w.input| >= 2 {
      ReadSplits(w, 2);
      var After(Ok(header), w') := Read(w, 2);
      if Read(w', header[1]).result.Ok? {
        ReadSplits(w', header[1]);
        var methods, rest := Read(w', header[1]).result.value, Read(w', header[1]).wire.input;
        Assoc(header, methods, rest);
        assert header == [5, |methods|];
        assert Greets(w.input, methods, rest);
      }
    }
  }

  /** A complete greeting: the method is chosen, or refused, or the answer cannot be written. */
  lemma GreetingAnswered(w: Wire, m: AuthMethod, methods: seq<byte>, rest: seq<byte>)
    requires Greets(w.input, methods, rest)
    ensures var chosen: seq<byte> := if MethodByte(m) in methods then [5, MethodByte(m)] else [5, 0xFF];
      Handshake(w, m) ==
        if w.writesLeft == 0 then After(Err(Io(WriteFailed)), w.(input := rest))
        else After(if MethodByte(m) in methods then Ok(()) else Err(NoAcceptableAuthMethod),
                   w.(input := rest, sent := w.sent + chosen, writesLeft := w.writesLeft - 1))
  {
    var header: seq<byte> := [5, |methods|];
    Assoc(header, methods, rest);
    TakeFront(w, header, methods + rest);
    TakeFront(w.(input := methods + rest), methods, rest);
  }

  /** No complete login: nothing is answered. */
  lemma NoLogin(w: Wire, auth: AuthConfig)
    requires forall u, p, rest :: !LogsIn(w.input, u, p, rest)
    ensures BasicAuthenticate(w, auth).result ==
      Err(if w.input != [] && w.input[0] != 1 then InvalidProtocol else Io(EndError(w.ending)))
    ensures BasicAuthenticate(w, auth).wire.sent == w.sent
  {
    hide ReadString, Write, Utf8.Lossy, Utf8.Valid;
    if w.input != [] && w.input[0] == 1 {
      ReadSplits(w, 1);
      var w' := Read(w, 1).wire;
      StringFails(w');
      StringFails(ReadString(w').wire);
      if ReadString(w').result.Ok? && ReadString(ReadString(w').wire).result.Ok? {
        var u, p, rest := OnlyLoginRead(w);
        assert false;
      }
    }
  }

  lemma OnlyLoginRead(w: Wire) returns (u: seq<byte>, p: seq<byte>, rest: seq<byte>)
    requires w.input != [] && w.input[0] == 1
    requires var w' := Read(w, 1).wire;
             ReadString(w').result.Ok? && ReadString(ReadString(w').wire).result.Ok?
    ensures LogsIn(w.input, u, p, rest)
  {
    hide ReadString, LengthPrefixed, Utf8.Lossy, Utf8.Valid;
    ReadSplits(w, 1);
    var w' := Read(w, 1).wire;
    u := OnlyStringRead(w');
    var w'' := ReadString(w').wire;
    p := OnlyStringRead(w'');
    rest := ReadString(w'').wire.input;
    LoginBytes(u, p, rest);
    assert w.input == [1] + w'.input;
  }

  lemma StringFails(w: Wire)
    ensures ReadString(w).wire.sent == w.sent && ReadString(w).wire.ending == w.ending
    ensures ReadString(w).result.Err? ==> ReadString(w).result == Err(Io(EndError(w.ending)))
  {
    hide Utf8.Lossy, Utf8.Valid;
  }

  lemma LoginBytes(u: seq<byte>, p: seq<byte>, rest: seq<byte>)
    requires |u| < 256 && |p| < 256
    ensures [1] + (LengthPrefixed(u) + (LengthPrefixed(p) + rest)) == [1, |u|] + u + [|p|] + p + rest
    ensures Credentials(u, p) + rest == [1, |u|] + u + [|p|] + p + rest
  {
  }

  /** A complete login: unanswered without configured credentials, else answered by the comparison. */
  lemma LoginAnswered(w: Wire, auth: AuthConfig, username: seq<byte>, password: seq<byte>, rest: seq<byte>)
    requires LogsIn(w.input, username, password, rest)
    ensures BasicAuthenticate(w, auth) ==
      if auth.username.None? || auth.password.None? then After(Err(AuthUnavailable), w.(input := rest))
      else if w.writesLeft == 0 then After(Err(Io(WriteFailed)), w.(input := rest))
      else if Matches(auth, username, password) then
        After(Ok(()), w.(input := rest, sent := w.sent + [1, 0], writesLeft := w.writesLeft - 1))
      else After(Err(AuthFailed), w.(input := rest, sent := w.sent + [1, 1], writesLeft := w.writesLeft - 1))
  {
    LoginBytes(username, password, rest);
    hide Read, ReadString, LengthPrefixed, Utf8.Lossy, Utf8.Valid;
    var second := LengthPrefixed(password) + rest;
    var first := LengthPrefixed(username) + second;
    TakeFront(w, [1], first);
    StringRead(w.(input := first), username, second);
    StringRead(w.(input := second), password, rest);
  }

  lemma RequestIsSilent(w: Wire)
    ensures ReadRequest(w).wire.sent == w.sent
  {
    hide Utf8.Valid;
  }

  /** The client offers the method it has to use, or a greeting without it. */
  ghost predicate Offers(input: seq<byte>, bypass: bool, offered: bool) {
    exists methods, rest :: Greets(input, methods, rest) && ((if bypass then 0 else 2) in methods <==> offered)
  }

  /** A complete login that matches the configured one, or one that does not. */
  ghost predicate Claims(input: seq<byte>, auth: AuthConfig, matching: bool) {
    && auth.username.Some? && auth.password.Some?
    && exists username, password, rest ::
         LogsIn(input, username, password, rest) && (Matches(auth, username, password) <==> matching)
  }

  /** It offers username/password and then logs in with a matching or another login. */
  ghost predicate Presents(input: seq<byte>, auth: AuthConfig, matching: bool) {
    exists methods, rest :: Greets(input, methods, rest) && 2 in methods && Claims(rest, auth, matching)
  }

  /** What the client has been sent when its session ends or its command is reached. */
  ghost function Replies(w: Wire, bypass: bool, auth: AuthConfig): seq<byte> {
    if w.writesLeft == 0 || !(Offers(w.input, bypass, true) || Offers(w.input, bypass, false)) then []
    else if Offers(w.input, bypass, false) then [5, 0xFF]
    else if bypass then [5, 0]
    else if w.writesLeft == 1 || !(Presents(w.input, auth, true) || Presents(w.input, auth, false)) then [5, 2]
    else if Presents(w.input, auth, true) then [5, 2, 1, 0]
    else [5, 2, 1, 1]
  }

  /**
   What is replied and what is counted in every session, failed or not: the chosen method or 0xFF for a
   complete greeting, the status for a complete login while credentials are configured, as far as
   writing works. One failure is counted exactly for a SOCKS client that has to log in and is not told
   that it has.
   */
  lemma RepliesExactly(w: Wire, bypass: bool, auth: AuthConfig)
    ensures var Session(outcome, failures, left) := Serve(w, bypass, auth);
      && left.sent == w.sent + (if w.input == [] || w.input[0] != 5 then [] else Replies(w, bypass, auth))
      && failures == (if w.input == [] || w.input[0] != 5 || bypass
                         || (Presents(w.input, auth, true) && w.writesLeft >= 2) then 0 else 1)
  {
    if w.input == [] || w.input[0] != 5 {
      assert w.sent + [] == w.sent;
    } else if exists methods, rest :: Greets(w.input, methods, rest) {
      var methods, rest :| Greets(w.input, methods, rest);
      hide *;
      RepliesAfterGreeting(w, bypass, auth, methods, rest);
    } else {
      NoGreeting(w, RequiredMethod(bypass));
      assert w.sent + [] == w.sent;
      hide Greets, Claims, Handshake, BasicAuthenticate, ReadRequest;
    }
  }

  lemma OffersExactly(input: seq<byte>, bypass: bool, methods: seq<byte>, rest: seq<byte>)
    requires Greets(input, methods, rest)
    ensures forall offered :: Offers(input, bypass, offered) <==> ((if bypass then 0 else 2) in methods <==> offered)
  {
    forall m, r | Greets(input, m, r) ensures m == methods && r == rest {
      GreetsOnce(input, m, r, methods, rest);
    }
    hide Greets;
  }

  lemma PresentsExactly(input: seq<byte>, auth: AuthConfig, methods: seq<byte>, rest: seq<byte>)
    requires Greets(input, methods, rest)
    ensures forall matching :: Presents(input, auth, matching) <==> 2 in methods && Claims(rest, auth, matching)
  {
    forall m, r | Greets(input, m, r) ensures m == methods && r == rest {
      GreetsOnce(input, m, r, methods, rest);
    }
    hide Greets, Claims;
  }

  lemma ClaimsExactly(input: seq<byte>, auth: AuthConfig, u: seq<byte>, p: seq<byte>, rest: seq<byte>)
    requires LogsIn(input, u, p, rest)
    ensures forall matching :: Claims(input, auth, matching) <==>
      auth.username.Some? && auth.password.Some? && (Matches(auth, u, p) <==> matching)
  {
    forall u', p', rest' | LogsIn(input, u', p', rest') ensures u == u' && p == p' && rest == rest' {
      LogsInOnce(input, u, p, rest, u', p', rest');
    }
    hide LogsIn, Matches;
  }

  /** From the chosen method on, for a client that has to log in. */
  lemma RepliesToLogin(w: Wire, auth: AuthConfig)
    ensures var After(r, left) := BasicAuthenticate(w, auth);
      && (r.Ok? <==> Claims(w.input, auth, true) && w.writesLeft > 0)
      && left.sent == w.sent + (if w.writesLeft == 0 then []
                                else if Claims(w.input, auth, true) then [1, 0]
                                else if Claims(w.input, auth, false) then [1, 1]
                                else [])
  {
    assert w.sent + [] == w.sent;
    hide LogsIn, Matches, BasicAuthenticate;
    if exists u, p, rest :: LogsIn(w.input, u, p, rest) {
      var u, p, rest :| LogsIn(w.input, u, p, rest);
      LoginAnswered(w, auth, u, p, rest);
      ClaimsExactly(w.input, auth, u, p, rest);
      hide Claims;
    } else {
      NoLogin(w, auth);
    }
  }

  lemma RepliesAfterGreeting(w: Wire, bypass: bool, auth: AuthConfig, methods: seq<byte>, rest: seq<byte>)
    requires w.input != [] && w.input[0] == 5 && Greets(w.input, methods, rest)
    ensures var Session(outcome, failures, left) := Serve(w, bypass, auth);
      && left.sent == w.sent + Replies(w, bypass, auth)
      && failures == if bypass || (Presents(w.input, auth, true) && w.writesLeft >= 2) then 0 else 1
  {
    OffersExactly(w.input, bypass, methods, rest);
    GreetingAnswered(w, RequiredMethod(bypass), methods, rest);
    hide Greets, Claims, Offers, Presents, Handshake, BasicAuthenticate, ReadRequest;
    var After(r, w') := Handshake(w, RequiredMethod(bypass));
    assert w.sent + [] == w.sent;
    if r.Ok? {
      RequestIsSilent(w');
      if !bypass {
        PresentsExactly(w.input, auth, methods, rest);
        RepliesToLogin(w', auth);
        RequestIsSilent(BasicAuthenticate(w', auth).wire);
        TwoReplies(w.sent, 1, 0);
        TwoReplies(w.sent, 1, 1);
        assert w.sent + [5, 2] + [] == w.sent + [5, 2];
      }
    } else if !bypass {
      PresentsExactly(w.input, auth, methods, rest);
    }
  }

  lemma TwoReplies(sent: seq<byte>, version: byte, status: byte)
    ensures sent + [5, 2] + [version, status] == sent + [5, 2, version, status]
  {
  }

  // ----- nothing is lost, reordered or invented on the way

  /** `w'` is `w` after bytes were consumed from the front and replies were added at the end. */
  ghost predicate Later(w: Wire, w': Wire) {
    && |w'.input| <= |w.input| && w'.input == w.input[|w.input| - |w'.input|..]
    && w.sent <= w'.sent && w'.ending == w.ending && w'.writesLeft <= w.writesLeft
  }

  lemma LaterRefl(w: Wire)
    ensures Later(w, w)
  {
  }

  lemma LaterTrans(a: Wire, b: Wire, c: Wire)
    requires Later(a, b) && Later(b, c)
    ensures Later(a, c)
  {
    assert b.input[|b.input| - |c.input|..] == a.input[|a.input| - |c.input|..];
  }

  lemma LaterRead(a: Wire, w: Wire, n: nat)
    requires Later(a, w)
    ensures Later(a, Read(w, n).wire)
  {
    LaterTrans(a, w, Read(w, n).wire);
  }

  lemma LaterWrite(a: Wire, w: Wire, bytes: seq<byte>)
    requires Later(a, w)
    ensures Later(a, Write(w, bytes).wire)
  {
    LaterTrans(a, w, Write(w, bytes).wire);
  }

  lemma LaterHandshake(w: Wire, m: AuthMethod)
    ensures Later(w, Handshake(w, m).wire)
  {
    hide Read, Write;
    LaterRead(w, w, 2);
    var After(header, w') := Read(w, 2);
    if header.Ok? {
      ReadSplits(w, 2);
      LaterRead(w, w', header.value[1]);
      var w'' := Read(w', header.value[1]).wire;
      LaterWrite(w, w'', [SOCKS_VERSION, MethodByte(m)]);
      LaterWrite(w, w'', [SOCKS_VERSION, 0xFF]);
    }
  }

  lemma LaterString(a: Wire, w: Wire)
    requires Later(a, w)
    ensures Later(a, ReadString(w).wire)
  {
    hide Read;
    LaterRead(a, w, 1);
    var After(len, w') := Read(w, 1);
    if len.Ok? {
      ReadSplits(w, 1);
      LaterRead(a, w', len.value[0]);
    }
  }

  lemma LaterAuthenticate(w: Wire, auth: AuthConfig)
    ensures Later(w, BasicAuthenticate(w, auth).wire)
  {
    hide Read, Write, ReadString;
    LaterRead(w, w, 1);
    var w' := Read(w, 1).wire;
    LaterString(w, w');
    var w'' := ReadString(w').wire;
    LaterString(w, w'');
    var w3 := ReadString(w'').wire;
    LaterWrite(w, w3, [0x01, 0x00]);
    LaterWrite(w, w3, [0x01, 0x01]);
  }

  lemma LaterPort(a: Wire, w: Wire)
    requires Later(a, w)
    ensures Later(a, ReadPort(w).wire)
  {
    LaterRead(a, w, 2);
  }

  lemma LaterAddress(a: Wire, w: Wire, atyp: byte)
    requires Later(a, w)
    ensures Later(a, ReadAddress(w, atyp).wire)
  {
    hide Read, ReadPort, Utf8.Valid;
    var n := if atyp == ATYP_IPV4 then 4 else if atyp == ATYP_IPV6 then 16 else 1;
    LaterRead(a, w, n);
    var After(first, w') := Read(w, n);
    LaterPort(a, w');
    if atyp == ATYP_DOMAIN && first.Ok? {
      ReadSplits(w, 1);
      LaterRead(a, w', first.value[0]);
      LaterPort(a, Read(w', first.value[0]).wire);
    }
  }

  lemma LaterRequest(w: Wire)
    ensures Later(w, ReadRequest(w).wire)
  {
    hide Read, ReadAddress;
    LaterRead(w, w, 4);
    var After(header, w') := Read(w, 4);
    if header.Ok? {
      ReadSplits(w, 4);
      LaterAddress(w, w', header.value[3]);
    }
  }

  /**
   In every session, also a failed one, what was consumed followed by what is left is what the client
   sent, and replies are only appended.
   */
  lemma SessionConserves(w: Wire, bypass: bool, auth: AuthConfig)
    ensures Later(w, Serve(w, bypass, auth).wire)
  {
    LaterRefl(w);
    hide Handshake, Authenticate, ReadRequest, Later;
    LaterHandshake(w, RequiredMethod(bypass));
    var w' := Handshake(w, RequiredMethod(bypass)).wire;
    LaterAuthentication(w, w', bypass, auth);
    var w'' := Authenticate(w', bypass, auth).wire;
    LaterRequest(w'');
    LaterTrans(w, w'', ReadRequest(w'').wire);
  }

  lemma LaterAuthentication(a: Wire, w: Wire, bypass: bool, auth: AuthConfig)
    requires Later(a, w)
    ensures Later(a, Authenticate(w, bypass, auth).wire)
  {
    hide BasicAuthenticate, Later;
    if !bypass {
      LaterAuthenticate(w, auth);
      LaterTrans(a, w, BasicAuthenticate(w, auth).wire);
    }
  }

  // ----- the session as the program runs it, over a fragmented stream

  method ReadWithTimeout(stream: PrefixedStream, n: nat) returns (r: Result<seq<byte>, SocksError>)
    requires stream.Valid()
    modifies stream, stream.stream
    ensures stream.Valid()
    ensures After(r, stream.View()) == Read(old(stream.View()), n)
  {
    var got := stream.ReadExact(n);
    match got {
      case Ok(bytes) => r := Ok(bytes);
      case Err(e) => r := Err(Io(e));
    }
  }

  method WriteWithTimeout(stream: PrefixedStream, bytes: seq<byte>) returns (r: Result<(), SocksError>)
    requires stream.Valid()
    modifies stream.stream
    ensures stream.Valid()
    ensures After(r, stream.View()) == Write(old(stream.View()), bytes)
  {
    var put := stream.WriteAll(bytes);
    match put {
      case Ok(_) => r := Ok(());
      case Err(e) => r := Err(Io(e));
    }
  }

  method RunHandshake(stream: PrefixedStream, m: AuthMethod) returns (r: Result<(), SocksError>)
    requires stream.Valid()
    modifies stream, stream.stream
    ensures stream.Valid()
    ensures After(r, stream.View()) == Handshake(old(stream.View()), m)
  {
    hide Write, Utf8.Valid;
    var header := ReadWithTimeout(stream, 2);
    if header.Err? { return Err(header.error); }
    if header.value[0] != SOCKS_VERSION { return Err(InvalidProtocol); }
    var methods := ReadWithTimeout(stream, header.value[1]);
    if methods.Err? { return Err(methods.error); }
    if MethodByte(m) !in methods.value {
      var rejected := WriteWithTimeout(stream, [SOCKS_VERSION, 0xFF]);
      return if rejected.Err? then rejected else Err(NoAcceptableAuthMethod);
    }
    r := WriteWithTimeout(stream, [SOCKS_VERSION, MethodByte(m)]);
  }

  method RunReadString(stream: PrefixedStream) returns (r: Result<seq<byte>, SocksError>)
    requires stream.Valid()
    modifies stream, stream.stream
    ensures stream.Valid()
    ensures After(r, stream.View()) == ReadString(old(stream.View()))
  {
    var len := ReadWithTimeout(stream, 1);
    if len.Err? { return len; }
    var body := ReadWithTimeout(stream, len.value[0]);
    if body.Err? { return body; }
    return Ok(Utf8.Lossy(body.value));
  }

  method RunBasicAuthenticate(stream: PrefixedStream, auth: AuthConfig) returns (r: Result<(), SocksError>)
    requires stream.Valid()
    modifies stream, stream.stream
    ensures stream.Valid()
    ensures After(r, stream.View()) == BasicAuthenticate(old(stream.View()), auth)
  {
    hide Write, ReadString, Utf8.Valid;
    var version := ReadWithTimeout(stream, 1);
    if version.Err? { return Err(version.error); }
    if version.value[0] != 0x01 { return Err(InvalidProtocol); }
    var username := RunReadString(stream);
    if username.Err? { return Err(username.error); }
    var password := RunReadString(stream);
    if password.Err? { return Err(password.error); }
    if auth.username.None? || auth.password.None? { return Err(AuthUnavailable); }
    if auth.username == Some(username.value) && auth.password == Some(password.value) {
      r := WriteWithTimeout(stream, [0x01, 0x00]);
      return;
    }
    var refused := WriteWithTimeout(stream, [0x01, 0x01]);
    return if refused.Err? then refused else Err(AuthFailed);
  }

  method RunReadPort(stream: PrefixedStream) returns (r: Result<u16, SocksError>)
    requires stream.Valid()
    modifies stream, stream.stream
    ensures stream.Valid()
    ensures After(r, stream.View()) == ReadPort(old(stream.View()))
  {
    var bytes := ReadWithTimeout(stream, 2);
    if bytes.Err? { return Err(bytes.error); }
    return Ok(PortOf(bytes.value[0], bytes.value[1]));
  }

  method RunReadAddress(stream: PrefixedStream, atyp: byte) returns (r: Result<Address, SocksError>)
    requires stream.Valid()
    modifies stream, stream.stream
    ensures stream.Valid()
    ensures After(r, stream.View()) == ReadAddress(old(stream.View()), atyp)
  {
    hide ReadPort;
    if atyp == ATYP_IPV4 {
      var ip := ReadWithTimeout(stream, 4);
      if ip.Err? { return Err(ip.error); }
      var port := RunReadPort(stream);
      return if port.Err? then Err(port.error) else Ok(V4(ip.value, port.value));
    } else if atyp == ATYP_DOMAIN {
      var len := ReadWithTimeout(stream, 1);
      if len.Err? { return Err(len.error); }
      if len.value[0] == 0 { return Err(InvalidProtocol); }
      var name := ReadWithTimeout(stream, len.value[0]);
      if name.Err? { return Err(name.error); }
      var port := RunReadPort(stream);
      if port.Err? { return Err(port.error); }
      return if Utf8.Valid(name.value) then Ok(Domain(name.value, port.value)) else Err(InvalidProtocol);
    } else if atyp == ATYP_IPV6 {
      var ip := ReadWithTimeout(stream, 16);
      if ip.Err? { return Err(ip.error); }
      var port := RunReadPort(stream);
      return if port.Err? then Err(port.error) else Ok(V6(ip.value, port.value));
    }
    return Err(InvalidProtocol);
  }

  method RunReadRequest(stream: PrefixedStream) returns (r: Result<Command, SocksError>)
    requires stream.Valid()
    modifies stream, stream.stream
    ensures stream.Valid()
    ensures After(r, stream.View()) == ReadRequest(old(stream.View()))
  {
    hide ReadAddress;
    var header := ReadWithTimeout(stream, 4);
    if header.Err? { return Err(header.error); }
    var h := header.value;
    if h[0] != SOCKS_VERSION { return Err(InvalidProtocol); }
    if h[2] != 0x00 { return Err(InvalidProtocol); }
    var address := RunReadAddress(stream, h[3]);
    if address.Err? { return Err(address.error); }
    if h[1] == SOCKS_CMD_CONNECT { return Ok(Connect(address.value)); }
    if h[1] == SOCKS_CMD_UDP_ASSOCIATE { return Ok(UdpAssociate(address.value)); }
    return Err(UnsupportedCommand);
  }

  /**
   One accepted connection. Replies, outcome and counted authentication failures depend on the bytes
   that arrive and on nothing else about how they arrive; `left` is the stream handed to the relay.
   */
  method RunConnection(socket: TcpStream, bypass: bool, auth: AuthConfig)
    returns (outcome: Outcome, authFailures: nat, left: PrefixedStream?)
    requires socket.Valid()
    modifies socket
    ensures socket.Valid()
    ensures left != null ==> fresh(left) && left.Valid() && left.stream == socket
    ensures left == null ==> Session(outcome, authFailures, socket.View()) == Serve(old(socket.View()), bypass, auth)
    ensures left != null ==> Session(outcome, authFailures, left.View()) == Serve(old(socket.View()), bypass, auth)
    ensures outcome.Socks? || outcome.Http? ==> left != null
  {
    hide Handshake, BasicAuthenticate, ReadRequest, Utf8.Valid;
    var first := socket.Read(1);
    if first.Err? {
      return Failed(Io(ReadFailed)), 0, null;
    }
    if first.value == [] {
      return Silent, 0, null;
    }
    var stream := new PrefixedStream(socket, first.value);
    if first.value[0] != SOCKS_VERSION {
      return Http, 0, stream;
    }
    var negotiated := RunHandshake(stream, RequiredMethod(bypass));
    if negotiated.Err? {
      return Failed(negotiated.error), if bypass then 0 else 1, stream;
    }
    if !bypass {
      var authenticated := RunBasicAuthenticate(stream, auth);
      if authenticated.Err? {
        return Failed(authenticated.error), 1, stream;
      }
    }
    var request := RunReadRequest(stream);
    if request.Err? {
      return Failed(request.error), 0, stream;
    }
    return Socks(request.value), 0, stream;
  }
}

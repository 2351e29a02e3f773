/**
 The SOCKS5 address encoding (section 5 of RFC 1928) and the UDP request header
 (section 7 of RFC 1928).
 */
module Protocol {
  import opened Basics
  import Utf8

  const ATYP_IPV4: byte := 0x01
  const ATYP_DOMAIN: byte := 0x03
  const ATYP_IPV6: byte := 0x04

  type Ip4 = s: seq<byte> | |s| == 4 witness [0, 0, 0, 0]
  type Ip6 = s: seq<byte> | |s| == 16 witness [0, 0, 0, 0, 0, 0, 0, 0, 0, 0, 0, 0, 0, 0, 0, 0]

  datatype Address =
    | V4(ip4: Ip4, port: u16)
    | V6(ip6: Ip6, port: u16)
    | Domain(name: Utf8.Utf8String, port: u16)

  datatype WireError = InvalidUdpPacket | DomainTooLong

  datatype Datagram = Datagram(destination: Address, payload: seq<byte>)

  /** `u16::to_be_bytes` */
  function PortBytes(port: u16): seq<byte> {
    [port / 256, port % 256]
  }

  /** `u16::from_be_bytes` */
  function PortOf(hi: byte, lo: byte): u16 {
    hi * 256 + lo
  }

  function AddressEncodedLen(a: Address): nat {
    match a
    case V4(_, _) => 1 + 4 + 2
    case V6(_, _) => 1 + 16 + 2
    case Domain(name, _) => 1 + 1 + |name| + 2
  }

  function EncodeAddress(a: Address): Result<seq<byte>, WireError> {
    match a
    case V4(ip, port) => Ok([ATYP_IPV4] + ip + PortBytes(port))
    case V6(ip, port) => Ok([ATYP_IPV6] + ip + PortBytes(port))
    case Domain(name, port) =>
      if |name| > 255 then Err(DomainTooLong)
      else Ok([ATYP_DOMAIN, |name|] + name + PortBytes(port))
  }

  function EncodeUdpDatagram(source: Address, payload: seq<byte>): Result<seq<byte>, WireError> {
    match EncodeAddress(source)
    case Err(e) => Err(e)
    case Ok(address) => Ok([0, 0, 0] + address + payload)
  }

  /** Parses an address at the front of a buffer and returns its encoded length. */
  function ParseAddressBytes(buf: seq<byte>): (r: Result<(Address, nat), WireError>)
    ensures r.Ok? ==> r.value.1 <= |buf|
  {
    if buf == [] then Err(InvalidUdpPacket)
    else if buf[0] == ATYP_IPV4 then
      if |buf| < 1 + 4 + 2 then Err(InvalidUdpPacket)
      else Ok((V4(buf[1..5], PortOf(buf[5], buf[6])), 1 + 4 + 2))
    else if buf[0] == ATYP_DOMAIN then
      if |buf| < 2 then Err(InvalidUdpPacket) else
      var len: nat := buf[1];
      if len == 0 || |buf| < 1 + 1 + len + 2 then Err(InvalidUdpPacket)
      else if !Utf8.Valid(buf[2..2 + len]) then Err(InvalidUdpPacket)
      else Ok((Domain(buf[2..2 + len], PortOf(buf[2 + len], buf[3 + len])), 1 + 1 + len + 2))
    else if buf[0] == ATYP_IPV6 then
      if |buf| < 1 + 16 + 2 then Err(InvalidUdpPacket)
      else Ok((V6(buf[1..17], PortOf(buf[17], buf[18])), 1 + 16 + 2))
    else Err(InvalidUdpPacket)
  }

  /** `Ok(None)` is a well-formed header whose FRAG octet asks for reassembly. */
  function ParseUdpDatagram(packet: seq<byte>): Result<Option<Datagram>, WireError> {
    if |packet| < 4 then Err(InvalidUdpPacket)
    else if packet[0] != 0 || packet[1] != 0 then Err(InvalidUdpPacket)
    else if packet[2] != 0 then Ok(None)
    else match ParseAddressBytes(packet[3..])
      case Err(e) => Err(e)
      case Ok((destination, len)) => Ok(Some(Datagram(destination, packet[3 + len..])))
  }

  /** An address that can be put on the wire and read back. */
  predicate Encodable(a: Address) {
    a.Domain? ==> 1 <= |a.name| <= 255
  }

  // ----- the address codec

  lemma EncodedShape(a: Address)
    ensures EncodeAddress(a).Err? <==> a.Domain? && |a.name| > 255
    ensures EncodeAddress(a).Ok? ==> |EncodeAddress(a).value| == AddressEncodedLen(a)
  {
  }

  /** The bytes of section 5 of RFC 1928: type, address, port with its high byte first. */
  predicate LaidOut(bytes: seq<byte>, atyp: byte, address: seq<byte>, port: u16) {
    && |bytes| == 1 + |address| + 2 && bytes[0] == atyp && bytes[1..1 + |address|] == address
    && bytes[1 + |address|] as int * 256 + bytes[2 + |address|] == port
  }

  lemma AddressLayout(a: Address)
    requires EncodeAddress(a).Ok?
    ensures var bytes := EncodeAddress(a).value;
            match a
            case V4(ip, port) => LaidOut(bytes, 1, ip, port)
            case V6(ip, port) => LaidOut(bytes, 4, ip, port)
            case Domain(name, port) => |name| <= 255 && LaidOut(bytes, 3, [|name|] + name, port)
  {
    hide Utf8.Valid;
    var bytes := EncodeAddress(a).value;
    match a {
      case V4(ip, port) => assert bytes[1..5] == ip;
      case V6(ip, port) => assert bytes[1..17] == ip;
      case Domain(name, port) => assert bytes[1..2 + |name|] == [|name|] + name;
    }
  }

  /** Parsing what was encoded, whatever follows it; an empty domain is written but not accepted. */
  lemma ParseEncodedAddress(a: Address, rest: seq<byte>)
    requires EncodeAddress(a).Ok?
    ensures Encodable(a) ==> ParseAddressBytes(EncodeAddress(a).value + rest) == Ok((a, AddressEncodedLen(a)))
    ensures !Encodable(a) ==> ParseAddressBytes(EncodeAddress(a).value + rest).Err?
  {
    var buf := EncodeAddress(a).value + rest;
    match a
    case V4(ip, port) => assert buf[1..5] == ip;
    case V6(ip, port) => assert buf[1..17] == ip;
    case Domain(name, port) => assert buf[2..2 + |name|] == name;
  }

  /** Whatever parses is the encoding of what was parsed. */
  lemma EncodeParsedAddress(buf: seq<byte>)
    requires ParseAddressBytes(buf).Ok?
    ensures var (a, n) := ParseAddressBytes(buf).value;
            Encodable(a) && n == AddressEncodedLen(a) && EncodeAddress(a) == Ok(buf[..n])
  {
    hide Utf8.Valid;
    var (a, n) := ParseAddressBytes(buf).value;
    assert buf[n - 2..n] == PortBytes(a.port);
    if a.Domain? {
      assert buf[..n] == [ATYP_DOMAIN, |a.name|] + a.name + buf[n - 2..n];
    } else {
      assert buf[..n] == [buf[0]] + buf[1..n - 2] + buf[n - 2..n];
    }
  }

  /** No encoding is a prefix of a different address's encoding. */
  lemma EncodingsArePrefixFree(a: Address, b: Address)
    requires EncodeAddress(a).Ok? && EncodeAddress(b).Ok?
    requires EncodeAddress(a).value <= EncodeAddress(b).value
    ensures a == b
  {
    var x, y := EncodeAddress(a).value, EncodeAddress(b).value;
    var n := |x|;
    assert x[0] == y[0] && x[1] == y[1];
    assert x[n - 2] == y[n - 2] && x[n - 1] == y[n - 1];
    match a {
      case V4(ip, port) => assert ip == x[1..5] == y[1..5] == b.ip4;
      case V6(ip, port) => assert ip == x[1..17] == y[1..17] == b.ip6;
      case Domain(name, port) => assert name == x[2..2 + |name|] == y[2..2 + |name|] == b.name;
    }
  }

  // ----- the datagram codec

  /** Decoding inverts encoding, except that an empty domain name does not survive. */
  lemma ParseEncodedDatagram(a: Address, payload: seq<byte>)
    requires EncodeUdpDatagram(a, payload).Ok?
    ensures Encodable(a) <==> ParseUdpDatagram(EncodeUdpDatagram(a, payload).value) == Ok(Some(Datagram(a, payload)))
    ensures |EncodeUdpDatagram(a, payload).value| == 3 + AddressEncodedLen(a) + |payload|
  {
    var address := EncodeAddress(a).value;
    var packet := EncodeUdpDatagram(a, payload).value;
    assert packet[3..] == address + payload;
    ParseEncodedAddress(a, payload);
    assert packet[3 + |address|..] == payload;
  }

  /** Encoding inverts decoding on every packet that decodes. */
  lemma EncodeParsedDatagram(packet: seq<byte>)
    requires ParseUdpDatagram(packet).Ok? && ParseUdpDatagram(packet).value.Some?
    ensures var d := ParseUdpDatagram(packet).value.value;
            Encodable(d.destination) && EncodeUdpDatagram(d.destination, d.payload) == Ok(packet)
  {
    EncodeParsedAddress(packet[3..]);
    var n := ParseAddressBytes(packet[3..]).value.1;
    assert packet == packet[..3] + packet[3..][..n] + packet[3 + n..];
    assert packet[..3] == [0, 0, 0];
  }

  /**
   The packets that decode are exactly the encodings: two reserved zero bytes, fragment number zero,
   the address, the payload. Another fragment number alone is told apart as a fragment.
   */
  lemma DatagramExactly(packet: seq<byte>, a: Address, payload: seq<byte>)
    ensures ParseUdpDatagram(packet) == Ok(Some(Datagram(a, payload))) <==>
      Encodable(a) && EncodeAddress(a).Ok? && packet == [0, 0, 0] + EncodeAddress(a).value + payload
    ensures ParseUdpDatagram(packet) == Ok(None) <==>
      |packet| >= 4 && packet[0] == 0 && packet[1] == 0 && packet[2] != 0
  {
    if ParseUdpDatagram(packet) == Ok(Some(Datagram(a, payload))) {
      EncodeParsedDatagram(packet);
    }
    if Encodable(a) {
      ParseEncodedDatagram(a, payload);
    }
    hide EncodeAddress, ParseAddressBytes;
  }

  // ----- the encoders as the program runs them, appending to an output buffer

  class Buffer {
    var data: seq<byte>

    constructor ()
      ensures data == []
    {
      data := [];
    }

    method ExtendFromSlice(bytes: seq<byte>)
      modifies this
      ensures data == old(data) + bytes
    {
      data := data + bytes;
    }
  }

  /** Appends the encoding, or leaves the buffer untouched when there is none. */
  method WriteAddress(out: Buffer, a: Address) returns (r: Result<(), WireError>)
    modifies out
    ensures match EncodeAddress(a)
            case Ok(bytes) => r == Ok(()) && out.data == old(out.data) + bytes
            case Err(e) => r == Err(e) && out.data == old(out.data)
  {
    match a {
      case V4(ip, port) =>
        out.ExtendFromSlice([ATYP_IPV4]);
        out.ExtendFromSlice(ip);
        out.ExtendFromSlice(PortBytes(port));
      case V6(ip, port) =>
        out.ExtendFromSlice([ATYP_IPV6]);
        out.ExtendFromSlice(ip);
        out.ExtendFromSlice(PortBytes(port));
      case Domain(name, port) =>
        if |name| > 255 {
          return Err(DomainTooLong);
        }
        out.ExtendFromSlice([ATYP_DOMAIN]);
        out.ExtendFromSlice([|name|]);
        out.ExtendFromSlice(name);
        out.ExtendFromSlice(PortBytes(port));
    }
    return Ok(());
  }

  method WriteUdpDatagram(source: Address, payload: seq<byte>) returns (r: Result<seq<byte>, WireError>)
    ensures r == EncodeUdpDatagram(source, payload)
  {
    var packet := new Buffer();
    packet.ExtendFromSlice([0, 0, 0]);
    assert packet.data == [0, 0, 0];
    var written := WriteAddress(packet, source);
    if written.Err? {
      return Err(written.error);
    }
    packet.ExtendFromSlice(payload);
    return Ok(packet.data);
  }
}

/**
 HTTP Basic credentials (section 2 of RFC 7617) over padded base64 (section 4 of RFC 4648), decoded
 strictly: canonical padding, no stray bits.
 */
module BasicAuth {
  import opened Basics
  import opened Config
  import opened HttpText
  import FieldParser

  const PAD: byte := 61

  // ----- base64

  type sextet = x: int | 0 <= x < 64

  function EncodeSextet(v: sextet): (b: byte)
    ensures b != PAD && b > SPACE
  {
    if v < 26 then 65 + v else if v < 52 then 71 + v else if v < 62 then v - 4 else if v == 62 then 43 else 47
  }

  function DecodeSextet(b: byte): (v: Option<sextet>)
    ensures v.Some? <==> exists s: sextet :: EncodeSextet(s) == b
    ensures v.Some? ==> EncodeSextet(v.value) == b
  {
    var r: Option<sextet> :=
      if 65 <= b <= 90 then Some(b - 65)
      else if 97 <= b <= 122 then Some(b - 71)
      else if 48 <= b <= 57 then Some(b + 4)
      else if b == 43 then Some(62)
      else if b == 47 then Some(63)
      else None;
    assert r.Some? ==> EncodeSextet(r.value) == b;
    r
  }

  /** Table 1 of RFC 4648: capital letters, small letters, digits, plus and slash. */
  function Symbol(v: sextet): char {
    if v < 26 then 'A' + v as char
    else if v < 52 then 'a' + (v - 26) as char
    else if v < 62 then '0' + (v - 52) as char
    else if v == 62 then '+'
    else '/'
  }

  lemma SymbolExactly(v: sextet)
    ensures EncodeSextet(v) == Symbol(v) as int
  {
  }

  lemma SextetRoundTrip(v: sextet)
    ensures DecodeSextet(EncodeSextet(v)) == Some(v)
  {
  }

  function EncodeTriple(x: byte, y: byte, z: byte): seq<byte> {
    [EncodeSextet(x / 4), EncodeSextet(x % 4 * 16 + y / 16), EncodeSextet(y % 16 * 4 + z / 64), EncodeSextet(z % 64)]
  }

  function Encode(b: seq<byte>): seq<byte> {
    if b == [] then []
    else if |b| == 1 then EncodeTriple(b[0], 0, 0)[..2] + [PAD, PAD]
    else if |b| == 2 then EncodeTriple(b[0], b[1], 0)[..3] + [PAD]
    else EncodeTriple(b[0], b[1], b[2]) + Encode(b[3..])
  }

  function JoinSextets(a: sextet, b: sextet, c: sextet, d: sextet): (r: seq<byte>)
    ensures |r| == 3
  {
    [(a as int) * 4 + b / 16, (b as int) % 16 * 16 + c / 4, (c as int) % 4 * 64 + d]
  }

  /** Three bytes from four symbols. */
  function DecodeQuad(t: seq<byte>): (r: Option<seq<byte>>)
    requires |t| == 4
    ensures r.Some? ==> |r.value| == 3
  {
    match (DecodeSextet(t[0]), DecodeSextet(t[1]), DecodeSextet(t[2]), DecodeSextet(t[3]))
    case (Some(a), Some(b), Some(c), Some(d)) => Some(JoinSextets(a, b, c, d))
    case _ => None
  }

  const ZERO: byte := 65

  /** A last group with padding; the bits that padding cuts off must be zero. */
  function DecodePadded(t: seq<byte>): Option<seq<byte>>
    requires |t| == 4 && t[3] == PAD
  {
    if t[2] == PAD then
      match DecodeQuad([t[0], t[1], ZERO, ZERO])
      case Some(b) => if b[1] == 0 then Some(b[..1]) else None
      case None => None
    else
      match DecodeQuad([t[0], t[1], t[2], ZERO])
      case Some(b) => if b[2] == 0 then Some(b[..2]) else None
      case None => None
  }

  function Decode(t: seq<byte>): Option<seq<byte>> {
    if t == [] then Some([])
    else if |t| < 4 then None
    else if |t| == 4 && t[3] == PAD then DecodePadded(t)
    else match DecodeQuad(t[..4])
      case None => None
      case Some(b) =>
        match Decode(t[4..])
        case None => None
        case Some(rest) => Some(b + rest)
  }

  lemma JoinSplit(x: byte, y: byte, z: byte)
    ensures JoinSextets(x / 4, x % 4 * 16 + y / 16, y % 16 * 4 + z / 64, z % 64) == [x, y, z]
  {
    var b, c := x % 4 * 16 + y / 16, y % 16 * 4 + z / 64;
    assert b / 16 == x % 4 && b % 16 == y / 16;
    assert c / 4 == y % 16 && c % 4 == z / 64;
  }

  lemma SplitJoin(a: sextet, b: sextet, c: sextet, d: sextet)
    ensures var r := JoinSextets(a, b, c, d);
            && r[0] / 4 == a && r[0] % 4 * 16 + r[1] / 16 == b && r[1] % 16 * 4 + r[2] / 64 == c && r[2] % 64 == d
  {
    var r := JoinSextets(a, b, c, d);
    assert r[0] % 4 == b / 16 && r[1] / 16 == b % 16 && r[1] % 16 == c / 4 && r[2] / 64 == c % 4;
  }

  lemma QuadOfTriple(x: byte, y: byte, z: byte)
    ensures DecodeQuad(EncodeTriple(x, y, z)) == Some([x, y, z])
  {
    JoinSplit(x, y, z);
    SextetRoundTrip(x / 4);
    SextetRoundTrip(x % 4 * 16 + y / 16);
    SextetRoundTrip(y % 16 * 4 + z / 64);
    SextetRoundTrip(z % 64);
    hide EncodeSextet, DecodeSextet, JoinSextets;
  }

  lemma TripleOfQuad(t: seq<byte>)
    requires |t| == 4 && DecodeQuad(t).Some?
    ensures var b := DecodeQuad(t).value; EncodeTriple(b[0], b[1], b[2]) == t
  {
    hide EncodeSextet, DecodeSextet, JoinSextets;
    SplitJoin(DecodeSextet(t[0]).value, DecodeSextet(t[1]).value, DecodeSextet(t[2]).value, DecodeSextet(t[3]).value);
  }

  lemma ZeroSymbol()
    ensures EncodeSextet(0) == ZERO
  {
  }

  /** Four symbols of a group, read as digits to the base 64, are its three bytes as digits to the base 256. */
  lemma TripleExactly(x: byte, y: byte, z: byte, a: sextet, b: sextet, c: sextet, d: sextet)
    requires x * 0x1_0000 + y * 0x100 + z == a * 0x4_0000 + b * 0x1000 + c * 0x40 + d
    ensures EncodeTriple(x, y, z) ==
      [Symbol(a) as int, Symbol(b) as int, Symbol(c) as int, Symbol(d) as int]
  {
    SymbolExactly(a);
    SymbolExactly(b);
    SymbolExactly(c);
    SymbolExactly(d);
    var r := JoinSextets(a, b, c, d);
    JoinValue(a, b, c, d);
    SplitJoin(a, b, c, d);
    hide EncodeSextet, Symbol, JoinSextets;
    assert x == r[0] && y == r[1] && z == r[2];
  }

  lemma JoinValue(a: sextet, b: sextet, c: sextet, d: sextet)
    ensures var r := JoinSextets(a, b, c, d);
            (r[0] as int) * 0x1_0000 + (r[1] as int) * 0x100 + r[2]
            == (a as int) * 0x4_0000 + (b as int) * 0x1000 + (c as int) * 0x40 + d
  {
    assert b == b / 16 * 16 + b % 16 && c == c / 4 * 4 + c % 4;
  }

  /** Groups of three bytes are encoded one after the other; only the last one may be padded. */
  lemma {:induction false} EncodeGroups(whole: seq<byte>, last: seq<byte>)
    requires |whole| % 3 == 0
    ensures Encode(whole + last) == Encode(whole) + Encode(last)
    decreases |whole|
  {
    hide EncodeTriple;
    if whole == [] {
      assert whole + last == last;
    } else {
      assert (whole + last)[3..] == whole[3..] + last;
      EncodeGroups(whole[3..], last);
      Assoc(EncodeTriple(whole[0], whole[1], whole[2]), Encode(whole[3..]), Encode(last));
    }
  }

  /** A last group of one or two bytes is filled up with zeros, of which only the symbols that carry bits remain. */
  lemma LastGroup(x: byte, y: byte)
    ensures Encode([x]) == EncodeTriple(x, 0, 0)[..2] + [61, 61]
    ensures Encode([x, y]) == EncodeTriple(x, y, 0)[..3] + [61]
  {
  }

  lemma {:induction false} DecodeEncoded(b: seq<byte>)
    ensures Decode(Encode(b)) == Some(b)
  {
    hide EncodeSextet, DecodeSextet, DecodeQuad;
    ZeroSymbol();
    if |b| == 1 {
      QuadOfTriple(b[0], 0, 0);
      var t := EncodeTriple(b[0], 0, 0);
      assert t == [t[0], t[1], ZERO, ZERO];
      assert [b[0], 0, 0][..1] == b;
      assert Encode(b) == [t[0], t[1], PAD, PAD];
    } else if |b| == 2 {
      QuadOfTriple(b[0], b[1], 0);
      var t := EncodeTriple(b[0], b[1], 0);
      assert t == [t[0], t[1], t[2], ZERO] && t[2] != PAD;
      assert [b[0], b[1], 0][..2] == b;
      assert Encode(b) == [t[0], t[1], t[2], PAD];
    } else if |b| >= 3 {
      QuadOfTriple(b[0], b[1], b[2]);
      DecodeEncoded(b[3..]);
      FrontAndBack(EncodeTriple(b[0], b[1], b[2]), Encode(b[3..]));
      assert b == [b[0], b[1], b[2]] + b[3..];
    }
  }

  /** Only canonical encodings decode. */
  lemma {:induction false} EncodeDecoded(t: seq<byte>)
    requires Decode(t).Some?
    ensures Encode(Decode(t).value) == t
  {
    hide EncodeSextet, DecodeSextet, DecodeQuad;
    ZeroSymbol();
    if t == [] {
    } else if |t| == 4 && t[3] == PAD {
      var padded := if t[2] == PAD then [t[0], t[1], ZERO, ZERO] else [t[0], t[1], t[2], ZERO];
      TripleOfQuad(padded);
      var b := DecodeQuad(padded).value;
      assert b == [b[0], b[1], b[2]];
    } else {
      TripleOfQuad(t[..4]);
      EncodeDecoded(t[4..]);
      var b, rest := DecodeQuad(t[..4]).value, Decode(t[4..]).value;
      assert (b + rest)[3..] == rest;
      assert t == t[..4] + t[4..];
    }
  }

  // ----- the Authorization header

  const BASIC := Ascii("Basic")

  /** Offset of the first byte that is neither a space nor a tab. */
  function SkipBlanks(t: Text): (n: nat)
    ensures n <= |t| && (forall i :: 0 <= i < n ==> FieldParser.Ows(t[i])) && (n < |t| ==> !FieldParser.Ows(t[n]))
  {
    if t != [] && FieldParser.Ows(t[0]) then 1 + SkipBlanks(t[1..]) else 0
  }

  /** What follows `Basic `, in any case, and any further blanks. */
  function EncodedPart(value: Text): Option<Text> {
    if |value| < 6 then None
    else if !EqIgnoreCase(value[..5], BASIC) || value[5] != SPACE then None
    else var rest := value[6..]; Some(rest[SkipBlanks(rest)..])
  }

  datatype Login = Login(user: Text, pass: Text)

  /** User and password around the first colon. */
  function LoginOf(decoded: seq<byte>): Option<Login> {
    match FieldParser.FindByte(decoded, COLON)
    case None => None
    case Some(k) => Some(Login(decoded[..k], decoded[k + 1..]))
  }

  predicate HttpBasicAuthorized(header: Option<Text>, auth: AuthConfig) {
    match header
    case None => false
    case Some(value) =>
      match EncodedPart(value)
      case None => false
      case Some(encoded) =>
        match Decode(encoded)
        case None => false
        case Some(decoded) =>
          match LoginOf(decoded)
          case None => false
          case Some(login) => auth.username == Some(login.user) && auth.password == Some(login.pass)
  }

  /** The header value spells out these credentials. */
  ghost predicate Spells(value: Text, scheme: Text, blanks: Text, user: Text, pass: Text) {
    && Spelled(scheme, "Basic")
    && (forall i :: 0 <= i < |blanks| ==> blanks[i] in {9, 32})
    && value == scheme + ([32] + (blanks + Encode(user + [58] + pass)))
  }

  lemma {:induction false} SkipExactly(blanks: Text, rest: Text)
    requires forall i :: 0 <= i < |blanks| ==> FieldParser.Ows(blanks[i])
    requires rest != [] && !FieldParser.Ows(rest[0])
    ensures SkipBlanks(blanks + rest) == |blanks|
  {
    if blanks == [] {
      assert blanks + rest == rest;
    } else {
      assert (blanks + rest)[1..] == blanks[1..] + rest;
      SkipExactly(blanks[1..], rest);
    }
  }

  lemma EncodedStart(b: seq<byte>)
    requires b != []
    ensures Encode(b) != [] && !FieldParser.Ows(Encode(b)[0])
  {
    hide EncodeSextet;
  }

  lemma {:induction false} FirstColon(t: Text, k: nat)
    requires FieldParser.FindByte(t, COLON) == Some(k)
    ensures COLON !in t[..k]
  {
    if k > 0 {
      FirstColon(t[1..], k - 1);
      assert t[..k] == [t[0]] + t[1..][..k - 1];
    }
  }

  lemma EncodedPartOf(scheme: Text, blanks: Text, encoded: Text)
    requires EqIgnoreCase(scheme, BASIC) && (forall i :: 0 <= i < |blanks| ==> FieldParser.Ows(blanks[i]))
    requires encoded != [] && !FieldParser.Ows(encoded[0])
    ensures EncodedPart(scheme + ([SPACE] + (blanks + encoded))) == Some(encoded)
  {
    assert |BASIC| == 5;
    hide BASIC, EqIgnoreCase;
    var rest := blanks + encoded;
    FrontAndBack(scheme, [SPACE] + rest);
    FrontAndBack([SPACE], rest);
    var value := scheme + ([SPACE] + rest);
    assert value[6..] == value[5..][1..] == rest;
    SkipExactly(blanks, encoded);
    FrontAndBack(blanks, encoded);
  }

  lemma EncodedPartSplits(value: Text) returns (scheme: Text, blanks: Text)
    requires EncodedPart(value).Some?
    ensures EqIgnoreCase(scheme, BASIC) && (forall i :: 0 <= i < |blanks| ==> FieldParser.Ows(blanks[i]))
    ensures value == scheme + ([SPACE] + (blanks + EncodedPart(value).value))
  {
    hide BASIC, EqIgnoreCase;
    var rest := value[6..];
    scheme, blanks := value[..5], rest[..SkipBlanks(rest)];
    assert rest == blanks + EncodedPart(value).value;
    assert value[5..] == [SPACE] + rest;
    assert value == scheme + value[5..];
  }

  lemma LoginOfPlain(user: Text, pass: Text)
    requires COLON !in user
    ensures LoginOf(user + [COLON] + pass) == Some(Login(user, pass))
  {
    FieldParser.FindAfter(user, COLON, pass);
    Assoc(user, [COLON], pass);
    FrontAndBack(user, [COLON] + pass);
    FrontAndBack(user + [COLON], pass);
  }

  lemma LoginSplits(decoded: seq<byte>)
    requires LoginOf(decoded).Some?
    ensures var Login(user, pass) := LoginOf(decoded).value;
            COLON !in user && decoded == user + [COLON] + pass
  {
    FirstColon(decoded, FieldParser.FindByte(decoded, COLON).value);
  }

  lemma SpelledIsAuthorized(value: Text, auth: AuthConfig, scheme: Text, blanks: Text)
    requires auth.username.Some? && auth.password.Some? && COLON !in auth.username.value
    requires Spells(value, scheme, blanks, auth.username.value, auth.password.value)
    ensures HttpBasicAuthorized(Some(value), auth)
  {
    hide Encode, Decode, EncodedPart, LoginOf, EqIgnoreCase, Spelled;
    var user, pass := auth.username.value, auth.password.value;
    var login := user + [COLON] + pass;
    LoginOfPlain(user, pass);
    EncodedStart(login);
    DecodeEncoded(login);
    SpelledExactly(scheme, "Basic");
    EncodedPartOf(scheme, blanks, Encode(login));
  }

  lemma AuthorizedIsSpelled(value: Text, auth: AuthConfig) returns (scheme: Text, blanks: Text)
    requires HttpBasicAuthorized(Some(value), auth)
    ensures auth.username.Some? && auth.password.Some? && COLON !in auth.username.value
    ensures Spells(value, scheme, blanks, auth.username.value, auth.password.value)
  {
    hide Encode, Decode, EncodedPart, LoginOf, EqIgnoreCase, Spelled;
    scheme, blanks := EncodedPartSplits(value);
    SpelledExactly(scheme, "Basic");
    var encoded := EncodedPart(value).value;
    EncodeDecoded(encoded);
    LoginSplits(Decode(encoded).value);
  }

  /**
   A header is accepted exactly when it is `Basic` in any case, a space, any blanks, and the encoding
   of the configured user name, a colon and the configured password; a configured user name that
   contains a colon can never log in this way.
   */
  lemma BasicExact(value: Text, auth: AuthConfig)
    ensures HttpBasicAuthorized(Some(value), auth) <==>
      && auth.username.Some? && auth.password.Some? && COLON !in auth.username.value
      && exists scheme, blanks :: Spells(value, scheme, blanks, auth.username.value, auth.password.value)
  {
    hide HttpBasicAuthorized, Spells;
    if HttpBasicAuthorized(Some(value), auth) {
      var scheme, blanks := AuthorizedIsSpelled(value, auth);
    }
    if auth.username.Some? && auth.password.Some? && COLON !in auth.username.value {
      forall scheme, blanks | Spells(value, scheme, blanks, auth.username.value, auth.password.value)
        ensures HttpBasicAuthorized(Some(value), auth)
      {
        SpelledIsAuthorized(value, auth, scheme, blanks);
      }
    }
  }
}

/**
 Well-formed UTF-8 (RFC 3629, section 4) and the lossy conversion that the SOCKS5
 password exchange applies to the bytes it reads. A Rust `String` is modelled by its
 UTF-8 bytes.
 */
module Utf8 {
  import opened Basics

  /** Length of the character a lead byte announces; 0 for a byte that leads none. */
  function Announced(lead: byte): (n: nat)
    ensures n <= 4
  {
    if lead < 0x80 then 1
    else if lead < 0xC2 then 0
    else if lead < 0xE0 then 2
    else if lead < 0xF0 then 3
    else if lead < 0xF5 then 4
    else 0
  }

  predicate Continuation(b: byte) {
    0x80 <= b < 0xC0
  }

  /** The second byte excludes overlong forms, surrogates and code points past U+10FFFF. */
  predicate SecondByteOk(lead: byte, b: byte) {
    if lead == 0xE0 then 0xA0 <= b < 0xC0
    else if lead == 0xED then 0x80 <= b < 0xA0
    else if lead == 0xF0 then 0x90 <= b < 0xC0
    else if lead == 0xF4 then 0x80 <= b < 0x90
    else Continuation(b)
  }

  /** How many bytes at the front fit the character that the first byte announces. */
  function Matched(s: seq<byte>): (n: nat)
    requires s != []
    ensures n <= |s| && n <= Announced(s[0])
  {
    var k := Announced(s[0]);
    if k <= 1 then k
    else if |s| < 2 || !SecondByteOk(s[0], s[1]) then 1
    else if k == 2 || |s| < 3 || !Continuation(s[2]) then 2
    else if k == 3 || |s| < 4 || !Continuation(s[3]) then 3
    else 4
  }

  /** Whether the sequence starts with one complete well-formed character. */
  predicate Complete(s: seq<byte>)
    requires s != []
  {
    Matched(s) == Announced(s[0]) && Matched(s) > 0
  }

  predicate Valid(s: seq<byte>) {
    s == [] || (Complete(s) && Valid(s[Matched(s)..]))
  }

  type Utf8String = s: seq<byte> | Valid(s)

  const REPLACEMENT: seq<byte> := [0xEF, 0xBF, 0xBD]

  /** `String::from_utf8_lossy`: each maximal ill-formed piece becomes U+FFFD. */
  function Lossy(s: seq<byte>): seq<byte> {
    if s == [] then []
    else if Complete(s) then s[..Matched(s)] + Lossy(s[Matched(s)..])
    else REPLACEMENT + Lossy(s[if Matched(s) == 0 then 1 else Matched(s)..])
  }

  /** A complete character stays complete whatever follows it. */
  lemma CompleteExtends(c: seq<byte>, rest: seq<byte>)
    requires c != [] && Complete(c) && Matched(c) == |c|
    ensures Complete(c + rest) && Matched(c + rest) == |c|
    ensures Valid(c + rest) <==> Valid(rest)
  {
    assert (c + rest)[|c|..] == rest;
  }

  lemma {:induction false} LossyIsValid(s: seq<byte>)
    ensures Valid(Lossy(s))
  {
    if s == [] {
    } else if Complete(s) {
      var n := Matched(s);
      LossyIsValid(s[n..]);
      CompleteExtends(s[..n], Lossy(s[n..]));
    } else {
      var n := if Matched(s) == 0 then 1 else Matched(s);
      LossyIsValid(s[n..]);
      CompleteExtends(REPLACEMENT, Lossy(s[n..]));
    }
  }

  /** The conversion leaves a byte string alone exactly when it is valid UTF-8. */
  lemma {:induction false} LossyIdentity(s: seq<byte>)
    ensures Lossy(s) == s <==> Valid(s)
  {
    if Valid(s) {
      LossyOfValid(s);
    }
    LossyIsValid(s);
  }

  lemma {:induction false} LossyOfValid(s: seq<byte>)
    requires Valid(s)
    ensures Lossy(s) == s
  {
    if s != [] {
      var n := Matched(s);
      LossyOfValid(s[n..]);
      assert s == s[..n] + s[n..];
    }
  }

  // ----- what well-formed means: encodings of Unicode scalar values

  type Scalar = c: nat | c < 0xD800 || 0xE000 <= c < 0x11_0000

  /** The Unicode White_Space property. */
  predicate WhiteScalar(u: nat) {
    9 <= u <= 13 || u == 0x20 || u == 0x85 || u == 0xA0 || u == 0x1680 || 0x2000 <= u <= 0x200A
    || u == 0x2028 || u == 0x2029 || u == 0x202F || u == 0x205F || u == 0x3000
  }

  /** The table in section 3 of RFC 3629. */
  function ScalarBytes(c: Scalar): (b: seq<byte>)
    ensures 1 <= |b| <= 4
  {
    if c < 0x80 then [c]
    else if c < 0x800 then [0xC0 + c / 0x40, 0x80 + c % 0x40]
    else if c < 0x1_0000 then [0xE0 + c / 0x1000, 0x80 + c / 0x40 % 0x40, 0x80 + c % 0x40]
    else [0xF0 + c / 0x4_0000, 0x80 + c / 0x1000 % 0x40, 0x80 + c / 0x40 % 0x40, 0x80 + c % 0x40]
  }

  function Text(cs: seq<Scalar>): seq<byte> {
    if cs == [] then [] else ScalarBytes(cs[0]) + Text(cs[1..])
  }

  lemma ScalarIsComplete(c: Scalar)
    ensures Complete(ScalarBytes(c)) && Matched(ScalarBytes(c)) == |ScalarBytes(c)|
  {
  }

  lemma OneByte(a: nat)
    requires a < 0x80
    ensures ScalarBytes(a) == [a]
  {
  }

  lemma TwoBytes(a: nat, b: nat)
    requires 2 <= a < 0x20 && b < 0x40
    ensures ScalarBytes(a * 0x40 + b) == [0xC0 + a, 0x80 + b]
  {
  }

  lemma ThreeBytes(a: nat, b: nat, d: nat)
    requires a < 0x10 && b < 0x40 && d < 0x40 && (a == 0 ==> b >= 0x20) && (a == 0xD ==> b < 0x20)
    ensures var c := a * 0x1000 + b * 0x40 + d;
            (c < 0xD800 || 0xE000 <= c < 0x11_0000) && ScalarBytes(c) == [0xE0 + a, 0x80 + b, 0x80 + d]
  {
    var c := a * 0x1000 + b * 0x40 + d;
    assert c / 0x40 == a * 0x40 + b && c % 0x40 == d;
    assert c / 0x1000 == a && c / 0x40 % 0x40 == b;
  }

  lemma FourBytes(a: nat, b: nat, d: nat, e: nat)
    requires a < 5 && b < 0x40 && d < 0x40 && e < 0x40 && (a == 0 ==> b >= 0x10) && (a == 4 ==> b < 0x10)
    ensures var c := a * 0x4_0000 + b * 0x1000 + d * 0x40 + e;
            0x1_0000 <= c < 0x11_0000 && ScalarBytes(c) == [0xF0 + a, 0x80 + b, 0x80 + d, 0x80 + e]
  {
    var c := a * 0x4_0000 + b * 0x1000 + d * 0x40 + e;
    assert c / 0x40 == a * 0x1000 + b * 0x40 + d && c % 0x40 == e;
    assert c / 0x1000 == a * 0x40 + b && c / 0x40 % 0x40 == d;
    assert c / 0x4_0000 == a && c / 0x1000 % 0x40 == b;
  }

  lemma CompleteBytes(s: seq<byte>)
    requires s != [] && Complete(s)
    ensures var n := Matched(s);
      && (n == 1 ==> s[0] < 0x80)
      && (n == 2 ==> 0xC2 <= s[0] < 0xE0)
      && (n == 3 ==> 0xE0 <= s[0] < 0xF0 && SecondByteOk(s[0], s[1]) && Continuation(s[2]))
      && (n == 4 ==> 0xF0 <= s[0] < 0xF5 && SecondByteOk(s[0], s[1]) && Continuation(s[2]) && Continuation(s[3]))
      && (n >= 2 ==> Continuation(s[1]))
  {
  }

  /** The character at the front, decoded. */
  lemma CompleteIsScalar(s: seq<byte>) returns (c: Scalar)
    requires s != [] && Complete(s)
    ensures ScalarBytes(c) == s[..Matched(s)]
  {
    var n := Matched(s);
    CompleteBytes(s);
    hide Matched, Complete, ScalarBytes;
    if n == 1 {
      c := s[0];
      OneByte(c);
      assert s[..1] == [s[0]];
    } else if n == 2 {
      TwoBytes(s[0] - 0xC0, s[1] - 0x80);
      c := (s[0] as int - 0xC0) * 0x40 + (s[1] - 0x80);
      assert s[..2] == [s[0], s[1]];
    } else if n == 3 {
      ThreeBytes(s[0] - 0xE0, s[1] - 0x80, s[2] - 0x80);
      c := (s[0] as int - 0xE0) * 0x1000 + (s[1] as int - 0x80) * 0x40 + (s[2] - 0x80);
      assert s[..3] == [s[0], s[1], s[2]];
    } else {
      FourBytes(s[0] - 0xF0, s[1] - 0x80, s[2] - 0x80, s[3] - 0x80);
      c := (s[0] as int - 0xF0) * 0x4_0000 + (s[1] as int - 0x80) * 0x1000 + (s[2] as int - 0x80) * 0x40
           + (s[3] - 0x80);
      assert s[..4] == [s[0], s[1], s[2], s[3]];
    }
  }

  lemma {:induction false} TextIsValid(cs: seq<Scalar>)
    ensures Valid(Text(cs))
  {
    if cs != [] {
      TextIsValid(cs[1..]);
      ScalarIsComplete(cs[0]);
      CompleteExtends(ScalarBytes(cs[0]), Text(cs[1..]));
    }
  }

  lemma {:induction false} ValidIsText(s: seq<byte>) returns (cs: seq<Scalar>)
    requires Valid(s)
    ensures Text(cs) == s
  {
    if s == [] {
      cs := [];
    } else {
      var n := Matched(s);
      var c := CompleteIsScalar(s);
      var rest := ValidIsText(s[n..]);
      cs := [c] + rest;
      assert cs[1..] == rest && s == s[..n] + s[n..];
    }
  }

  /** Valid byte strings are exactly the encodings of sequences of scalar values. */
  lemma ValidExactly(s: seq<byte>)
    ensures Valid(s) <==> exists cs: seq<Scalar> :: Text(cs) == s
  {
    if Valid(s) {
      var cs := ValidIsText(s);
    }
    forall cs: seq<Scalar> | Text(cs) == s ensures Valid(s) {
      TextIsValid(cs);
    }
  }

  /** A valid front is kept by the conversion, whatever follows it. */
  lemma {:induction false} LossyKeepsFront(front: seq<byte>, rest: seq<byte>)
    requires Valid(front)
    ensures Lossy(front + rest) == front + Lossy(rest)
    decreases |front|
  {
    if front == [] {
      assert front + rest == rest;
    } else {
      var n := Matched(front);
      var c, more := front[..n], front[n..] + rest;
      CompleteAlone(front);
      CompleteExtends(c, more);
      hide Matched, Complete;
      LossyKeepsFront(front[n..], rest);
      Assoc(c, front[n..], rest);
      Assoc(c, front[n..], Lossy(rest));
      FrontAndBack(c, more);
      assert front == c + front[n..];
    }
  }

  lemma CompleteAlone(s: seq<byte>)
    requires s != [] && Complete(s)
    ensures var c := s[..Matched(s)]; c != [] && Complete(c) && Matched(c) == |c|
  {
  }
}

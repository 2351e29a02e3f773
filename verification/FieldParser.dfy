/**
 A parser for request heads: a request line and field lines (sections 3 and 5 of RFC 9112), with the
 tolerance of section 2.2 for empty lines in front and for bare line feeds. It stands for the one the
 program delegates to, and shows that what the head reader asks of a parser can be had.
 */
module FieldParser {
  import opened Basics
  import opened HttpText
  import opened HttpHead
  import Utf8

  const CR: byte := 13
  const LF: byte := 10
  const CRLF: Text := [CR, LF]

  /** A line without its ending, the length of both, and what follows. */
  datatype Line = Line(text: Text, len: nat, rest: seq<byte>)

  function WithoutCr(t: Text): Text {
    if t != [] && t[|t| - 1] == CR then t[..|t| - 1] else t
  }

  /** The first line: it ends with a line feed, before which one carriage return is not part of it. */
  function FirstLine(b: seq<byte>): (r: Option<Line>)
    ensures r.Some? ==> 0 < r.value.len && r.value.len + |r.value.rest| == |b|
  {
    match FindByte(b, LF)
    case None => None
    case Some(k) => Some(Line(WithoutCr(b[..k]), k + 1, b[k + 1..]))
  }

  function FindByte(t: Text, x: byte): (r: Option<nat>)
    ensures r.Some? ==> r.value < |t| && t[r.value] == x
  {
    if t == [] then None
    else if t[0] == x then Some(0)
    else match FindByte(t[1..], x)
      case Some(k) => Some(k + 1)
      case None => None
  }

  /** `tchar` of section 5.6.2 of RFC 9110 */
  predicate TChar(b: byte) {
    48 <= b <= 57 || 65 <= b <= 90 || 94 <= b <= 122 || b in {33, 35, 36, 37, 38, 39, 42, 43, 45, 46, 124, 126}
  }

  predicate FieldName(t: Text) {
    t != [] && forall b :: b in t ==> TChar(b)
  }

  predicate RequestTarget(t: Text) {
    t != [] && forall b :: b in t ==> 33 <= b && b != 127
  }

  predicate FieldValue(t: Text) {
    forall b :: b in t ==> b == 9 || (32 <= b && b != 127)
  }

  predicate Ows(b: byte) {
    b == 9 || b == SPACE
  }

  function OwsStart(t: Text): Text {
    if t != [] && Ows(t[0]) then OwsStart(t[1..]) else t
  }

  function OwsEnd(t: Text): Text {
    if t != [] && Ows(t[|t| - 1]) then OwsEnd(t[..|t| - 1]) else t
  }

  function TrimOws(t: Text): Text {
    OwsEnd(OwsStart(t))
  }

  function Field(line: Text): Option<Header> {
    match FindByte(line, COLON)
    case None => None
    case Some(k) =>
      var name, value := line[..k], TrimOws(line[k + 1..]);
      if FieldName(name) && FieldValue(value) then Some(Header(name, value)) else None
  }

  datatype FieldsResult = Unfinished | Bad(error: HttpError) | Done(fields: seq<Header>, len: nat)

  function Fields(b: seq<byte>, room: nat): FieldsResult
    decreases |b|
  {
    match FirstLine(b)
    case None => Unfinished
    case Some(Line(text, len, rest)) =>
      if text == [] then Done([], len)
      else if room == 0 then Bad(TooManyHeaders)
      else match Field(text)
        case None => Bad(BadRequest)
        case Some(h) => AfterField(h, len, Fields(rest, room - 1))
  }

  function AfterField(h: Header, len: nat, r: FieldsResult): FieldsResult {
    if r.Done? then Done([h] + r.fields, len + r.len) else r
  }

  datatype RequestLine = RequestLine(method_: Text, target: Text, minor: nat)

  function ParseRequestLine(line: Text): Option<RequestLine> {
    match FindByte(line, SPACE)
    case None => None
    case Some(i) =>
      var rest := line[i + 1..];
      match FindByte(rest, SPACE)
      case None => None
      case Some(j) =>
        var version := rest[j + 1..];
        if !FieldName(line[..i]) || !RequestTarget(rest[..j]) || version !in {HTTP_1_1, HTTP_1_0} then None
        else Some(RequestLine(line[..i], rest[..j], if version == HTTP_1_1 then 1 else 0))
  }

  /** A head with `len` more bytes in front of it. */
  function Behind(len: nat, status: ParseStatus): ParseStatus {
    if status.Complete? then status.(headerEnd := len + status.headerEnd) else status
  }

  /** Empty lines in front of the request line are skipped. */
  function ParseHead(b: seq<byte>): ParseStatus {
    match FirstLine(b)
    case None => Partial
    case Some(Line(text, len, rest)) =>
      if text == [] then Behind(len, ParseHead(rest))
      else match ParseRequestLine(text)
        case None => Rejected(BadRequest)
        case Some(line) => AfterRequestLine(line, len, Fields(rest, MAX_HEADERS))
  }

  function AfterRequestLine(line: RequestLine, len: nat, fields: FieldsResult): ParseStatus {
    match fields
    case Unfinished => Partial
    case Bad(e) => Rejected(e)
    case Done(fields, n) =>
      Complete(len + n, RawHead(Some(line.method_), Some(line.target), Some(line.minor), fields))
  }

  // ----- the parser is prefix-stable

  lemma {:induction false} FindStable(t: Text, x: byte, more: Text)
    requires FindByte(t, x).Some?
    ensures FindByte(t + more, x) == FindByte(t, x)
  {
    if t[0] != x {
      assert (t + more)[1..] == t[1..] + more;
      FindStable(t[1..], x, more);
    }
  }

  lemma {:induction false} FindCut(t: Text, x: byte, n: nat)
    requires FindByte(t, x).Some? && FindByte(t, x).value < n <= |t|
    ensures FindByte(t[..n], x) == FindByte(t, x)
  {
    if t[0] != x {
      assert t[..n][1..] == t[1..][..n - 1];
      FindCut(t[1..], x, n - 1);
    }
  }

  lemma FirstLineStable(b: seq<byte>, more: seq<byte>)
    requires FirstLine(b).Some?
    ensures var Line(text, len, rest) := FirstLine(b).value;
            FirstLine(b + more) == Some(Line(text, len, rest + more))
  {
    FindStable(b, LF, more);
    var k := FindByte(b, LF).value;
    assert (b + more)[..k] == b[..k] && (b + more)[k + 1..] == b[k + 1..] + more;
  }

  lemma FirstLineCut(b: seq<byte>, m: nat)
    requires FirstLine(b).Some? && m <= |FirstLine(b).value.rest|
    ensures var Line(text, len, rest) := FirstLine(b).value;
            FirstLine(b[..len + m]) == Some(Line(text, len, rest[..m]))
  {
    var k := FindByte(b, LF).value;
    FindCut(b, LF, k + 1 + m);
    assert b[..k + 1 + m][..k] == b[..k] && b[..k + 1 + m][k + 1..] == b[k + 1..][..m];
  }

  lemma {:induction false} FieldsStable(b: seq<byte>, more: seq<byte>, room: nat)
    requires Fields(b, room) != Unfinished
    ensures Fields(b + more, room) == Fields(b, room)
    decreases |b|
  {
    hide Field, FirstLine;
    FirstLineStable(b, more);
    var Line(text, len, rest) := FirstLine(b).value;
    if text != [] && room > 0 && Field(text).Some? {
      FieldsStable(rest, more, room - 1);
    }
  }

  lemma {:induction false} FieldsCut(b: seq<byte>, room: nat)
    requires Fields(b, room).Done?
    ensures var n := Fields(b, room).len;
            n <= |b| && Fields(b[..n], room) == Fields(b, room)
    decreases |b|
  {
    hide Field, FirstLine;
    var Line(text, len, rest) := FirstLine(b).value;
    if text != [] {
      FieldsCut(rest, room - 1);
      FirstLineCut(b, Fields(rest, room - 1).len);
    } else {
      FirstLineCut(b, 0);
    }
  }

  lemma {:induction false} ParseHeadExtends(b: seq<byte>, more: seq<byte>)
    requires ParseHead(b) != Partial
    ensures ParseHead(b + more) == ParseHead(b)
    decreases |b|
  {
    hide ParseRequestLine, Fields, FirstLine;
    FirstLineStable(b, more);
    var Line(text, len, rest) := FirstLine(b).value;
    if text == [] {
      ParseHeadExtends(rest, more);
    } else if ParseRequestLine(text).Some? {
      FieldsStable(rest, more, MAX_HEADERS);
    }
  }

  lemma {:induction false} ParseHeadCut(b: seq<byte>)
    requires ParseHead(b).Complete?
    ensures var n := ParseHead(b).headerEnd;
            n <= |b| && ParseHead(b[..n]) == ParseHead(b)
    decreases |b|
  {
    hide ParseRequestLine, Fields, FirstLine;
    var Line(text, len, rest) := FirstLine(b).value;
    if text == [] {
      ParseHeadCut(rest);
      FirstLineCut(b, ParseHead(rest).headerEnd);
    } else {
      FieldsCut(rest, MAX_HEADERS);
      FirstLineCut(b, Fields(rest, MAX_HEADERS).len);
    }
  }

  /** This parser meets what the incremental reader relies on. */
  lemma ParseHeadIsStable()
    ensures PrefixStable(ParseHead)
  {
    hide ParseHead;
    forall b, more | ParseHead(b) != Partial ensures ParseHead(b + more) == ParseHead(b) {
      ParseHeadExtends(b, more);
    }
    forall b | ParseHead(b).Complete?
      ensures ParseHead(b).headerEnd <= |b| && ParseHead(b[..ParseHead(b).headerEnd]) == ParseHead(b)
    {
      ParseHeadCut(b);
    }
  }

  // ----- serialised heads

  function FieldLine(h: Header): Text {
    h.name + [COLON, SPACE] + h.value
  }

  function FieldLines(headers: seq<Header>): seq<byte> {
    if headers == [] then [] else FieldLine(headers[0]) + (CRLF + FieldLines(headers[1..]))
  }

  function StartLine(r: HttpRequest): Text {
    r.method_ + [SPACE] + (r.target + [SPACE] + r.version)
  }

  function HeadBytes(r: HttpRequest): seq<byte> {
    StartLine(r) + (CRLF + FieldLines(r.headers)) + CRLF
  }

  /** What an accepted request guarantees about each header. */
  predicate SoundHeader(h: Header) {
    FieldName(h.name) && FieldValue(h.value) && Trimmed(h.value) && Utf8.Valid(h.value)
  }

  ghost predicate SoundRequest(r: HttpRequest) {
    && FieldName(r.method_) && RequestTarget(r.target) && r.version in {HTTP_1_1, HTTP_1_0}
    && forall h :: h in r.headers ==> SoundHeader(h)
  }

  lemma FirstLineOf(line: Text, rest: seq<byte>)
    requires LF !in line
    ensures FirstLine(line + (CRLF + rest)) == Some(Line(line, |line| + 2, rest))
  {
    var b := line + (CRLF + rest);
    assert b == (line + [CR]) + [LF] + rest;
    FindAfter(line + [CR], LF, rest);
    assert b[..|line| + 1] == line + [CR] && b[|line| + 2..] == rest;
    assert (line + [CR])[..|line|] == line;
  }

  lemma Regroup(a: seq<byte>, b: seq<byte>, c: seq<byte>, d: seq<byte>, e: seq<byte>)
    ensures (a + (b + c)) + d + e == a + (b + (c + d + e))
  {
    Assoc(c, d, e);
    Assoc(b, c, d + e);
    Assoc(a, b + c, d + e);
    Assoc(a + (b + c), d, e);
  }

  lemma {:induction false} FindAfter(front: Text, x: byte, rest: Text)
    requires x !in front
    ensures FindByte(front + [x] + rest, x) == Some(|front|)
  {
    var t := front + [x] + rest;
    if front != [] {
      assert t[0] == front[0];
      assert t[1..] == front[1..] + [x] + rest;
      FindAfter(front[1..], x, rest);
    }
  }

  lemma TrimOwsOfTrimmed(value: Text)
    requires Trimmed(value)
    ensures TrimOws([SPACE] + value) == value
  {
    assert ([SPACE] + value)[1..] == value;
    assert OwsStart([SPACE] + value) == OwsStart(value);
    assert value != [] ==> WhiteFront(value[|value| - 1..]) != 1;
  }

  lemma FieldOfLine(h: Header)
    requires SoundHeader(h)
    ensures Field(FieldLine(h)) == Some(h) && FieldLine(h) != [] && LF !in FieldLine(h)
  {
    hide Trimmed, Utf8.Valid;
    var line := FieldLine(h);
    assert line == h.name + [COLON] + ([SPACE] + h.value);
    assert COLON !in h.name by {
      assert !TChar(COLON);
    }
    FindAfter(h.name, COLON, [SPACE] + h.value);
    assert line[..|h.name|] == h.name && line[|h.name| + 1..] == [SPACE] + h.value;
    TrimOwsOfTrimmed(h.value);
    hide TrimOws;
    assert !TChar(LF);
  }

  lemma NoFieldsLeft(rest: seq<byte>, room: nat)
    ensures Fields([] + CRLF + rest, room) == Done([], 2)
  {
    Assoc([], CRLF, rest);
    FirstLineOf([], rest);
    hide FirstLine;
  }

  lemma OneField(h: Header, tail: seq<byte>, room: nat)
    requires SoundHeader(h)
    ensures Fields(FieldLine(h) + (CRLF + tail), room) ==
            if room == 0 then Bad(TooManyHeaders) else AfterField(h, |FieldLine(h)| + 2, Fields(tail, room - 1))
  {
    FieldOfLine(h);
    FirstLineOf(FieldLine(h), tail);
    hide Field, FieldLine, SoundHeader, FirstLine, AfterField;
  }

  /** Parsing field lines back; one header too many is refused. */
  lemma {:induction false} FieldsOfLines(headers: seq<Header>, rest: seq<byte>, room: nat)
    requires forall h :: h in headers ==> SoundHeader(h)
    ensures Fields(FieldLines(headers) + CRLF + rest, room) ==
      if |headers| <= room then Done(headers, |FieldLines(headers)| + 2) else Bad(TooManyHeaders)
    decreases |headers|
  {
    hide Fields, FieldLine, SoundHeader;
    if headers == [] {
      NoFieldsLeft(rest, room);
    } else {
      var h, lines := headers[0], FieldLines(headers[1..]);
      Regroup(FieldLine(h), CRLF, lines, CRLF, rest);
      OneField(h, lines + CRLF + rest, room);
      if room > 0 {
        FieldsOfLines(headers[1..], rest, room - 1);
        assert headers == [h] + headers[1..];
      }
    }
  }

  lemma StartLineParses(r: HttpRequest)
    requires SoundRequest(r)
    ensures ParseRequestLine(StartLine(r)) ==
      Some(RequestLine(r.method_, r.target, if r.version == HTTP_1_1 then 1 else 0))
    ensures LF !in StartLine(r)
  {
    var rest := r.target + [SPACE] + r.version;
    NoSpaces(r);
    FindAfter(r.method_, SPACE, rest);
    FindAfter(r.target, SPACE, r.version);
    assert StartLine(r)[..|r.method_|] == r.method_ && StartLine(r)[|r.method_| + 1..] == rest;
    assert rest[..|r.target|] == r.target && rest[|r.target| + 1..] == r.version;
    hide FindByte, FieldName, RequestTarget, SoundHeader, Ascii;
  }

  lemma NoSpaces(r: HttpRequest)
    requires SoundRequest(r)
    ensures SPACE !in r.method_ && SPACE !in r.target && LF !in r.method_ && LF !in r.target && LF !in r.version
  {
    hide SoundHeader;
    assert !TChar(SPACE) && !TChar(LF);
    assert LF !in HTTP_1_1 && LF !in HTTP_1_0;
  }

  function RawOf(r: HttpRequest): RawHead {
    RawHead(Some(r.method_), Some(r.target), Some(if r.version == HTTP_1_1 then 1 else 0), r.headers)
  }

  lemma HeadShape(r: HttpRequest, body: seq<byte>)
    ensures HeadBytes(r) + body == StartLine(r) + (CRLF + (FieldLines(r.headers) + CRLF + body))
    ensures |HeadBytes(r)| == |StartLine(r)| + 2 + (|FieldLines(r.headers)| + 2)
  {
    Regroup(StartLine(r), CRLF, FieldLines(r.headers), CRLF, body);
  }

  /** A serialised head followed by anything parses back to itself and ends where it ended. */
  lemma HeadParses(r: HttpRequest, body: seq<byte>)
    requires SoundRequest(r)
    ensures ParseHead(HeadBytes(r) + body) ==
      if |r.headers| <= MAX_HEADERS then Complete(|HeadBytes(r)|, RawOf(r)) else Rejected(TooManyHeaders)
  {
    HeadShape(r, body);
    StartLineParses(r);
    FirstLineOf(StartLine(r), FieldLines(r.headers) + CRLF + body);
    FieldsOfLines(r.headers, body, MAX_HEADERS);
    assert StartLine(r) != [];
    hide HeadBytes, FirstLine, ParseRequestLine, Fields, StartLine, FieldLines, SoundRequest, Ascii;
  }

  lemma FieldNameTrims(t: Text)
    requires FieldName(t)
    ensures Trim(t) == t
  {
    assert t[0] in t && t[|t| - 1] in t;
    PrintableIsTrimmed(t);
  }

  lemma SoundHeaderPasses(h: Header)
    requires SoundHeader(h)
    ensures Utf8.Valid(h.value) && Trim(h.name) == h.name && Trim(h.value) == h.value
  {
    FieldNameTrims(h.name);
  }

  lemma {:induction false} SoundHeadersPass(headers: seq<Header>)
    requires forall h :: h in headers ==> SoundHeader(h)
    ensures Headers(headers) == Ok(headers)
  {
    hide SoundHeader, Trim, Utf8.Valid;
    if headers != [] {
      var h := headers[0];
      SoundHeaderPasses(h);
      SoundHeadersPass(headers[1..]);
      assert headers == [Header(Trim(h.name), Trim(h.value))] + headers[1..];
    }
  }

  lemma {:induction false} FieldsAreFields(b: seq<byte>, room: nat)
    requires Fields(b, room).Done?
    ensures forall h :: h in Fields(b, room).fields ==> FieldName(h.name) && FieldValue(h.value)
    decreases |b|
  {
    var Line(text, len, rest) := FirstLine(b).value;
    if text != [] {
      FieldsAreFields(rest, room - 1);
      assert FieldName(Field(text).value.name) && FieldValue(Field(text).value.value);
      hide Field, FieldName, FieldValue, FirstLine;
    }
  }

  lemma TrimmedFieldIsSound(h: Header)
    requires FieldName(h.name) && FieldValue(h.value) && Utf8.Valid(h.value)
    ensures SoundHeader(Header(Trim(h.name), Trim(h.value)))
  {
    FieldNameTrims(h.name);
    TrimStaysValid(h.value);
    TrimIsPart(h.value);
    hide Utf8.Valid, Trim, FieldName;
  }

  lemma {:induction false} HeadersAreSound(fields: seq<Header>)
    requires Headers(fields).Ok?
    requires forall h :: h in fields ==> FieldName(h.name) && FieldValue(h.value)
    ensures forall h :: h in Headers(fields).value ==> SoundHeader(h)
  {
    hide FieldName, FieldValue, SoundHeader, Trim, Utf8.Valid;
    if fields != [] {
      TrimmedFieldIsSound(fields[0]);
      HeadersAreSound(fields[1..]);
    }
  }

  /** Every request that the program accepts from this parser is sound. */
  lemma {:induction false} AcceptedIsSound(b: seq<byte>)
    requires ParseHead(b).Complete? && Accept(ParseHead(b).head).Ok?
    ensures SoundRequest(Accept(ParseHead(b).head).value)
    decreases |b|
  {
    var Line(text, len, rest) := FirstLine(b).value;
    if text == [] {
      AcceptedIsSound(rest);
    } else {
      FieldsAreFields(rest, MAX_HEADERS);
      hide Fields, FirstLine, SoundHeader;
      HeadersAreSound(ParseHead(b).head.fields);
      hide Headers;
    }
  }

  /** Empty lines in front of a head only move its end. */
  lemma EmptyLinesAreSkipped(b: seq<byte>)
    ensures ParseHead(CRLF + b) == Behind(2, ParseHead(b))
    ensures ParseHead([LF] + b) == Behind(1, ParseHead(b))
  {
    FirstLineOf([], b);
    assert [] + (CRLF + b) == CRLF + b;
    assert ([LF] + b)[1..] == b && ([LF] + b)[..0] == [];
  }
}

/**
 Request heads: what the program makes of the result of its head parser, and the incremental head
 reader, for any parser whose verdicts are not revised when more bytes arrive.
 */
module HttpHead {
  import opened Basics
  import opened HttpText
  import opened HttpFraming
  import opened Streams
  import Utf8

  const MAX_HEADER_SIZE := 65536
  const MAX_HEADERS := 128
  const CHUNK := 1024

  datatype HttpError =
    | Io(error: IoError)
    | HeaderTooLarge
    | TooManyHeaders
    | BadRequest
    | InvalidHeaderUtf8
    | BadFraming(framing: FramingError)

  /** A parsed head before the program looks at it. `minor` is the HTTP/1 minor version. */
  datatype RawHead = RawHead(method_: Option<Text>, path: Option<Text>, minor: Option<nat>, fields: seq<Header>)

  datatype ParseStatus =
    | Partial
    | Complete(headerEnd: nat, head: RawHead)
    | Rejected(error: HttpError)

  datatype HttpRequest = HttpRequest(method_: Text, target: Text, version: Text, headers: seq<Header>)

  const HTTP_1_1 := Ascii("HTTP/1.1")
  const HTTP_1_0 := Ascii("HTTP/1.0")

  // ----- from a parsed head to a request

  function Headers(fields: seq<Header>): Result<seq<Header>, HttpError> {
    if fields == [] then Ok([])
    else if !Utf8.Valid(fields[0].value) then Err(InvalidHeaderUtf8)
    else match Headers(fields[1..])
      case Err(e) => Err(e)
      case Ok(rest) => Ok([Header(Trim(fields[0].name), Trim(fields[0].value))] + rest)
  }

  function Accept(head: RawHead): Result<HttpRequest, HttpError> {
    if head.method_.None? || head.path.None? then Err(BadRequest)
    else if head.minor != Some(1) && head.minor != Some(0) then Err(BadRequest)
    else match Headers(head.fields)
      case Err(e) => Err(e)
      case Ok(headers) =>
        match Framing(headers)
        case Err(e) => Err(BadFraming(e))
        case Ok(_) =>
          var version := if head.minor == Some(1) then HTTP_1_1 else HTTP_1_0;
          Ok(HttpRequest(head.method_.value, head.path.value, version, headers))
  }

  lemma {:induction false} HeadersExactly(fields: seq<Header>)
    ensures Headers(fields).Ok? <==> forall i :: 0 <= i < |fields| ==> Utf8.Valid(fields[i].value)
    ensures Headers(fields).Err? ==> Headers(fields) == Err(InvalidHeaderUtf8)
    ensures Headers(fields).Ok? ==>
      && |Headers(fields).value| == |fields|
      && forall i :: 0 <= i < |fields| ==>
           Headers(fields).value[i] == Header(Trim(fields[i].name), Trim(fields[i].value))
  {
    hide Utf8.Valid, Trim;
    if fields != [] {
      HeadersExactly(fields[1..]);
      assert forall i :: 0 < i < |fields| ==> fields[i] == fields[1..][i - 1];
      assert forall i :: 0 <= i < |fields| - 1 ==> fields[1..][i] == fields[i + 1];
    }
  }

  /** Trimmed copies of the fields, in order. */
  ghost predicate Copies(headers: seq<Header>, fields: seq<Header>) {
    && |headers| == |fields|
    && forall i :: 0 <= i < |fields| ==>
         Utf8.Valid(fields[i].value) && headers[i] == Header(Trim(fields[i].name), Trim(fields[i].value))
  }

  /**
   Which parsed heads become which requests: method and target as they are, version 1.0 or 1.1, all
   fields with valid UTF-8 values, trimmed and in order, and framing that is not ambiguous.
   */
  lemma AcceptExactly(head: RawHead, r: HttpRequest)
    ensures Accept(head) == Ok(r) <==>
      && head.method_ == Some(r.method_) && head.path == Some(r.target)
      && ((head.minor == Some(1) && r.version == [72, 84, 84, 80, 47, 49, 46, 49])
          || (head.minor == Some(0) && r.version == [72, 84, 84, 80, 47, 49, 46, 48]))
      && Copies(r.headers, head.fields) && Unambiguous(r.headers)
  {
    CopiesExactly(head.fields, r.headers);
    FramingExact(r.headers);
    VersionBytes();
    hide Headers, Framing, Unambiguous, Copies, HTTP_1_1, HTTP_1_0;
  }

  lemma CopiesExactly(fields: seq<Header>, headers: seq<Header>)
    ensures Headers(fields) == Ok(headers) <==> Copies(headers, fields)
  {
    HeadersExactly(fields);
    hide Headers, Utf8.Valid, Trim;
    if Copies(headers, fields) {
      assert headers == Headers(fields).value;
    }
  }

  lemma VersionBytes()
    ensures HTTP_1_1 == [72, 84, 84, 80, 47, 49, 46, 49] && HTTP_1_0 == [72, 84, 84, 80, 47, 49, 46, 48]
  {
  }

  // ----- the incremental reader, for any parser

  /**
   What the reader relies on: the verdict on a buffer is not revised when more bytes arrive, and a
   complete head is recognised from its own bytes.
   */
  ghost predicate PrefixStable(parse: seq<byte> -> ParseStatus) {
    && (forall b, more {:trigger parse(b + more)} :: parse(b) != Partial ==> parse(b + more) == parse(b))
    && (forall b :: parse(b).Complete? ==> parse(b).headerEnd <= |b| && parse(b[..parse(b).headerEnd]) == parse(b))
  }

  /** A request and the bytes after its head that were read along with it. */
  datatype ReadResult = ReadResult(request: HttpRequest, bodyStart: seq<byte>)

  function Verdict(status: ParseStatus, buf: seq<byte>): Result<ReadResult, HttpError>
    requires status != Partial
    requires status.Complete? ==> status.headerEnd <= |buf|
  {
    match status
    case Complete(headerEnd, head) =>
      (match Accept(head)
       case Ok(request) => Ok(ReadResult(request, buf[headerEnd..]))
       case Err(e) => Err(e))
    case Rejected(e) => Err(e)
  }

  /** The reader over the chunks its reads return; also how many chunks it consumed. */
  ghost function ReadHead(parse: seq<byte> -> ParseStatus, buf: seq<byte>, chunks: seq<seq<byte>>, ending: Ending)
    : (Result<ReadResult, HttpError>, nat)
    requires PrefixStable(parse)
    decreases |chunks|
  {
    if chunks == [] then (Err(Io(EndError(ending))), 0) else
    var grown := buf + chunks[0];
    if |grown| > MAX_HEADER_SIZE then (Err(HeaderTooLarge), 1)
    else if parse(grown) == Partial then
      var (r, used) := ReadHead(parse, grown, chunks[1..], ending);
      (r, used + 1)
    else (Verdict(parse(grown), grown), 1)
  }

  ghost predicate Chunks(chunks: seq<seq<byte>>) {
    forall i :: 0 <= i < |chunks| ==> 0 < |chunks[i]| <= CHUNK
  }

  /** The first `n` bytes are the shortest part of the input on which the parser has a verdict. */
  ghost predicate DecidedAt(parse: seq<byte> -> ParseStatus, input: seq<byte>, n: nat) {
    n <= |input| && parse(input[..n]) != Partial && forall k: nat :: k < n ==> parse(input[..k]) == Partial
  }

  /** The parser never has a verdict on any part of the input. */
  ghost predicate Undecided(parse: seq<byte> -> ParseStatus, input: seq<byte>) {
    forall k: nat :: k <= |input| ==> parse(input[..k]) == Partial
  }

  lemma VerdictStays(parse: seq<byte> -> ParseStatus, input: seq<byte>, n: nat, m: nat)
    requires PrefixStable(parse) && DecidedAt(parse, input, n) && n <= m <= |input|
    ensures parse(input[..m]) == parse(input[..n])
    ensures parse(input[..n]).Complete? ==> parse(input[..n]).headerEnd == n
  {
    assert input[..m] == input[..n] + input[n..m];
    if parse(input[..n]).Complete? {
      var h := parse(input[..n]).headerEnd;
      assert input[..n][..h] == input[..h];
    }
  }

  /** Bytes in the buffer when it first holds `n` bytes, reading whole chunks on top of `have`. */
  function Reaches(have: nat, chunks: seq<seq<byte>>, n: nat): (len: nat)
    decreases |chunks|
  {
    if have >= n || chunks == [] then have else Reaches(have + |chunks[0]|, chunks[1..], n)
  }

  lemma {:induction false} ReachesBounds(have: nat, chunks: seq<seq<byte>>, n: nat)
    requires Chunks(chunks) && have + |Concat(chunks)| >= n > have
    ensures n <= Reaches(have, chunks, n) <= n - 1 + CHUNK
    ensures Reaches(have, chunks, n) <= have + |Concat(chunks)|
    decreases |chunks|
  {
    var now := have + |chunks[0]|;
    if now < n {
      ReachesBounds(now, chunks[1..], n);
    }
  }

  /** One chunk further: `have` bytes of the input are in the buffer, the rest is in `chunks`. */
  lemma ReadStep(parse: seq<byte> -> ParseStatus, input: seq<byte>, have: nat, chunks: seq<seq<byte>>, ending: Ending)
    requires PrefixStable(parse) && chunks != []
    requires have <= |input| && input == input[..have] + Concat(chunks)
    ensures var now := have + |chunks[0]|;
      && now <= |input| && input == input[..now] + Concat(chunks[1..])
      && ReadHead(parse, input[..have], chunks, ending) ==
           if now > MAX_HEADER_SIZE then (Err(HeaderTooLarge), 1)
           else if parse(input[..now]) == Partial then
             (ReadHead(parse, input[..now], chunks[1..], ending).0,
              ReadHead(parse, input[..now], chunks[1..], ending).1 + 1)
           else (Verdict(parse(input[..now]), input[..now]), 1)
  {
    hide PrefixStable, Verdict;
    var now := have + |chunks[0]|;
    Assoc(input[..have], chunks[0], Concat(chunks[1..]));
    FrontAndBack(input[..have] + chunks[0], Concat(chunks[1..]));
    assert input[..now] == input[..have] + chunks[0];
    hide Concat;
  }

  /** What is decided once a verdict exists after `n` bytes. */
  ghost predicate Decided(parse: seq<byte> -> ParseStatus, input: seq<byte>, have: nat,
                          chunks: seq<seq<byte>>, ending: Ending, n: nat)
    requires PrefixStable(parse) && DecidedAt(parse, input, n) && have <= |input|
  {
    var (r, used) := ReadHead(parse, input[..have], chunks, ending);
    var len := Reaches(have, chunks, n);
    && n <= len <= |input|
    && used <= |chunks|
    && (len > 65536 ==> r == Err(HeaderTooLarge))
    && (len <= 65536 ==>
         (r == (if parse(input[..n]).Complete? then Verdict(Complete(n, parse(input[..n]).head), input[..len])
                else Err(parse(input[..n]).error))
          && input[..len] + Concat(chunks[used..]) == input))
  }

  /** The chunk completes the head. */
  lemma DecidedNow(parse: seq<byte> -> ParseStatus, input: seq<byte>, have: nat,
                   chunks: seq<seq<byte>>, ending: Ending, n: nat)
    requires PrefixStable(parse) && DecidedAt(parse, input, n) && chunks != []
    requires have < n && have <= |input| && input == input[..have] + Concat(chunks) && n <= have + |chunks[0]|
    ensures Decided(parse, input, have, chunks, ending, n)
  {
    hide PrefixStable;
    ReadStep(parse, input, have, chunks, ending);
    var now := have + |chunks[0]|;
    VerdictStays(parse, input, n, now);
    assert Reaches(have, chunks, n) == now;
    hide DecidedAt, ReadHead, Concat, Reaches;
  }

  /** The chunk leaves the head unfinished. */
  lemma DecidedLater(parse: seq<byte> -> ParseStatus, input: seq<byte>, have: nat,
                     chunks: seq<seq<byte>>, ending: Ending, n: nat)
    requires PrefixStable(parse) && DecidedAt(parse, input, n) && chunks != []
    requires have < n && have <= |input| && input == input[..have] + Concat(chunks) && have + |chunks[0]| < n
    requires n <= Reaches(have, chunks, n) <= |input|
    requires have + |chunks[0]| <= MAX_HEADER_SIZE ==> Decided(parse, input, have + |chunks[0]|, chunks[1..], ending, n)
    ensures Decided(parse, input, have, chunks, ending, n)
  {
    hide PrefixStable;
    ReadStep(parse, input, have, chunks, ending);
    var now := have + |chunks[0]|;
    assert Reaches(have, chunks, n) == Reaches(now, chunks[1..], n);
    assert parse(input[..now]) == Partial;
    hide DecidedAt, Concat, Reaches, Verdict;
    if now <= MAX_HEADER_SIZE {
      var used := ReadHead(parse, input[..now], chunks[1..], ending).1;
      hide ReadHead;
      assert used <= |chunks[1..]| ==> chunks[used + 1..] == chunks[1..][used..];
    }
  }

  /**
   With a verdict after `n` bytes, the outcome is that verdict, and exactly the bytes after the head
   remain, unless the chunk that completes the head takes the buffer past the limit.
   */
  lemma {:induction false} ReadDecided(parse: seq<byte> -> ParseStatus, input: seq<byte>, have: nat,
                                       chunks: seq<seq<byte>>, ending: Ending, n: nat)
    requires PrefixStable(parse) && Chunks(chunks)
    requires have < n && have <= |input| && input == input[..have] + Concat(chunks) && DecidedAt(parse, input, n)
    ensures Decided(parse, input, have, chunks, ending, n)
    decreases |chunks|
  {
    hide PrefixStable, ReadHead, Decided;
    ReachesBounds(have, chunks, n);
    assert chunks != [];
    ReadStep(parse, input, have, chunks, ending);
    hide Concat, Reaches;
    var now := have + |chunks[0]|;
    if now < n {
      if now <= MAX_HEADER_SIZE {
        ReadDecided(parse, input, now, chunks[1..], ending, n);
      }
      DecidedLater(parse, input, have, chunks, ending, n);
    } else {
      DecidedNow(parse, input, have, chunks, ending, n);
    }
  }

  /** Without a verdict the reader fails: too large if more than the limit arrives, else at the end of the stream. */
  lemma {:induction false} ReadUndecided(parse: seq<byte> -> ParseStatus, input: seq<byte>, have: nat,
                                         chunks: seq<seq<byte>>, ending: Ending)
    requires PrefixStable(parse) && Chunks(chunks)
    requires have <= MAX_HEADER_SIZE && have <= |input| && input == input[..have] + Concat(chunks)
    requires Undecided(parse, input)
    ensures ReadHead(parse, input[..have], chunks, ending).0 == Err(
              if |input| > 65536 then HeaderTooLarge else Io(EndError(ending)))
    decreases |chunks|
  {
    hide PrefixStable, Verdict;
    if chunks == [] {
      assert input == input[..have];
    } else {
      ReadStep(parse, input, have, chunks, ending);
      hide ReadHead, Concat;
      var now := have + |chunks[0]|;
      if now <= MAX_HEADER_SIZE {
        ReadUndecided(parse, input, now, chunks[1..], ending);
      }
    }
  }

  /**
   A head that leaves room for one more chunk is read whatever the fragmentation, and the bytes read
   beyond it followed by the bytes not yet read are exactly what the client sent after its head.
   */
  lemma SmallHeadIsRead(parse: seq<byte> -> ParseStatus, chunks: seq<seq<byte>>, ending: Ending, n: nat)
    requires PrefixStable(parse) && Chunks(chunks) && DecidedAt(parse, Concat(chunks), n) && 0 < n
    requires n + 1023 <= 65536
    ensures var input := Concat(chunks);
            var (r, used) := ReadHead(parse, [], chunks, ending);
            match parse(input[..n])
            case Rejected(e) => r == Err(e)
            case Complete(_, head) =>
              (match Accept(head)
               case Err(e) => r == Err(e)
               case Ok(request) =>
                 && r.Ok? && r.value.request == request && used <= |chunks|
                 && r.value.bodyStart + Concat(chunks[used..]) == input[n..])
  {
    hide PrefixStable, ReadHead, Reaches, Accept;
    var input := Concat(chunks);
    assert input == input[..0] + Concat(chunks) && input[..0] == [];
    ReachesBounds(0, chunks, n);
    ReadDecided(parse, input, 0, chunks, ending, n);
    VerdictStays(parse, input, n, n);
    hide DecidedAt, Concat;
    var len := Reaches(0, chunks, n);
    var used := ReadHead(parse, [], chunks, ending).1;
    if parse(input[..n]).Complete? {
      DropFront(input[..len], Concat(chunks[used..]), n);
    }
  }

  /**
   Whatever the reader accepts is what the parser makes of the client's whole stream, and the bytes read
   beyond the head followed by the bytes not yet read are exactly the stream behind it.
   */
  lemma {:induction false} ReadAccepted(parse: seq<byte> -> ParseStatus, input: seq<byte>, have: nat,
                                        chunks: seq<seq<byte>>, ending: Ending)
    requires PrefixStable(parse) && have <= |input| && input == input[..have] + Concat(chunks)
    requires ReadHead(parse, input[..have], chunks, ending).0.Ok?
    ensures var (r, used) := ReadHead(parse, input[..have], chunks, ending);
            var status := parse(input);
      && status.Complete? && status.headerEnd <= |input| && Accept(status.head) == Ok(r.value.request)
      && used <= |chunks| && r.value.bodyStart + Concat(chunks[used..]) == input[status.headerEnd..]
    decreases |chunks|
  {
    hide PrefixStable, Accept;
    assert chunks != [];
    ReadStep(parse, input, have, chunks, ending);
    hide ReadHead, Concat;
    var now := have + |chunks[0]|;
    if parse(input[..now]) == Partial {
      ReadAccepted(parse, input, now, chunks[1..], ending);
      var used := ReadHead(parse, input[..now], chunks[1..], ending).1;
      assert chunks[used + 1..] == chunks[1..][used..];
    } else {
      VerdictOnMore(parse, input[..now], Concat(chunks[1..]));
      DropFront(input[..now], Concat(chunks[1..]), parse(input).headerEnd);
    }
  }

  lemma VerdictOnMore(parse: seq<byte> -> ParseStatus, b: seq<byte>, more: seq<byte>)
    requires PrefixStable(parse) && parse(b) != Partial
    ensures parse(b + more) == parse(b) && (parse(b).Complete? ==> parse(b).headerEnd <= |b|)
  {
  }

  lemma DropFront(a: seq<byte>, b: seq<byte>, n: nat)
    requires n <= |a|
    ensures (a + b)[n..] == a[n..] + b
  {
  }

  /** A head longer than the limit is never accepted. */
  lemma LargeHeadIsRefused(parse: seq<byte> -> ParseStatus, chunks: seq<seq<byte>>, ending: Ending, n: nat)
    requires PrefixStable(parse) && Chunks(chunks) && DecidedAt(parse, Concat(chunks), n)
    requires n > 65536
    ensures ReadHead(parse, [], chunks, ending).0 == Err(HeaderTooLarge)
  {
    hide PrefixStable, ReadHead;
    var input := Concat(chunks);
    assert input == input[..0] + Concat(chunks) && input[..0] == [];
    ReachesBounds(0, chunks, n);
    ReadDecided(parse, input, 0, chunks, ending, n);
  }

  /** `count` bytes cut as a single peeked byte followed by full reads. */
  function FullReads(input: seq<byte>): (chunks: seq<seq<byte>>)
    ensures Chunks(chunks) && Concat(chunks) == input
    decreases |input|
  {
    if input == [] then []
    else if |input| <= CHUNK then
      assert Concat([input]) == input + Concat([]) by { assert [input][1..] == []; }
      [input]
    else
      var rest := FullReads(input[CHUNK..]);
      assert ([input[..CHUNK]] + rest)[1..] == rest;
      [input[..CHUNK]] + rest
  }

  /** The bound is sharp: one byte more, and the peeked byte followed by full reads is refused. */
  lemma {:induction false} FullReadsReach(input: seq<byte>, have: nat, n: nat, k: nat)
    requires have + k * CHUNK < n <= have + (k + 1) * CHUNK <= have + |input|
    ensures Reaches(have, FullReads(input), n) == have + (k + 1) * CHUNK
    decreases k
  {
    var chunks := FullReads(input);
    if |input| > CHUNK {
      assert chunks[0] == input[..CHUNK] && chunks[1..] == FullReads(input[CHUNK..]);
      if k > 0 {
        FullReadsReach(input[CHUNK..], have + CHUNK, n, k - 1);
      }
    } else {
      assert chunks == [input] && k == 0;
    }
  }

  lemma SlackIsSharp(parse: seq<byte> -> ParseStatus, input: seq<byte>, ending: Ending, n: nat)
    requires PrefixStable(parse) && DecidedAt(parse, input, n)
    requires n == 64514 && |input| >= n + 1023
    ensures ReadHead(parse, [], [input[..1]] + FullReads(input[1..]), ending).0 == Err(HeaderTooLarge)
  {
    hide PrefixStable, ReadHead;
    var chunks := [input[..1]] + FullReads(input[1..]);
    assert chunks[1..] == FullReads(input[1..]);
    assert Concat(chunks) == input;
    assert input == input[..0] + Concat(chunks) && input[..0] == [];
    ReadDecided(parse, input, 0, chunks, ending, n);
    FullReadsReach(input[1..], 1, n, 63);
  }

  // ----- the reader as the program runs it

  /** The loop goes on after each of these chunks. */
  ghost predicate Pending(parse: seq<byte> -> ParseStatus, chunks: seq<seq<byte>>) {
    chunks == [] || (
      && |Concat(chunks)| <= MAX_HEADER_SIZE && parse(Concat(chunks)) == Partial
      && Pending(parse, chunks[..|chunks| - 1]))
  }

  lemma {:induction false} ReadHeadAfter(parse: seq<byte> -> ParseStatus, chunks: seq<seq<byte>>,
                                         more: seq<seq<byte>>, ending: Ending)
    requires PrefixStable(parse) && Pending(parse, chunks)
    ensures var (r, used) := ReadHead(parse, Concat(chunks), more, ending);
            ReadHead(parse, [], chunks + more, ending) == (r, |chunks| + used)
    decreases |chunks|
  {
    hide PrefixStable, Verdict;
    if chunks == [] {
      assert chunks + more == more;
    } else {
      var earlier, last := chunks[..|chunks| - 1], chunks[|chunks| - 1];
      ReadHeadAfter(parse, earlier, [last] + more, ending);
      assert chunks == earlier + [last];
      Assoc(earlier, [last], more);
      ConcatLast(earlier, last);
      assert ([last] + more)[1..] == more;
    }
  }

  lemma ConcatLast(earlier: seq<seq<byte>>, last: seq<byte>)
    ensures Concat(earlier + [last]) == Concat(earlier) + last
  {
    ConcatAppend(earlier, [last]);
    assert [last][1..] == [];
  }

  /** The loop has read these chunks, and goes on. */
  ghost predicate Reading(parse: seq<byte> -> ParseStatus, chunks: seq<seq<byte>>, buf: seq<byte>) {
    Chunks(chunks) && buf == Concat(chunks) && Pending(parse, chunks)
  }

  lemma StreamEnds(parse: seq<byte> -> ParseStatus, chunks: seq<seq<byte>>, buf: seq<byte>, ending: Ending)
    requires PrefixStable(parse) && Reading(parse, chunks, buf)
    ensures ReadHead(parse, [], chunks, ending) == (Err(Io(EndError(ending))), |chunks|)
    ensures Chunks(chunks) && buf == Concat(chunks)
  {
    hide PrefixStable, Verdict;
    ReadHeadAfter(parse, chunks, [], ending);
    assert chunks + [] == chunks;
  }

  /** One more chunk: a verdict on it, or the loop goes on. */
  lemma LoopTurn(parse: seq<byte> -> ParseStatus, chunks: seq<seq<byte>>, buf: seq<byte>,
                 last: seq<byte>, ending: Ending)
    requires PrefixStable(parse) && Reading(parse, chunks, buf) && 0 < |last| <= CHUNK
    ensures Chunks(chunks + [last]) && Concat(chunks + [last]) == buf + last
    ensures if |buf + last| > MAX_HEADER_SIZE then
        ReadHead(parse, [], chunks + [last], ending) == (Err(HeaderTooLarge), |chunks| + 1)
      else if parse(buf + last) == Partial then Reading(parse, chunks + [last], buf + last)
      else ReadHead(parse, [], chunks + [last], ending) == (Verdict(parse(buf + last), buf + last), |chunks| + 1)
  {
    hide PrefixStable, Verdict;
    ReadHeadAfter(parse, chunks, [last], ending);
    ConcatLast(chunks, last);
    var longer := chunks + [last];
    assert longer[..|longer| - 1] == chunks;
  }

  /** What one turn of the loop makes of the grown buffer; none means to read on. */
  method Examine(buf: seq<byte>, parse: seq<byte> -> ParseStatus) returns (r: Option<Result<ReadResult, HttpError>>)
    requires PrefixStable(parse)
    ensures r == if |buf| > MAX_HEADER_SIZE then Some(Err(HeaderTooLarge))
                 else if parse(buf) == Partial then None
                 else Some(Verdict(parse(buf), buf))
  {
    if |buf| > MAX_HEADER_SIZE {
      return Some(Err(HeaderTooLarge));
    }
    match parse(buf) {
      case Complete(headerEnd, head) =>
        var accepted := Accept(head);
        match accepted {
          case Ok(request) => return Some(Ok(ReadResult(request, buf[headerEnd..])));
          case Err(e) => return Some(Err(e));
        }
      case Partial => return None;
      case Rejected(e) => return Some(Err(e));
    }
  }

  /** One read; `start` is the stream before the bytes in `buf` were taken off it. */
  method ReadChunk(stream: PrefixedStream, ghost start: Wire, ghost buf: seq<byte>)
    returns (chunk: Result<seq<byte>, IoError>)
    requires stream.Valid() && start == stream.View().(input := buf + stream.View().input)
    modifies stream, stream.stream
    ensures stream.Valid()
    ensures match chunk
            case Ok(bytes) =>
              && |bytes| <= CHUNK && start == stream.View().(input := (buf + bytes) + stream.View().input)
              && |stream.View().input| + |bytes| == |old(stream.View()).input|
              && (bytes == [] ==> start.ending.Eof?)
            case Err(e) => e == ReadFailed && start.ending.Broken? && stream.View() == old(stream.View())
  {
    chunk := stream.Read(CHUNK);
    if chunk.Ok? {
      Assoc(buf, chunk.value, stream.View().input);
    }
  }

  /** The reader over a real stream, which may cut the bytes anywhere; `chunks` is what its reads returned. */
  method ReadHttpRequest(stream: PrefixedStream, parse: seq<byte> -> ParseStatus)
    returns (r: Result<ReadResult, HttpError>, ghost chunks: seq<seq<byte>>)
    requires stream.Valid() && PrefixStable(parse)
    modifies stream, stream.stream
    ensures stream.Valid()
    ensures Chunks(chunks) && old(stream.View()) == stream.View().(input := Concat(chunks) + stream.View().input)
    ensures (r, |chunks|) == ReadHead(parse, [], chunks, stream.View().ending)
  {
    hide PrefixStable;
    assert Reading(parse, [], []);
    hide Verdict, Accept, Concat, ReadHead, Chunks, Reading;
    var buf: seq<byte> := [];
    chunks := [];
    ghost var start := stream.View();
    while true
      invariant stream.Valid()
      invariant Reading(parse, chunks, buf)
      invariant start == stream.View().(input := buf + stream.View().input)
      decreases |stream.View().input|
    {
      var chunk := ReadChunk(stream, start, buf);
      if chunk.Err? {
        StreamEnds(parse, chunks, buf, start.ending);
        return Err(Io(chunk.error)), chunks;
      }
      if chunk.value == [] {
        assert buf + chunk.value == buf;
        StreamEnds(parse, chunks, buf, start.ending);
        return Err(Io(UnexpectedEof)), chunks;
      }
      LoopTurn(parse, chunks, buf, chunk.value, start.ending);
      buf, chunks := buf + chunk.value, chunks + [chunk.value];
      var verdict := Examine(buf, parse);
      if verdict.Some? {
        return verdict.value, chunks;
      }
    }
  }
}

/** Rejection of ambiguous request framing (section 6.3 of RFC 9112). */
module HttpFraming {
  import opened Basics
  import opened HttpText

  datatype FramingError = BadContentLength | AmbiguousContentLength | ConflictingLengthHeaders

  const CONTENT_LENGTH := Ascii("content-length")
  const TRANSFER_ENCODING := Ascii("transfer-encoding")
  const CHUNKED := Ascii("chunked")

  function Decimal(digits: Text): Option<nat> {
    if digits == [] then Some(0)
    else
      var n := |digits| - 1;
      match Decimal(digits[..n])
      case Some(high) => if 48 <= digits[n] <= 57 then Some(high * 10 + (digits[n] - 48)) else None
      case None => None
  }

  /** `str::parse::<u64>()`: an optional plus sign, at least one digit, no overflow. */
  function ParseU64(t: Text): Option<u64> {
    var digits := if t != [] && t[0] == 43 then t[1..] else t;
    if digits == [] then None else
    match Decimal(digits)
    case Some(n) => if n < U64_RANGE then Some(n) else None
    case None => None
  }

  /** The body length that one Content-Length item announces. */
  function Length(item: Text): Option<u64> {
    ParseU64(Trim(item))
  }

  predicate SaysChunked(item: Text) {
    EqIgnoreCase(Trim(item), CHUNKED)
  }

  predicate Chunked(headers: seq<Header>) {
    exists item | item in Items(headers, TRANSFER_ENCODING) :: SaysChunked(item)
  }

  function ScanLengths(items: seq<Text>, known: Option<u64>): Result<Option<u64>, FramingError> {
    if items == [] then Ok(known)
    else match Length(items[0])
      case None => Err(BadContentLength)
      case Some(n) =>
        if known.Some? && known.value != n then Err(AmbiguousContentLength)
        else ScanLengths(items[1..], Some(n))
  }

  function Framing(headers: seq<Header>): Result<(), FramingError> {
    match ScanLengths(Items(headers, CONTENT_LENGTH), None)
    case Err(e) => Err(e)
    case Ok(length) => if Chunked(headers) && length.Some? then Err(ConflictingLengthHeaders) else Ok(())
  }

  // ----- what the number parser reads

  predicate AllDigits(t: Text) {
    forall i :: 0 <= i < |t| ==> 48 <= t[i] <= 57
  }

  function Pow10(n: nat): (p: nat)
    ensures p > 0
  {
    if n == 0 then 1 else 10 * Pow10(n - 1)
  }

  /** Each digit times the power of ten of its place. */
  function PlaceValue(t: Text): nat
    requires AllDigits(t)
  {
    if t == [] then 0 else (t[0] - 48) * Pow10(|t| - 1) + PlaceValue(t[1..])
  }

  lemma {:induction false} PlaceValueLast(t: Text, d: byte)
    requires AllDigits(t) && 48 <= d <= 57
    ensures AllDigits(t + [d]) && PlaceValue(t + [d]) == PlaceValue(t) * 10 + (d - 48)
  {
    var longer := t + [d];
    if t == [] {
      assert longer == [d] && [d][1..] == [];
    } else {
      assert longer[1..] == t[1..] + [d];
      PlaceValueLast(t[1..], d);
      assert Pow10(|t|) == 10 * Pow10(|t| - 1);
      TenTimes(t[0] - 48, Pow10(|t| - 1));
    }
  }

  lemma TenTimes(d: int, p: int)
    ensures d * (10 * p) == d * p * 10
  {
  }

  lemma {:induction false} DecimalExactly(t: Text)
    ensures Decimal(t).Some? <==> AllDigits(t)
    ensures AllDigits(t) ==> Decimal(t) == Some(PlaceValue(t))
    decreases |t|
  {
    if t != [] {
      var n := |t| - 1;
      DecimalExactly(t[..n]);
      assert t == t[..n] + [t[n]];
      if AllDigits(t) {
        PlaceValueLast(t[..n], t[n]);
      }
    }
  }

  /** `t` is an optional plus sign and at least one digit, and the digits denote `n`, which fits 64 bits. */
  ghost predicate Denotes(t: Text, n: nat) {
    var digits := if t != [] && t[0] == 43 then t[1..] else t;
    digits != [] && AllDigits(digits) && PlaceValue(digits) == n && n < 18_446_744_073_709_551_616
  }

  lemma ParseU64Exactly(t: Text, n: nat)
    ensures ParseU64(t).Some? && ParseU64(t).value == n <==> Denotes(t, n)
  {
    DecimalExactly(if t != [] && t[0] == 43 then t[1..] else t);
    hide Decimal, AllDigits, PlaceValue;
  }

  /** `to_string()` of a number. */
  function Printed(n: nat): (t: Text)
    ensures t != [] && AllDigits(t) && (t[0] == 48 ==> n == 0 && |t| == 1)
  {
    if n < 10 then [48 + n] else Printed(n / 10) + [48 + n % 10]
  }

  lemma {:induction false} PrintedDenotes(n: nat)
    ensures PlaceValue(Printed(n)) == n
  {
    if n < 10 {
      assert [48 + n][1..] == [];
    } else {
      PrintedDenotes(n / 10);
      PlaceValueLast(Printed(n / 10), 48 + n % 10);
    }
  }

  lemma {:induction false} LeadingZeros(k: nat, t: Text)
    requires AllDigits(t)
    ensures AllDigits(seq(k, _ => 48) + t) && PlaceValue(seq(k, _ => 48) + t) == PlaceValue(t)
  {
    var zeros: Text := seq(k, _ => 48);
    if k == 0 {
      assert zeros + t == t;
    } else {
      LeadingZeros(k - 1, t);
      var fewer: Text := seq(k - 1, _ => 48);
      assert (zeros + t)[1..] == fewer + t;
    }
  }

  /** Every 64-bit number is read back from its decimal form, with a sign and zeros in front or not. */
  lemma PrintedIsRead(n: u64, k: nat)
    ensures ParseU64(seq(k, _ => 48) + Printed(n)) == Some(n)
    ensures ParseU64([43] + (seq(k, _ => 48) + Printed(n))) == Some(n)
  {
    var digits: Text := seq(k, _ => 48) + Printed(n);
    PrintedDenotes(n);
    LeadingZeros(k, Printed(n));
    assert digits[0] == if k == 0 then Printed(n)[0] else 48;
    assert ([43] + digits)[1..] == digits;
    hide PlaceValue, AllDigits, Printed;
    ParseU64Exactly(digits, n);
    ParseU64Exactly([43] + digits, n);
  }

  lemma {:induction false} BelowNextPower(t: Text)
    requires AllDigits(t)
    ensures PlaceValue(t) < Pow10(|t|)
  {
    if t != [] {
      BelowNextPower(t[1..]);
      DigitTimes(t[0] - 48, Pow10(|t| - 1));
    }
  }

  lemma DigitTimes(d: int, p: nat)
    requires 0 <= d <= 9
    ensures 0 <= d * p <= 9 * p && (d > 0 ==> d * p >= p)
  {
  }

  /** A decimal number without sign and without unnecessary zeros. */
  predicate PlainDecimal(t: Text) {
    t != [] && AllDigits(t) && (t[0] == 48 ==> |t| == 1)
  }

  lemma {:induction false} SameLengthSameDigits(a: Text, b: Text)
    requires AllDigits(a) && AllDigits(b) && |a| == |b| && PlaceValue(a) == PlaceValue(b)
    ensures a == b
  {
    if a != [] {
      BelowNextPower(a[1..]);
      BelowNextPower(b[1..]);
      SamePlace(a[0] - 48, b[0] - 48, Pow10(|a| - 1), PlaceValue(a[1..]), PlaceValue(b[1..]));
      SameLengthSameDigits(a[1..], b[1..]);
      assert a == [a[0]] + a[1..] && b == [b[0]] + b[1..];
    }
  }

  lemma SamePlace(x: int, y: int, p: int, r: int, s: int)
    requires 0 <= r < p && 0 <= s < p && x * p + r == y * p + s
    ensures x == y && r == s
  {
    HigherPlace(x, y, p, r, s);
    HigherPlace(y, x, p, s, r);
  }

  lemma HigherPlace(x: int, y: int, p: int, r: int, s: int)
    requires 0 <= r < p && 0 <= s
    ensures x < y ==> x * p + r < y * p + s
  {
    if x < y {
      assert (x + 1) * p <= y * p;
    }
  }

  lemma {:induction false} PowersGrow(m: nat, n: nat)
    requires m <= n
    ensures Pow10(m) <= Pow10(n)
  {
    if m < n {
      PowersGrow(m, n - 1);
    }
  }

  lemma ShorterIsSmaller(a: Text, b: Text)
    requires PlainDecimal(a) && PlainDecimal(b) && |a| < |b|
    ensures PlaceValue(a) < PlaceValue(b)
  {
    BelowNextPower(a);
    PowersGrow(|a|, |b| - 1);
    DigitTimes(b[0] - 48, Pow10(|b| - 1));
    hide Pow10;
  }

  /** Two plain decimal numbers are the same number only if they are the same text. */
  lemma PlainDecimalsDiffer(a: Text, b: Text)
    requires PlainDecimal(a) && PlainDecimal(b)
    ensures PlaceValue(a) == PlaceValue(b) <==> a == b
  {
    hide PlaceValue;
    if PlaceValue(a) == PlaceValue(b) {
      if |a| < |b| {
        ShorterIsSmaller(a, b);
      } else if |b| < |a| {
        ShorterIsSmaller(b, a);
      } else {
        SameLengthSameDigits(a, b);
      }
    }
  }

  // ----- the validator accepts exactly the unambiguous heads

  /** Some Content-Length item of the head, trimmed, denotes `n`. */
  ghost predicate Announces(item: Text, n: nat) {
    Denotes(Trim(item), n)
  }

  /** Every announced length is a number, all are the same, and chunked coding excludes them. */
  ghost predicate Unambiguous(headers: seq<Header>) {
    && (forall a :: HeaderItem(headers, "content-length", a) ==> exists n :: Announces(a, n))
    && (forall a, b, m, n ::
          (HeaderItem(headers, "content-length", a) && HeaderItem(headers, "content-length", b)
           && Announces(a, m) && Announces(b, n)) ==> m == n)
    && (forall a, c :: HeaderItem(headers, "transfer-encoding", c) && Spelled(Trim(c), "chunked") ==>
          !HeaderItem(headers, "content-length", a))
  }

  /** The same on the collected items, as the scan sees them. */
  ghost predicate ScanAccepts(headers: seq<Header>) {
    var items := Items(headers, CONTENT_LENGTH);
    && (forall a :: a in items ==> Length(a).Some?)
    && (forall a, b :: a in items && b in items ==> Length(a) == Length(b))
    && (Chunked(headers) ==> items == [])
  }

  lemma {:induction false} ScanSucceeds(items: seq<Text>, known: Option<u64>)
    ensures ScanLengths(items, known).Ok? <==>
      && (forall a :: a in items ==> Length(a).Some? && (known.Some? ==> Length(a) == known))
      && (forall a, b :: a in items && b in items ==> Length(a) == Length(b))
    ensures ScanLengths(items, known).Ok? ==> (ScanLengths(items, known).value.None? <==> items == [] && known.None?)
  {
    if items != [] {
      var n := Length(items[0]);
      assert forall a :: a in items <==> a == items[0] || a in items[1..];
      if n.Some? && (known.None? || known == n) {
        ScanSucceeds(items[1..], n);
      }
    }
  }

  lemma ScanExactly(headers: seq<Header>)
    ensures Framing(headers).Ok? <==> ScanAccepts(headers)
  {
    ScanSucceeds(Items(headers, CONTENT_LENGTH), None);
  }

  lemma LengthExactly(item: Text)
    ensures forall n: nat :: Announces(item, n) <==> Length(item).Some? && Length(item).value == n
    ensures Length(item).Some? <==> exists n :: Announces(item, n)
  {
    forall n: nat ensures Announces(item, n) <==> Length(item).Some? && Length(item).value == n {
      ParseU64Exactly(Trim(item), n);
    }
    hide Announces, Length;
    if Length(item).Some? {
      assert Announces(item, Length(item).value);
    }
  }

  lemma ChunkedExactly(headers: seq<Header>)
    ensures Chunked(headers) <==>
      exists c :: HeaderItem(headers, "transfer-encoding", c) && Spelled(Trim(c), "chunked")
  {
    AllItemsExactly(headers, "transfer-encoding");
    hide Items, HeaderItem, Spelled, Trim, SaysChunked, Ascii;
    forall c: Text ensures SaysChunked(c) <==> Spelled(Trim(c), "chunked") {
      SaysChunkedExactly(c);
    }
  }

  lemma SaysChunkedExactly(c: Text)
    ensures SaysChunked(c) <==> Spelled(Trim(c), "chunked")
  {
    SpelledExactly(Trim(c), "chunked");
    hide Trim, Spelled, EqIgnoreCase, Ascii;
  }

  /** The early-exit scan accepts exactly the unambiguous heads. */
  lemma FramingExact(headers: seq<Header>)
    ensures Framing(headers).Ok? <==> Unambiguous(headers)
  {
    LengthItemsExactly(headers);
    hide *;
    ScanExactly(headers);
    ChunkedExactly(headers);
    LengthsExactly(headers);
  }

  lemma LengthItemsExactly(headers: seq<Header>)
    ensures forall a: Text :: a in Items(headers, CONTENT_LENGTH) <==> HeaderItem(headers, "content-length", a)
  {
    AllItemsExactly(headers, "content-length");
    hide Items, HeaderItem, Ascii;
  }

  /** The two conditions on lengths, said about items and about numbers. */
  lemma LengthsExactly(headers: seq<Header>)
    requires forall a: Text :: a in Items(headers, CONTENT_LENGTH) <==> HeaderItem(headers, "content-length", a)
    requires Chunked(headers) <==>
      exists c :: HeaderItem(headers, "transfer-encoding", c) && Spelled(Trim(c), "chunked")
    ensures ScanAccepts(headers) <==> Unambiguous(headers)
  {
    hide Items, HeaderItem, Spelled, Trim, Chunked, Announces, Length, CONTENT_LENGTH;
    var items := Items(headers, CONTENT_LENGTH);
    forall a: Text
      ensures forall n: nat :: Announces(a, n) <==> Length(a).Some? && Length(a).value == n
      ensures Length(a).Some? <==> exists n: nat :: Announces(a, n)
    {
      LengthExactly(a);
    }
    if ScanAccepts(headers) {
      assert Unambiguous(headers);
    }
    if Unambiguous(headers) {
      forall a, b | a in items && b in items ensures Length(a) == Length(b) {
        assert Announces(a, Length(a).value) && Announces(b, Length(b).value);
      }
      if items != [] {
        assert HeaderItem(headers, "content-length", items[0]);
      }
    }
  }

  /**
   Two lengths without sign and unnecessary zeros pass the validator together exactly when they are
   the same text.
   */
  lemma TwoLengthsAgree(a: Text, b: Text)
    requires PlainDecimal(a) && PlainDecimal(b) && PlaceValue(a) < U64_RANGE && PlaceValue(b) < U64_RANGE
    ensures Framing([Header(CONTENT_LENGTH, a), Header(CONTENT_LENGTH, b)]).Ok? <==> a == b
  {
    PlainLength(a);
    PlainLength(b);
    PlainDecimalsDiffer(a, b);
    TwoLengthItems(a, b);
    hide *;
    TwoItemsAgree([Header(CONTENT_LENGTH, a), Header(CONTENT_LENGTH, b)], a, b);
  }

  lemma TwoItemsAgree(headers: seq<Header>, a: Text, b: Text)
    requires Items(headers, CONTENT_LENGTH) == [a, b] && Items(headers, TRANSFER_ENCODING) == []
    requires Length(a).Some? && Length(b).Some?
    ensures Framing(headers).Ok? <==> Length(a) == Length(b)
  {
    hide Framing, Items, Length, SaysChunked, CONTENT_LENGTH, TRANSFER_ENCODING;
    ScanExactly(headers);
    assert a in [a, b] && b in [a, b];
    assert !Chunked(headers);
  }

  lemma NotChunked()
    ensures !EqIgnoreCase(CONTENT_LENGTH, TRANSFER_ENCODING)
  {
    assert |CONTENT_LENGTH| != |TRANSFER_ENCODING|;
  }

  lemma PlainLength(a: Text)
    requires PlainDecimal(a) && PlaceValue(a) < U64_RANGE
    ensures Length(a) == Some(PlaceValue(a)) && COMMA !in a
  {
    assert Denotes(a, PlaceValue(a));
    ParseU64Exactly(a, PlaceValue(a));
    hide ParseU64, PlaceValue;
    assert forall i :: 0 <= i < |a| ==> 48 <= a[i] <= 57;
    PrintableIsTrimmed(a);
    hide Trimmed;
  }

  lemma TwoLengthItems(a: Text, b: Text)
    requires COMMA !in a && COMMA !in b
    ensures var headers := [Header(CONTENT_LENGTH, a), Header(CONTENT_LENGTH, b)];
            Items(headers, CONTENT_LENGTH) == [a, b] && Items(headers, TRANSFER_ENCODING) == []
  {
    var g, h := Header(CONTENT_LENGTH, a), Header(CONTENT_LENGTH, b);
    NotChunked();
    hide Items, EqIgnoreCase, CONTENT_LENGTH, TRANSFER_ENCODING;
    OneItem(CONTENT_LENGTH, a);
    OneItem(CONTENT_LENGTH, b);
    assert [g, h] == [g] + [h];
    ItemsAppend([g], [h], CONTENT_LENGTH);
    NoItems([g, h], TRANSFER_ENCODING);
  }

  predicate FramingHeader(h: Header) {
    EqIgnoreCase(h.name, CONTENT_LENGTH) || EqIgnoreCase(h.name, TRANSFER_ENCODING)
  }

  /** Removing headers, reordering them, and adding others never makes an accepted head ambiguous. */
  lemma AcceptanceInherited(headers: seq<Header>, fewer: seq<Header>)
    requires Framing(headers).Ok?
    requires forall h :: h in fewer && FramingHeader(h) ==> h in headers
    ensures Framing(fewer).Ok?
  {
    ScanExactly(headers);
    ScanExactly(fewer);
    hide Framing;
    forall item | item in Items(fewer, CONTENT_LENGTH)
      ensures item in Items(headers, CONTENT_LENGTH)
    {
      ItemOrigin(fewer, CONTENT_LENGTH, item);
      ItemOrigin(headers, CONTENT_LENGTH, item);
    }
    forall item | item in Items(fewer, TRANSFER_ENCODING)
      ensures item in Items(headers, TRANSFER_ENCODING)
    {
      ItemOrigin(fewer, TRANSFER_ENCODING, item);
      ItemOrigin(headers, TRANSFER_ENCODING, item);
    }
    assert Items(fewer, CONTENT_LENGTH) != [] ==> Items(fewer, CONTENT_LENGTH)[0] in Items(headers, CONTENT_LENGTH);
  }

  /** The verdict does not depend on the order of the headers. */
  lemma AcceptancePermutes(a: seq<Header>, b: seq<Header>)
    requires multiset(a) == multiset(b)
    ensures Framing(a).Ok? <==> Framing(b).Ok?
  {
    assert forall h :: h in a <==> h in multiset(a);
    assert forall h :: h in b <==> h in multiset(b);
    if Framing(a).Ok? {
      AcceptanceInherited(a, b);
    }
    if Framing(b).Ok? {
      AcceptanceInherited(b, a);
    }
  }

  /** One list header is judged, error included, like its two halves sent as separate headers. */
  lemma ListSplits(before: seq<Header>, name: Text, x: Text, y: Text, after: seq<Header>)
    ensures Framing(before + [Header(name, x + [COMMA] + y)] + after)
         == Framing(before + [Header(name, x), Header(name, y)] + after)
  {
    ItemsSplit(before, name, x, y, after, CONTENT_LENGTH);
    ItemsSplit(before, name, x, y, after, TRANSFER_ENCODING);
    hide Items, ScanLengths, SaysChunked;
  }

  lemma ItemsSplit(before: seq<Header>, name: Text, x: Text, y: Text, after: seq<Header>, field: Text)
    ensures Items(before + [Header(name, x + [COMMA] + y)] + after, field)
         == Items(before + [Header(name, x), Header(name, y)] + after, field)
  {
    var one, two := [Header(name, x + [COMMA] + y)], [Header(name, x), Header(name, y)];
    ItemsAppend(before + one, after, field);
    ItemsAppend(before, one, field);
    ItemsAppend(before + two, after, field);
    ItemsAppend(before, two, field);
    SplitAt(x, COMMA, y);
    hide Split, EqIgnoreCase;
    assert two == [two[0]] + [two[1]];
    ItemsAppend([two[0]], [two[1]], field);
    assert one[1..] == [] && [two[0]][1..] == [] && [two[1]][1..] == [];
  }

  // ----- the validator as the program runs it

  lemma {:induction false} ScanAppend(a: seq<Text>, b: seq<Text>, known: Option<u64>)
    ensures ScanLengths(a + b, known) ==
      match ScanLengths(a, known)
      case Err(e) => Err(e)
      case Ok(n) => ScanLengths(b, n)
  {
    if a == [] {
      assert a + b == b;
    } else {
      assert (a + b)[1..] == a[1..] + b;
      if Length(a[0]).Some? {
        ScanAppend(a[1..], b, Length(a[0]));
      }
    }
  }

  /**
   Which error is reported, whatever comes later: the first length that is not a number, the first that
   differs from those before it, or else a length beside chunked coding.
   */
  lemma FramingErrors(headers: seq<Header>, front: seq<Text>, x: Text, back: seq<Text>)
    requires Items(headers, CONTENT_LENGTH) == front + ([x] + back)
    requires forall a :: a in front ==> Length(a).Some? && Length(a) == Length(front[0])
    ensures Length(x).None? ==> Framing(headers) == Err(BadContentLength)
    ensures front != [] && Length(x).Some? && Length(x) != Length(front[0]) ==>
              Framing(headers) == Err(AmbiguousContentLength)
    ensures (back == [] && Length(x).Some? && (front == [] || Length(x) == Length(front[0])) && Chunked(headers)) ==>
              Framing(headers) == Err(ConflictingLengthHeaders)
  {
    hide Items, Length, Chunked, CONTENT_LENGTH;
    ScanSucceeds(front, None);
    ScanAgreed(front, None);
    ScanAppend(front, [x] + back, None);
    assert ([x] + back)[0] == x && ([x] + back)[1..] == back;
  }

  lemma {:induction false} ScanAgreed(items: seq<Text>, known: Option<u64>)
    requires ScanLengths(items, known).Ok?
    ensures ScanLengths(items, known).value == if items == [] then known else Length(items[0])
  {
    hide Length;
    if items != [] {
      ScanAgreed(items[1..], Length(items[0]));
    }
  }

  /** What the first header adds to the two facts the validator collects. */
  lemma FirstHeader(headers: seq<Header>)
    requires headers != []
    ensures var Header(name, value) := headers[0];
      && (Items(headers, CONTENT_LENGTH) ==
           if EqIgnoreCase(name, CONTENT_LENGTH) then Split(value, COMMA) + Items(headers[1..], CONTENT_LENGTH)
           else Items(headers[1..], CONTENT_LENGTH))
      && (Chunked(headers) <==>
           || (!EqIgnoreCase(name, CONTENT_LENGTH) && EqIgnoreCase(name, TRANSFER_ENCODING)
               && exists item :: item in Split(value, COMMA) && SaysChunked(item))
           || Chunked(headers[1..]))
  {
    assert |CONTENT_LENGTH| != |TRANSFER_ENCODING|;
    hide Split, SaysChunked, Ascii;
  }

  lemma NoHeaders(known: Option<u64>)
    ensures ScanLengths(Items([], CONTENT_LENGTH), known) == Ok(known) && !Chunked([])
  {
  }

  lemma NoLength()
    ensures ParseU64([]) == None
  {
  }

  method ScanValue(value: Text, known: Option<u64>) returns (r: Result<Option<u64>, FramingError>)
    ensures r == ScanLengths(Split(value, COMMA), known)
  {
    hide Split, Trim, ParseU64;
    var parts := Split(value, COMMA);
    var contentLength := known;
    assert ParseU64([]).None? by { NoLength(); }
    for i := 0 to |parts|
      invariant ScanLengths(parts[i..], contentLength) == ScanLengths(parts, known)
    {
      var trimmed := Trim(parts[i]);
      if trimmed == [] {
        return Err(BadContentLength);
      }
      var parsed := ParseU64(trimmed);
      if parsed.None? {
        return Err(BadContentLength);
      }
      if contentLength.Some? {
        if contentLength.value != parsed.value {
          return Err(AmbiguousContentLength);
        }
      } else {
        contentLength := parsed;
      }
      assert parts[i..][1..] == parts[i + 1..];
    }
    return Ok(contentLength);
  }

  method ValidateMessageFraming(headers: seq<Header>) returns (r: Result<(), FramingError>)
    ensures r == Framing(headers)
  {
    hide Items, Chunked, ScanLengths, Split, EqIgnoreCase, SaysChunked;
    assert headers[0..] == headers;
    var contentLength: Option<u64> := None;
    var hasChunked := false;
    for i := 0 to |headers|
      invariant ScanLengths(Items(headers[i..], CONTENT_LENGTH), contentLength)
             == ScanLengths(Items(headers, CONTENT_LENGTH), None)
      invariant hasChunked || Chunked(headers[i..]) <==> Chunked(headers)
    {
      var Header(name, value) := headers[i];
      FirstHeader(headers[i..]);
      assert headers[i..][1..] == headers[i + 1..];
      if EqIgnoreCase(name, CONTENT_LENGTH) {
        ScanAppend(Split(value, COMMA), Items(headers[i + 1..], CONTENT_LENGTH), contentLength);
        var scanned := ScanValue(value, contentLength);
        if scanned.Err? {
          return Err(scanned.error);
        }
        contentLength := scanned.value;
      } else if EqIgnoreCase(name, TRANSFER_ENCODING)
             && exists item | item in Split(value, COMMA) :: SaysChunked(item) {
        hasChunked := true;
      }
    }
    NoHeaders(contentLength);
    assert headers[|headers|..] == [];
    if hasChunked && contentLength.Some? {
      return Err(ConflictingLengthHeaders);
    }
    return Ok(());
  }
}

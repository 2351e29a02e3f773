/**
 Forwarding of a non-CONNECT request: which headers survive (section 7.6.1 of RFC 9110), the head that
 is written to the target, and the listener's own Via entry (section 7.6.3 of RFC 9110).
 */
module HttpForward {
  import opened Basics
  import opened HttpText
  import opened HttpFraming
  import opened HttpHead
  import opened FieldParser
  import opened Streams
  import Utf8

  const VIA := Ascii("Via")
  const HOST := Ascii("Host")
  const CONNECTION := Ascii("Connection")

  /** Headers removed whatever the request says. */
  const DROPPED: seq<Text> := [
    Ascii("proxy-authorization"), Ascii("proxy-connection"), Ascii("host"), Ascii("connection"),
    Ascii("keep-alive"), Ascii("te"), Ascii("trailer"), Ascii("upgrade")]

  /** The listener identifiers recorded in Via: the second word of every list item. */
  predicate HasProxyVia(headers: seq<Header>, via: Text) {
    exists hop | hop in Items(headers, VIA) :: var words := Words(hop); |words| > 1 && words[1] == via
  }

  /** Some item of some Via header has this identifier as its second word. */
  lemma HasProxyViaExactly(headers: seq<Header>, via: Text)
    ensures HasProxyVia(headers, via) <==>
      exists item :: HeaderItem(headers, "Via", item) && SecondWord(item, via)
  {
    AllItemsExactly(headers, "Via");
    forall item: Text ensures |Words(item)| > 1 && Words(item)[1] == via <==> SecondWord(item, via) {
      SecondWordExactly(item, via);
    }
    hide Items, HeaderItem, SecondWord, Words, VIA;
    if HasProxyVia(headers, via) {
      var hop :| hop in Items(headers, VIA) && |Words(hop)| > 1 && Words(hop)[1] == via;
      assert HeaderItem(headers, "Via", hop) && SecondWord(hop, via);
    }
  }

  function OptionNames(items: seq<Text>): seq<Text> {
    if items == [] then []
    else (if Trim(items[0]) == [] then [] else [LowerAll(Trim(items[0]))]) + OptionNames(items[1..])
  }

  /** The header names listed by all Connection headers. */
  function ConnectionNames(headers: seq<Header>): seq<Text> {
    OptionNames(Items(headers, CONNECTION))
  }

  predicate AlwaysDropped(name: Text) {
    exists d | d in DROPPED :: EqIgnoreCase(name, d)
  }

  predicate Nominated(name: Text, names: seq<Text>) {
    exists n | n in names :: EqIgnoreCase(n, name)
  }

  predicate ShouldDrop(name: Text, names: seq<Text>) {
    AlwaysDropped(name) || Nominated(name, names)
  }

  function Kept(headers: seq<Header>, names: seq<Text>): seq<Header> {
    if headers == [] then []
    else if ShouldDrop(headers[0].name, names) then Kept(headers[1..], names)
    else [headers[0]] + Kept(headers[1..], names)
  }

  /** Where a request goes, as the target parser answered: the Host value and the origin-form path. */
  datatype Route = Route(host: Text, path: Text)

  predicate SoundRoute(r: Route) {
    FieldValue(r.host) && Trimmed(r.host) && Utf8.Valid(r.host) && RequestTarget(r.path)
  }

  function ViaValue(version: Text, via: Text): Text {
    version + [SPACE] + via
  }

  /** The request that the target receives. */
  function Forwarded(r: HttpRequest, route: Route, via: Text): HttpRequest {
    HttpRequest(r.method_, route.path, r.version,
                Kept(r.headers, ConnectionNames(r.headers))
                + [Header(HOST, route.host), Header(VIA, ViaValue(r.version, via))])
  }

  // ----- what the filter keeps

  lemma {:induction false} KeptExactly(headers: seq<Header>, names: seq<Text>, h: Header)
    ensures multiset(Kept(headers, names))[h] == if ShouldDrop(h.name, names) then 0 else multiset(headers)[h]
  {
    hide ShouldDrop;
    if headers != [] {
      assert headers == [headers[0]] + headers[1..];
      KeptExactly(headers[1..], names, h);
    }
  }

  /** Nothing is moved: the filter works on each stretch of headers separately. */
  lemma {:induction false} KeptAppend(a: seq<Header>, b: seq<Header>, names: seq<Text>)
    ensures Kept(a + b, names) == Kept(a, names) + Kept(b, names)
  {
    hide ShouldDrop;
    if a == [] {
      assert a + b == b;
    } else {
      assert (a + b)[1..] == a[1..] + b;
      KeptAppend(a[1..], b, names);
    }
  }

  lemma KeptIsPart(headers: seq<Header>, names: seq<Text>)
    ensures forall h :: h in Kept(headers, names) ==> h in headers && !ShouldDrop(h.name, names)
  {
    forall h | h in Kept(headers, names) ensures h in headers && !ShouldDrop(h.name, names) {
      KeptExactly(headers, names, h);
      assert h in multiset(Kept(headers, names));
      assert h in multiset(headers);
    }
  }

  lemma SameNameLower(a: Text, b: Text)
    requires EqIgnoreCase(a, b)
    ensures LowerAll(a) == LowerAll(b)
  {
  }

  lemma SameNameTransitive(a: Text, b: Text, c: Text)
    requires EqIgnoreCase(a, b) && EqIgnoreCase(b, c)
    ensures EqIgnoreCase(a, c) && EqIgnoreCase(c, a)
  {
  }

  lemma LowerTwice(t: Text)
    ensures LowerAll(LowerAll(t)) == LowerAll(t)
  {
  }

  lemma {:induction false} OptionNamesAreLower(items: seq<Text>)
    ensures forall n :: n in OptionNames(items) ==> LowerAll(n) == n
  {
    if items != [] {
      OptionNamesAreLower(items[1..]);
      LowerTwice(Trim(items[0]));
      hide Trim, LowerAll;
    }
  }

  /** A header is nominated exactly when its lower-case name is among the listed ones. */
  lemma ConnectionNominates(headers: seq<Header>, name: Text)
    ensures Nominated(name, ConnectionNames(headers)) <==> LowerAll(name) in ConnectionNames(headers)
  {
    OptionNamesAreLower(Items(headers, CONNECTION));
    NominatedByLower(name, ConnectionNames(headers));
    hide OptionNames, Items, LowerAll, Nominated, CONNECTION;
  }

  lemma NominatedByLower(name: Text, names: seq<Text>)
    requires forall n :: n in names ==> LowerAll(n) == n
    ensures Nominated(name, names) <==> LowerAll(name) in names
  {
    LowerIsSameName(name);
    hide LowerAll, EqIgnoreCase;
    if Nominated(name, names) {
      var n :| n in names && EqIgnoreCase(n, name);
      SameNameLower(n, name);
    }
  }

  lemma LowerIsSameName(name: Text)
    ensures EqIgnoreCase(LowerAll(name), name)
  {
  }

  lemma DropGoesByName(a: Text, b: Text, names: seq<Text>)
    requires EqIgnoreCase(a, b) && ShouldDrop(a, names)
    ensures ShouldDrop(b, names)
  {
    hide EqIgnoreCase, DROPPED;
    if AlwaysDropped(a) {
      var d :| d in DROPPED && EqIgnoreCase(a, d);
      SameNameSymmetric(a, b);
      SameNameTransitive(b, a, d);
    } else {
      var n :| n in names && EqIgnoreCase(n, a);
      SameNameTransitive(n, a, b);
    }
  }

  /** A list that is not hop-by-hop is either kept whole or, when nominated, gone. */
  lemma {:induction false} KeptItems(headers: seq<Header>, names: seq<Text>, name: Text)
    requires !AlwaysDropped(name)
    ensures Items(Kept(headers, names), name) == if Nominated(name, names) then [] else Items(headers, name)
  {
    hide EqIgnoreCase, AlwaysDropped, Nominated, ShouldDrop, Split, Items;
    if headers == [] {
      NoItems(headers, name);
    } else {
      var h, rest := headers[0], headers[1..];
      KeptItems(rest, names, name);
      DropIsByName(h.name, name, names);
      assert headers == [h] + rest;
      ItemsFirst(h, rest, name);
      ItemsFirst(h, Kept(rest, names), name);
    }
  }

  lemma ItemsFirst(h: Header, rest: seq<Header>, name: Text)
    ensures Items([h] + rest, name) ==
      (if EqIgnoreCase(h.name, name) then Split(h.value, COMMA) else []) + Items(rest, name)
  {
    hide EqIgnoreCase, Split;
    assert ([h] + rest)[1..] == rest;
  }

  lemma DropIsByName(a: Text, b: Text, names: seq<Text>)
    requires !AlwaysDropped(b)
    ensures EqIgnoreCase(a, b) ==> (ShouldDrop(a, names) <==> Nominated(b, names))
  {
    if EqIgnoreCase(a, b) {
      SameNameSymmetric(a, b);
      hide EqIgnoreCase, AlwaysDropped, Nominated;
      if ShouldDrop(a, names) {
        DropGoesByName(a, b, names);
      }
      if ShouldDrop(b, names) {
        DropGoesByName(b, a, names);
      }
    }
  }

  lemma ViaIsNotDropped()
    ensures !AlwaysDropped(VIA)
  {
    assert |VIA| == 3;
    assert forall d :: d in DROPPED ==> |d| != 3;
    hide VIA, DROPPED;
  }

  lemma OwnNames()
    ensures EqIgnoreCase(HOST, DROPPED[2]) && EqIgnoreCase(CONNECTION, DROPPED[3])
    ensures !AlwaysDropped(VIA)
    ensures !EqIgnoreCase(HOST, VIA) && !EqIgnoreCase(HOST, CONNECTION) && !EqIgnoreCase(VIA, CONNECTION)
    ensures !FramingHeader(Header(HOST, [])) && !FramingHeader(Header(VIA, []))
  {
    ViaIsNotDropped();
    HostIsDropped();
    ConnectionIsDropped();
    assert |VIA| == 3 && |HOST| == 4 && |CONNECTION| == 10 && |CONTENT_LENGTH| == 14 && |TRANSFER_ENCODING| == 17;
    hide AlwaysDropped, VIA, HOST, CONNECTION, DROPPED, CONTENT_LENGTH, TRANSFER_ENCODING;
  }

  lemma HostIsDropped()
    ensures |DROPPED| == 8 && EqIgnoreCase(HOST, DROPPED[2])
  {
    var dropped := Ascii("host");
    assert HOST == [72, 111, 115, 116] && dropped == [104, 111, 115, 116];
    assert DROPPED[2] == dropped;
    hide HOST, DROPPED, Ascii;
  }

  lemma ConnectionIsDropped()
    ensures |DROPPED| == 8 && EqIgnoreCase(CONNECTION, DROPPED[3])
  {
    var dropped := Ascii("connection");
    assert CONNECTION == [67, 111, 110, 110, 101, 99, 116, 105, 111, 110];
    assert dropped == [99, 111, 110, 110, 101, 99, 116, 105, 111, 110];
    assert DROPPED[3] == dropped;
    hide CONNECTION, DROPPED, Ascii;
  }

  // ----- what is dropped, in the terms of the request

  lemma {:induction false} OptionNamesExactly(items: seq<Text>, name: Text)
    ensures name in OptionNames(items) <==> name != [] && exists item :: item in items && LowerAll(Trim(item)) == name
  {
    if items != [] {
      OptionNamesExactly(items[1..], name);
      hide Trim, LowerAll;
      assert forall item :: item in items <==> item == items[0] || item in items[1..];
    }
  }

  /** The collected names are those of all comma items of all Connection headers, trimmed and in lower case. */
  lemma ConnectionNamesExactly(headers: seq<Header>, name: Text)
    ensures name in ConnectionNames(headers) <==>
      name != [] && exists item :: HeaderItem(headers, "Connection", item) && LowerAll(Trim(item)) == name
  {
    hide OptionNames, Items, HeaderItem, Trim, LowerAll, CONNECTION;
    OptionNamesExactly(Items(headers, CONNECTION), name);
    ConnectionItemsExactly(headers);
  }

  lemma ConnectionItemsExactly(headers: seq<Header>)
    ensures forall item: Text :: item in Items(headers, CONNECTION) <==> HeaderItem(headers, "Connection", item)
  {
    AllItemsExactly(headers, "Connection");
    hide Items, HeaderItem, Ascii;
  }

  /** A Connection header of the request lists this header name, in any case and with any white space around it. */
  ghost predicate ListedByConnection(headers: seq<Header>, name: Text) {
    exists item :: HeaderItem(headers, "Connection", item) && Trim(item) != [] && SameLetters(Trim(item), name)
  }

  lemma NominatedExactly(headers: seq<Header>, name: Text)
    ensures Nominated(name, ConnectionNames(headers)) <==> ListedByConnection(headers, name)
  {
    ConnectionNominates(headers, name);
    ConnectionNamesExactly(headers, LowerAll(name));
    forall t: Text ensures LowerAll(t) == LowerAll(name) <==> SameLetters(t, name) {
      SameLower(t, name);
    }
    hide Nominated, ConnectionNames, HeaderItem, Trim, SameLetters, LowerAll;
    if ListedByConnection(headers, name) {
      assert LowerAll(name) in ConnectionNames(headers);
    }
  }

  lemma SameLower(a: Text, b: Text)
    ensures LowerAll(a) == LowerAll(b) <==> SameLetters(a, b)
  {
    EqIgnoreCaseExactly(a, b);
    hide SameLetters;
    if LowerAll(a) == LowerAll(b) {
      forall i | 0 <= i < |a| ensures Lower(a[i]) == Lower(b[i]) {
        assert LowerAll(a)[i] == LowerAll(b)[i];
      }
    }
  }

  /** Credentials for the proxy, the routing header it replaces, and the hop-by-hop headers. */
  predicate HopByHop(name: Text) {
    || Spelled(name, "proxy-authorization") || Spelled(name, "proxy-connection") || Spelled(name, "host")
    || Spelled(name, "connection") || Spelled(name, "keep-alive") || Spelled(name, "te")
    || Spelled(name, "trailer") || Spelled(name, "upgrade")
  }

  lemma DroppedExactly(name: Text)
    ensures AlwaysDropped(name) <==> HopByHop(name)
  {
    SpelledExactly(name, "proxy-authorization");
    SpelledExactly(name, "proxy-connection");
    SpelledExactly(name, "host");
    SpelledExactly(name, "connection");
    SpelledExactly(name, "keep-alive");
    SpelledExactly(name, "te");
    SpelledExactly(name, "trailer");
    SpelledExactly(name, "upgrade");
    hide EqIgnoreCase, Spelled, Ascii;
    DroppedOneByOne(name);
  }

  lemma DroppedOneByOne(name: Text)
    ensures AlwaysDropped(name) <==>
      || EqIgnoreCase(name, Ascii("proxy-authorization")) || EqIgnoreCase(name, Ascii("proxy-connection"))
      || EqIgnoreCase(name, Ascii("host")) || EqIgnoreCase(name, Ascii("connection"))
      || EqIgnoreCase(name, Ascii("keep-alive")) || EqIgnoreCase(name, Ascii("te"))
      || EqIgnoreCase(name, Ascii("trailer")) || EqIgnoreCase(name, Ascii("upgrade"))
  {
    hide EqIgnoreCase, Ascii;
    assert DROPPED[0] in DROPPED && DROPPED[1] in DROPPED && DROPPED[2] in DROPPED && DROPPED[3] in DROPPED;
    assert DROPPED[4] in DROPPED && DROPPED[5] in DROPPED && DROPPED[6] in DROPPED && DROPPED[7] in DROPPED;
  }

  lemma DropExactly(headers: seq<Header>, name: Text)
    ensures ShouldDrop(name, ConnectionNames(headers)) <==> HopByHop(name) || ListedByConnection(headers, name)
  {
    DroppedExactly(name);
    NominatedExactly(headers, name);
    hide AlwaysDropped, HopByHop, Nominated, ListedByConnection, ConnectionNames;
  }

  /**
   What of a request's headers is forwarded: as often as it was there, every header that is not
   hop-by-hop and that no Connection header lists; and no other.
   */
  lemma ForwardedExactly(r: HttpRequest, route: Route, via: Text, h: Header)
    ensures var sent := Forwarded(r, route, via).headers;
      && |sent| >= 2
      && multiset(sent[..|sent| - 2])[h] ==
           if HopByHop(h.name) || ListedByConnection(r.headers, h.name) then 0 else multiset(r.headers)[h]
  {
    KeptExactly(r.headers, ConnectionNames(r.headers), h);
    DropExactly(r.headers, h.name);
    hide HopByHop, ListedByConnection, ConnectionNames, ShouldDrop, Kept, ViaValue;
    var kept, sent := Kept(r.headers, ConnectionNames(r.headers)), Forwarded(r, route, via).headers;
    assert sent[..|sent| - 2] == kept;
  }

  /**
   No hop-by-hop header and no header listed by a Connection header of the request leaves with it,
   apart from the two the proxy adds; there is exactly one Host; the last header is the own Via.
   */
  lemma ForwardedHeaders(r: HttpRequest, route: Route, via: Text)
    ensures var headers := Forwarded(r, route, via).headers;
            var n := |headers|;
      && n >= 2
      && headers[n - 2] == Header(HOST, route.host) && Spelled(HOST, "Host")
      && headers[n - 1] == Header(VIA, r.version + [32] + via) && Spelled(VIA, "Via")
      && (forall i :: 0 <= i < n - 2 ==>
           headers[i] in r.headers && !HopByHop(headers[i].name) && !ListedByConnection(r.headers, headers[i].name))
      && (forall i :: 0 <= i < n && EqIgnoreCase(headers[i].name, HOST) ==> i == n - 2)
      && (forall i :: 0 <= i < n ==> !EqIgnoreCase(headers[i].name, CONNECTION))
    ensures var f := Forwarded(r, route, via);
            f.method_ == r.method_ && f.target == route.path && f.version == r.version
  {
    var kept := Kept(r.headers, ConnectionNames(r.headers));
    KeptIsPart(r.headers, ConnectionNames(r.headers));
    OwnNames();
    OwnSpelling();
    forall i | 0 <= i < |kept|
      ensures kept[i] in r.headers && !ShouldDrop(kept[i].name, ConnectionNames(r.headers))
      ensures !HopByHop(kept[i].name) && !ListedByConnection(r.headers, kept[i].name)
      ensures !EqIgnoreCase(kept[i].name, HOST) && !EqIgnoreCase(kept[i].name, CONNECTION)
    {
      assert kept[i] in kept;
      DropExactly(r.headers, kept[i].name);
      KeptIsOther(kept[i].name, ConnectionNames(r.headers));
    }
    hide ShouldDrop, HopByHop, ListedByConnection, EqIgnoreCase, Spelled, ConnectionNames, Kept, HOST, VIA, CONNECTION;
  }

  lemma OwnSpelling()
    ensures Spelled(HOST, "Host") && Spelled(VIA, "Via")
  {
  }

  lemma KeptIsOther(name: Text, names: seq<Text>)
    requires !ShouldDrop(name, names)
    ensures !EqIgnoreCase(name, HOST) && !EqIgnoreCase(name, CONNECTION)
  {
    OwnNames();
    HostIsDropped();
    if EqIgnoreCase(name, HOST) {
      SameNameTransitive(name, HOST, DROPPED[2]);
    }
    if EqIgnoreCase(name, CONNECTION) {
      SameNameTransitive(name, CONNECTION, DROPPED[3]);
    }
    hide EqIgnoreCase, DROPPED, HOST, CONNECTION;
  }

  lemma SameNameSymmetric(a: Text, b: Text)
    requires EqIgnoreCase(a, b)
    ensures EqIgnoreCase(b, a)
  {
  }

  // ----- the forwarded head is again a head the proxy accepts

  lemma VersionTokens()
    ensures Token(HTTP_1_1) && Token(HTTP_1_0) && FieldName(VIA) && FieldName(HOST)
  {
    assert HTTP_1_1 == [72, 84, 84, 80, 47, 49, 46, 49] && HTTP_1_0 == [72, 84, 84, 80, 47, 49, 46, 48];
    assert VIA == [86, 105, 97] && HOST == [72, 111, 115, 116];
    hide Ascii;
  }

  /** Two words of printable ASCII around one space. */
  lemma ViaValueIsPrintable(version: Text, via: Text)
    requires Token(version) && Token(via)
    ensures var value := ViaValue(version, via);
            && 33 <= value[0] <= 126 && 33 <= value[|value| - 1] <= 126
            && forall i :: 0 <= i < |value| ==> 32 <= value[i] <= 126
  {
  }

  lemma ViaValueIsSound(version: Text, via: Text)
    requires version in {HTTP_1_1, HTTP_1_0} && Token(via)
    ensures SoundHeader(Header(VIA, ViaValue(version, via)))
  {
    VersionTokens();
    ViaValueIsPrintable(version, via);
    hide FieldName, ViaValue, Token, VIA, HTTP_1_1, HTTP_1_0;
    AsciiIsValid(ViaValue(version, via));
    PrintableIsTrimmed(ViaValue(version, via));
    hide Trimmed, Utf8.Valid;
  }

  lemma ForwardedIsSound(r: HttpRequest, route: Route, via: Text)
    requires SoundRequest(r) && SoundRoute(route) && Token(via)
    ensures SoundRequest(Forwarded(r, route, via))
  {
    ViaValueIsSound(r.version, via);
    VersionTokens();
    KeptIsPart(r.headers, ConnectionNames(r.headers));
    hide Kept, ConnectionNames, FieldName, RequestTarget, FieldValue, Trimmed, Utf8.Valid;
    hide ShouldDrop, Token, HOST, VIA, HTTP_1_1, HTTP_1_0;
  }

  lemma FramingNames()
    ensures !AlwaysDropped(CONTENT_LENGTH) && !AlwaysDropped(TRANSFER_ENCODING)
    ensures LowerAll(CONTENT_LENGTH) == CONTENT_LENGTH && LowerAll(TRANSFER_ENCODING) == TRANSFER_ENCODING
  {
    assert |CONTENT_LENGTH| == 14 && |TRANSFER_ENCODING| == 17;
    assert forall d :: d in DROPPED ==> |d| != 14 && |d| != 17;
    FramingNamesAreLower();
    hide CONTENT_LENGTH, TRANSFER_ENCODING, DROPPED;
  }

  lemma FramingNamesAreLower()
    ensures LowerAll(CONTENT_LENGTH) == CONTENT_LENGTH && LowerAll(TRANSFER_ENCODING) == TRANSFER_ENCODING
  {
    LengthNameIsLower();
    EncodingNameIsLower();
  }

  lemma LengthNameIsLower()
    ensures LowerAll(CONTENT_LENGTH) == CONTENT_LENGTH
  {
    assert CONTENT_LENGTH == [99, 111, 110, 116, 101, 110, 116, 45, 108, 101, 110, 103, 116, 104];
    hide Ascii, CONTENT_LENGTH;
  }

  lemma EncodingNameIsLower()
    ensures LowerAll(TRANSFER_ENCODING) == TRANSFER_ENCODING
  {
    assert TRANSFER_ENCODING == [116, 114, 97, 110, 115, 102, 101, 114, 45, 101, 110, 99, 111, 100, 105, 110, 103];
    hide Ascii, TRANSFER_ENCODING;
  }

  /** A list header that the proxy neither drops by itself nor adds: it arrives whole unless nominated. */
  lemma ForwardedItems(r: HttpRequest, route: Route, via: Text, name: Text)
    requires !AlwaysDropped(name) && !EqIgnoreCase(HOST, name) && !EqIgnoreCase(VIA, name)
    ensures Items(Forwarded(r, route, via).headers, name) ==
      if LowerAll(name) in ConnectionNames(r.headers) then [] else Items(r.headers, name)
  {
    var names, own := ConnectionNames(r.headers), [Header(HOST, route.host), Header(VIA, ViaValue(r.version, via))];
    ConnectionNominates(r.headers, name);
    KeptItems(r.headers, names, name);
    hide AlwaysDropped, Nominated, LowerAll, EqIgnoreCase, Items, ConnectionNames, Kept, ViaValue, HOST, VIA;
    OwnIsOther(route.host, ViaValue(r.version, via), name);
    KeptAnd(r.headers, names, own, name);
  }

  lemma OwnIsOther(host: Text, value: Text, name: Text)
    requires !EqIgnoreCase(HOST, name) && !EqIgnoreCase(VIA, name)
    ensures Items([Header(HOST, host), Header(VIA, value)], name) == []
  {
    hide EqIgnoreCase, Items, HOST, VIA;
    NoItems([Header(HOST, host), Header(VIA, value)], name);
  }

  lemma KeptAnd(headers: seq<Header>, names: seq<Text>, own: seq<Header>, name: Text)
    requires Items(own, name) == []
    ensures Items(Kept(headers, names) + own, name) == Items(Kept(headers, names), name)
  {
    ItemsAppend(Kept(headers, names), own, name);
  }

  /**
   Removing and adding these headers never turns accepted framing into ambiguous framing, but what is
   said about the length of the body arrives exactly when Connection does not nominate it.
   */
  lemma ForwardedFraming(r: HttpRequest, route: Route, via: Text)
    requires Framing(r.headers).Ok?
    ensures Framing(Forwarded(r, route, via).headers).Ok?
    ensures Items(Forwarded(r, route, via).headers, CONTENT_LENGTH) ==
      if CONTENT_LENGTH in ConnectionNames(r.headers) then [] else Items(r.headers, CONTENT_LENGTH)
    ensures Items(Forwarded(r, route, via).headers, TRANSFER_ENCODING) ==
      if TRANSFER_ENCODING in ConnectionNames(r.headers) then [] else Items(r.headers, TRANSFER_ENCODING)
  {
    hide *;
    ForwardedFramingPasses(r, route, via);
    ForwardedLengths(r, route, via);
  }

  lemma ForwardedFramingPasses(r: HttpRequest, route: Route, via: Text)
    requires Framing(r.headers).Ok?
    ensures Framing(Forwarded(r, route, via).headers).Ok?
  {
    OwnNames();
    hide Framing;
    KeptIsPart(r.headers, ConnectionNames(r.headers));
    AcceptanceInherited(r.headers, Forwarded(r, route, via).headers);
  }

  lemma ForwardedLengths(r: HttpRequest, route: Route, via: Text)
    ensures Items(Forwarded(r, route, via).headers, CONTENT_LENGTH) ==
      if CONTENT_LENGTH in ConnectionNames(r.headers) then [] else Items(r.headers, CONTENT_LENGTH)
    ensures Items(Forwarded(r, route, via).headers, TRANSFER_ENCODING) ==
      if TRANSFER_ENCODING in ConnectionNames(r.headers) then [] else Items(r.headers, TRANSFER_ENCODING)
  {
    FramingNames();
    OwnAreNotFraming();
    hide *;
    ForwardedItems(r, route, via, CONTENT_LENGTH);
    ForwardedItems(r, route, via, TRANSFER_ENCODING);
  }

  lemma OwnAreNotFraming()
    ensures !EqIgnoreCase(HOST, CONTENT_LENGTH) && !EqIgnoreCase(VIA, CONTENT_LENGTH)
    ensures !EqIgnoreCase(HOST, TRANSFER_ENCODING) && !EqIgnoreCase(VIA, TRANSFER_ENCODING)
  {
    assert |VIA| == 3 && |HOST| == 4 && |CONTENT_LENGTH| == 14 && |TRANSFER_ENCODING| == 17;
    hide VIA, HOST, CONTENT_LENGTH, TRANSFER_ENCODING;
  }

  const NOMINATES_LENGTH := Header(CONNECTION, CONTENT_LENGTH)

  /**
   The other case occurs: for every length, the two headers below pass the validator, and the target is
   told nothing about the body that `UpstreamStream` still sends it.
   */
  lemma NominatedLengthIsLost(r: HttpRequest, route: Route, via: Text, length: Text)
    requires COMMA !in length && Length(length).Some?
    requires r.headers == [Header(CONTENT_LENGTH, length), NOMINATES_LENGTH]
    ensures Framing(r.headers).Ok? && Items(r.headers, CONTENT_LENGTH) == [length]
    ensures var sent := Forwarded(r, route, via).headers;
            Items(sent, CONTENT_LENGTH) == [] && Items(sent, TRANSFER_ENCODING) == []
  {
    hide *;
    NominatedLengthItems(r, length);
    OneLengthPasses(r.headers, length);
    LengthIsNominated(r.headers);
    ForwardedFraming(r, route, via);
    InSingleton(CONTENT_LENGTH);
  }

  lemma InSingleton<T>(x: T)
    ensures x in [x]
  {
  }

  lemma OneLengthPasses(headers: seq<Header>, length: Text)
    requires Items(headers, CONTENT_LENGTH) == [length] && Items(headers, TRANSFER_ENCODING) == []
    requires Length(length).Some?
    ensures Framing(headers).Ok?
  {
    hide Items, Length, SaysChunked, CONTENT_LENGTH, TRANSFER_ENCODING;
    ScanExactly(headers);
    assert !Chunked(headers);
  }

  lemma LengthIsNominated(headers: seq<Header>)
    requires Items(headers, CONNECTION) == [CONTENT_LENGTH]
    ensures ConnectionNames(headers) == [CONTENT_LENGTH]
  {
    LengthFacts();
    OneOption(CONTENT_LENGTH);
    hide Items, Trim, LowerAll, OptionNames, CONNECTION, CONTENT_LENGTH;
  }

  lemma NominatedLengthItems(r: HttpRequest, length: Text)
    requires COMMA !in length
    requires r.headers == [Header(CONTENT_LENGTH, length), NOMINATES_LENGTH]
    ensures Items(r.headers, CONTENT_LENGTH) == [length] && Items(r.headers, CONNECTION) == [CONTENT_LENGTH]
    ensures Items(r.headers, TRANSFER_ENCODING) == []
    ensures Trim(CONTENT_LENGTH) == CONTENT_LENGTH != [] && LowerAll(CONTENT_LENGTH) == CONTENT_LENGTH
  {
    LengthFacts();
    SplitWhole(length, COMMA);
    SplitWhole(CONTENT_LENGTH, COMMA);
    SameNameReflexive(CONTENT_LENGTH);
    SameNameReflexive(CONNECTION);
    hide Items, Split, Trim, LowerAll, EqIgnoreCase, CONNECTION, CONTENT_LENGTH, TRANSFER_ENCODING;
    TwoHeaders(r.headers[0], r.headers[1], CONTENT_LENGTH);
    TwoHeaders(r.headers[0], r.headers[1], CONNECTION);
    TwoHeaders(r.headers[0], r.headers[1], TRANSFER_ENCODING);
  }

  lemma TwoHeaders(g: Header, h: Header, name: Text)
    ensures Items([g, h], name) ==
      (if EqIgnoreCase(g.name, name) then Split(g.value, COMMA) else [])
      + (if EqIgnoreCase(h.name, name) then Split(h.value, COMMA) else [])
  {
    hide Split, EqIgnoreCase;
    assert [g, h] == [g] + [h] && [h] == [h] + [];
    ItemsFirst(g, [h], name);
    ItemsFirst(h, [], name);
  }

  lemma OneOption(option: Text)
    requires Trim(option) == option != []
    ensures OptionNames([option]) == [LowerAll(option)]
  {
    hide Trim, LowerAll;
    assert [option][1..] == [];
  }

  lemma LengthFacts()
    ensures COMMA !in CONTENT_LENGTH && Trim(CONTENT_LENGTH) == CONTENT_LENGTH != []
    ensures LowerAll(CONTENT_LENGTH) == CONTENT_LENGTH
    ensures !EqIgnoreCase(CONNECTION, CONTENT_LENGTH) && !EqIgnoreCase(CONTENT_LENGTH, CONNECTION)
    ensures !EqIgnoreCase(CONTENT_LENGTH, TRANSFER_ENCODING) && !EqIgnoreCase(CONNECTION, TRANSFER_ENCODING)
  {
    FramingNamesAreLower();
    assert CONTENT_LENGTH == [99, 111, 110, 116, 101, 110, 116, 45, 108, 101, 110, 103, 116, 104];
    assert |CONNECTION| == 10 && |TRANSFER_ENCODING| == 17;
    hide Ascii, CONTENT_LENGTH, TRANSFER_ENCODING, CONNECTION;
    PrintableIsTrimmed(CONTENT_LENGTH);
  }

  lemma AcceptOfSound(r: HttpRequest)
    requires SoundRequest(r) && Headers(r.headers) == Ok(r.headers) && Framing(r.headers).Ok?
    ensures Accept(RawOf(r)) == Ok(r)
  {
    hide Framing, SoundHeader, FieldName, RequestTarget, Headers, HTTP_1_1, HTTP_1_0;
  }

  /**
   The next hop's view. The written head followed by any bytes parses to exactly the forwarded request
   and ends exactly where the proxy stopped writing it; only the limit on the number of headers can
   make it fail.
   */
  lemma ForwardedParsesBack(r: HttpRequest, route: Route, via: Text, body: seq<byte>)
    requires SoundRequest(r) && Framing(r.headers).Ok? && SoundRoute(route) && Token(via)
    ensures var f := Forwarded(r, route, via);
            var status := ParseHead(HeadBytes(f) + body);
      if |f.headers| <= 128
      then status.Complete? && status.headerEnd == |HeadBytes(f)| && Accept(status.head) == Ok(f)
      else status == Rejected(TooManyHeaders)
  {
    var f := Forwarded(r, route, via);
    ForwardedIsSound(r, route, via);
    ForwardedFraming(r, route, via);
    SoundHeadersPass(f.headers);
    HeadParses(f, body);
    AcceptOfSound(f);
    hide ParseHead, HeadBytes, Forwarded, Framing, SoundRequest, RawOf, Accept;
  }

  // ----- the whole upstream stream

  /**
   What the target receives whenever the reader accepted a request, whatever the size of its head and
   whatever way it was cut on arrival: the rewritten head, then exactly the bytes behind the client's
   own head. The request is what the parser makes of the client's whole stream.
   */
  lemma UpstreamStream(chunks: seq<seq<byte>>, ending: Ending, route: Route, via: Text)
    requires PrefixStable(ParseHead) && ReadHead(ParseHead, [], chunks, ending).0.Ok?
    ensures var input, (read, used) := Concat(chunks), ReadHead(ParseHead, [], chunks, ending);
            var status, r := ParseHead(input), read.value.request;
      && status.Complete? && status.headerEnd <= |input| && Accept(status.head) == Ok(r) && SoundRequest(r)
      && used <= |chunks|
      && (HeadBytes(Forwarded(r, route, via)) + read.value.bodyStart) + Concat(chunks[used..])
         == HeadBytes(Forwarded(r, route, via)) + input[status.headerEnd..]
  {
    var input := Concat(chunks);
    assert input[..0] == [] && input == input[..0] + input;
    ReadAccepted(ParseHead, input, 0, chunks, ending);
    AcceptedIsSound(input);
    hide ParseHead, Accept, SoundRequest, PrefixStable, HeadBytes, Forwarded, ReadHead, Concat;
    var (read, used) := ReadHead(ParseHead, [], chunks, ending);
    Assoc(HeadBytes(Forwarded(read.value.request, route, via)), read.value.bodyStart, Concat(chunks[used..]));
  }

  // ----- forwarding as the program runs it

  /**
   Writes the head by appending to one buffer; returns everything sent before relaying starts, and the
   client's byte counter, to which exactly those bytes were added.
   */
  method HandleForward(r: HttpRequest, bodyStart: seq<byte>, route: Route, via: Text, tcpBytesUp: u64)
    returns (sent: seq<byte>, counted: u64)
    ensures sent == HeadBytes(Forwarded(r, route, via)) + bodyStart
    ensures counted == FetchAdd(tcpBytesUp, |sent|)
  {
    var names := ConnectionNames(r.headers);
    var start := r.method_ + [SPACE] + (route.path + [SPACE] + r.version) + CRLF;
    var request := start;
    assert r.headers[..0] == [] && start == start + FieldLines(Kept([], names));
    hide ConnectionNames, ShouldDrop, Kept, FieldLines, FieldLine, ViaValue;
    for i := 0 to |r.headers|
      invariant request == start + FieldLines(Kept(r.headers[..i], names))
    {
      NextLine(start, r.headers, names, i);
      if ShouldDrop(r.headers[i].name, names) {
        continue;
      }
      request := request + (FieldLine(r.headers[i]) + CRLF);
    }
    assert r.headers[..|r.headers|] == r.headers;
    HeadEnds(r, route, via);
    request := request + (FieldLine(Header(HOST, route.host)) + CRLF);
    request := request + (FieldLine(Header(VIA, ViaValue(r.version, via))) + CRLF);
    request := request + CRLF;
    var initialUp := |request| + |bodyStart|;
    sent := request + bodyStart;
    counted := FetchAdd(tcpBytesUp, initialUp);
  }

  /** What the loop has written grows by the line of a kept header. */
  lemma NextLine(start: seq<byte>, headers: seq<Header>, names: seq<Text>, i: nat)
    requires i < |headers|
    ensures var written := start + FieldLines(Kept(headers[..i], names));
            start + FieldLines(Kept(headers[..i + 1], names)) ==
              if ShouldDrop(headers[i].name, names) then written else written + (FieldLine(headers[i]) + CRLF)
  {
    hide ShouldDrop, Kept, FieldLines, FieldLine;
    var h, kept := headers[i], Kept(headers[..i], names);
    assert headers[..i + 1] == headers[..i] + [h];
    KeptAppend(headers[..i], [h], names);
    KeptOne(h, names);
    if ShouldDrop(h.name, names) {
      assert kept + [] == kept;
    } else {
      FieldLinesAppend(kept, [h]);
      FieldLinesOne(h);
      Assoc(start, FieldLines(kept), FieldLine(h) + CRLF);
    }
  }

  /** The head line by line, in the order in which it is written. */
  lemma HeadEnds(r: HttpRequest, route: Route, via: Text)
    ensures var start := r.method_ + [SPACE] + (route.path + [SPACE] + r.version) + CRLF;
            HeadBytes(Forwarded(r, route, via)) ==
              start + FieldLines(Kept(r.headers, ConnectionNames(r.headers)))
              + (FieldLine(Header(HOST, route.host)) + CRLF)
              + (FieldLine(Header(VIA, ViaValue(r.version, via))) + CRLF)
              + CRLF
  {
    hide ConnectionNames, Kept, FieldLines, FieldLine, ViaValue, HOST, VIA;
    var kept := Kept(r.headers, ConnectionNames(r.headers));
    var host, own := Header(HOST, route.host), Header(VIA, ViaValue(r.version, via));
    var start := StartLine(Forwarded(r, route, via)) + CRLF;
    FieldLinesAppend(kept, [host, own]);
    FieldLinesTwo(host, own);
    Assoc(start, FieldLines(kept), FieldLines([host, own]));
    Assoc(start + FieldLines(kept), FieldLine(host) + CRLF, FieldLine(own) + CRLF);
    Assoc(StartLine(Forwarded(r, route, via)), CRLF, FieldLines(Forwarded(r, route, via).headers));
  }

  lemma KeptOne(h: Header, names: seq<Text>)
    ensures Kept([h], names) == if ShouldDrop(h.name, names) then [] else [h]
  {
    assert [h][1..] == [];
  }

  lemma FieldLinesOne(h: Header)
    ensures FieldLines([h]) == FieldLine(h) + CRLF
  {
    assert [h][1..] == [];
    assert CRLF + [] == CRLF;
  }

  lemma FieldLinesTwo(g: Header, h: Header)
    ensures FieldLines([g, h]) == (FieldLine(g) + CRLF) + (FieldLine(h) + CRLF)
  {
    assert [g, h] == [g] + [h];
    FieldLinesAppend([g], [h]);
    FieldLinesOne(g);
    FieldLinesOne(h);
  }

  lemma {:induction false} FieldLinesAppend(a: seq<Header>, b: seq<Header>)
    ensures FieldLines(a + b) == FieldLines(a) + FieldLines(b)
  {
    if a == [] {
      assert a + b == b;
    } else {
      hide FieldLine;
      assert (a + b)[1..] == a[1..] + b;
      FieldLinesAppend(a[1..], b);
      Assoc(CRLF, FieldLines(a[1..]), FieldLines(b));
      Assoc(FieldLine(a[0]), CRLF + FieldLines(a[1..]), FieldLines(b));
    }
  }
}

/**
 Forwarding chains. Any number of listeners may be each other's targets, and the network may route a
 request to any of them; the Via entries make every chain end.
 */
module ViaLoop {
  import opened Basics
  import opened HttpText
  import opened HttpFraming
  import opened HttpHead
  import opened FieldParser
  import opened HttpForward

  /** A listener, by its Via identifier, with the request it received and the route it found. */
  datatype Hop = Hop(listener: Text, request: HttpRequest, route: Route)

  function Out(hop: Hop): HttpRequest {
    Forwarded(hop.request, hop.route, hop.listener)
  }

  /** The listener did not find itself in Via, so the request was not answered with 508. */
  predicate Forwards(hop: Hop) {
    !HasProxyVia(hop.request.headers, hop.listener)
  }

  const LOWER_VIA := Ascii("via")

  /**
   What may happen to a request between two listeners: its headers may change in any way, as long as
   no Via entry disappears and Via is not nominated for removal by the next hop.
   */
  ghost predicate KeepsVia(sent: seq<Header>, received: seq<Header>) {
    && (forall id: Text :: HasProxyVia(sent, id) ==> HasProxyVia(received, id))
    && LOWER_VIA !in ConnectionNames(received)
  }

  ghost predicate Chain(hops: seq<Hop>) {
    && (forall i :: 0 <= i < |hops| ==> Token(hops[i].listener) && Forwards(hops[i])
                                        && hops[i].request.version in {HTTP_1_1, HTTP_1_0})
    && (forall i :: 0 < i < |hops| ==> KeepsVia(Out(hops[i - 1]).headers, hops[i].request.headers))
  }

  /** The own entry is found by the listener's own check. */
  lemma OwnViaIsFound(version: Text, via: Text)
    requires version in {HTTP_1_1, HTTP_1_0} && Token(via)
    ensures HasProxyVia([Header(VIA, ViaValue(version, via))], via)
  {
    OwnViaItem(version, via);
    VersionTokens();
    TwoWords(version, via);
    hide Items, Words, Token, VIA, HTTP_1_1, HTTP_1_0;
    assert ViaValue(version, via) in Items([Header(VIA, ViaValue(version, via))], VIA);
  }

  lemma OwnViaItem(version: Text, via: Text)
    requires version in {HTTP_1_1, HTTP_1_0} && Token(via)
    ensures Items([Header(VIA, ViaValue(version, via))], VIA) == [ViaValue(version, via)]
  {
    var value := ViaValue(version, via);
    VersionTokens();
    assert COMMA !in value;
    hide ViaValue, Token, VIA, HTTP_1_1, HTTP_1_0;
    OneItem(VIA, value);
  }

  lemma LowerVia()
    ensures LowerAll(VIA) == LOWER_VIA
  {
  }

  /**
   The Via entries that leave a listener: none of the received ones if Connection nominates Via, else
   all of them, and then its own.
   */
  lemma ForwardedVia(hop: Hop)
    requires Token(hop.listener) && hop.request.version in {HTTP_1_1, HTTP_1_0}
    ensures Items(Out(hop).headers, VIA) ==
      (if LOWER_VIA in ConnectionNames(hop.request.headers) then [] else Items(hop.request.headers, VIA))
      + [ViaValue(hop.request.version, hop.listener)]
  {
    var headers, names := hop.request.headers, ConnectionNames(hop.request.headers);
    ViaIsNotDropped();
    LowerVia();
    ConnectionNominates(headers, VIA);
    KeptItems(headers, names, VIA);
    OwnViaItem(hop.request.version, hop.listener);
    OwnItems(hop.route.host, ViaValue(hop.request.version, hop.listener));
    hide ConnectionNames, Kept, Items, ViaValue, Token, AlwaysDropped, Nominated, LowerAll;
    hide HOST, VIA, LOWER_VIA, HTTP_1_1, HTTP_1_0;
    var own := [Header(HOST, hop.route.host), Header(VIA, ViaValue(hop.request.version, hop.listener))];
    ItemsAppend(Kept(headers, names), own, VIA);
  }

  /** The two headers a listener adds record what its Via says. */
  lemma OwnItems(host: Text, value: Text)
    ensures Items([Header(HOST, host), Header(VIA, value)], VIA) == Items([Header(VIA, value)], VIA)
  {
    OwnNames();
    hide Split, AlwaysDropped, EqIgnoreCase, Items, HOST, VIA, CONNECTION, DROPPED;
    NoItems([Header(HOST, host)], VIA);
    ItemsAppend([Header(HOST, host)], [Header(VIA, value)], VIA);
    assert [Header(HOST, host)] + [Header(VIA, value)] == [Header(HOST, host), Header(VIA, value)];
  }

  predicate Names(item: Text, id: Text) {
    var words := Words(item);
    |words| > 1 && words[1] == id
  }

  /**
   What a listener records, exactly: its own identifier, and every recorded one unless Connection of
   the received request nominates Via.
   */
  lemma ForwardingRecords(hop: Hop, id: Text)
    requires Token(hop.listener) && hop.request.version in {HTTP_1_1, HTTP_1_0}
    ensures HasProxyVia(Out(hop).headers, id) <==>
      || id == hop.listener
      || (HasProxyVia(hop.request.headers, id) && LOWER_VIA !in ConnectionNames(hop.request.headers))
  {
    var value := ViaValue(hop.request.version, hop.listener);
    ForwardedVia(hop);
    VersionTokens();
    TwoWords(hop.request.version, hop.listener);
    assert Names(value, id) <==> id == hop.listener;
    hide ViaValue, Words, Names, Token, Items, Out, ConnectionNames, VIA, LOWER_VIA, HTTP_1_1, HTTP_1_0;
    RecordedItem(Out(hop).headers, id);
    RecordedItem(hop.request.headers, id);
  }

  lemma RecordedItem(headers: seq<Header>, id: Text)
    ensures HasProxyVia(headers, id) <==> exists item :: item in Items(headers, VIA) && Names(item, id)
  {
    hide Items, Words, VIA;
    if HasProxyVia(headers, id) {
      var hop :| hop in Items(headers, VIA) && |Words(hop)| > 1 && Words(hop)[1] == id;
      assert Names(hop, id);
    }
  }

  /** Every listener of a chain is recorded in what any later one sends. */
  lemma {:induction false} RecordedFromThenOn(hops: seq<Hop>, s: nat, t: nat)
    requires Chain(hops) && s <= t < |hops|
    ensures HasProxyVia(Out(hops[t]).headers, hops[s].listener)
    decreases t
  {
    hide HasProxyVia, Out, ConnectionNames, Token, LOWER_VIA, HTTP_1_1, HTTP_1_0;
    if s < t {
      RecordedFromThenOn(hops, s, t - 1);
      assert KeepsVia(Out(hops[t - 1]).headers, hops[t].request.headers);
    }
    ForwardingRecords(hops[t], hops[s].listener);
  }

  /** No listener forwards twice in one chain. */
  lemma ListenersAreDistinct(hops: seq<Hop>, s: nat, t: nat)
    requires Chain(hops) && s < t < |hops|
    ensures hops[s].listener != hops[t].listener
  {
    hide HasProxyVia, Out, ConnectionNames, Token, LOWER_VIA, HTTP_1_1, HTTP_1_0;
    RecordedFromThenOn(hops, s, t - 1);
    assert KeepsVia(Out(hops[t - 1]).headers, hops[t].request.headers);
  }

  lemma {:induction false} DistinctInSet<T>(s: seq<T>, all: set<T>)
    requires forall i :: 0 <= i < |s| ==> s[i] in all
    requires forall i, j :: 0 <= i < j < |s| ==> s[i] != s[j]
    ensures |s| <= |all|
  {
    if s != [] {
      var last := s[|s| - 1];
      DistinctInSet(s[..|s| - 1], all - {last});
    }
  }

  /**
   Termination: among N listeners, however requests are routed, a chain makes at most N forwards
   before it leaves them or is answered with 508.
   */
  lemma ChainsEnd(hops: seq<Hop>, listeners: set<Text>)
    requires Chain(hops) && forall i :: 0 <= i < |hops| ==> hops[i].listener in listeners
    ensures |hops| <= |listeners|
  {
    var ids := seq(|hops|, i requires 0 <= i < |hops| => hops[i].listener);
    forall i, j | 0 <= i < j < |ids| ensures ids[i] != ids[j] {
      ListenersAreDistinct(hops, i, j);
    }
    DistinctInSet(ids, listeners);
  }

  /** The measure behind it: the identifiers of the listeners that Via does not record yet. */
  ghost function Unrecorded(headers: seq<Header>, listeners: set<Text>): set<Text> {
    set id | id in listeners && !HasProxyVia(headers, id)
  }

  lemma MeasureDecreases(hops: seq<Hop>, t: nat, listeners: set<Text>)
    requires Chain(hops) && 0 < t < |hops| && hops[t].listener in listeners
    ensures Unrecorded(Out(hops[t]).headers, listeners) < Unrecorded(Out(hops[t - 1]).headers, listeners)
  {
    hide HasProxyVia, Out, ConnectionNames, Token, LOWER_VIA, HTTP_1_1, HTTP_1_0;
    assert KeepsVia(Out(hops[t - 1]).headers, hops[t].request.headers);
    var before, after := Unrecorded(Out(hops[t - 1]).headers, listeners), Unrecorded(Out(hops[t]).headers, listeners);
    forall id | id in after ensures id in before {
      if HasProxyVia(Out(hops[t - 1]).headers, id) {
        ForwardingRecords(hops[t], id);
      }
    }
    ForwardingRecords(hops[t], hops[t].listener);
    assert hops[t].listener in before && hops[t].listener !in after;
  }

  // ----- listeners that are connected directly

  lemma NoConnectionNames(headers: seq<Header>)
    requires forall i :: 0 <= i < |headers| ==> !EqIgnoreCase(headers[i].name, CONNECTION)
    ensures ConnectionNames(headers) == []
  {
    NoItems(headers, CONNECTION);
  }

  /**
   A listener that reads what another listener wrote, followed by any bytes, receives the forwarded
   request itself, so a direct connection keeps Via: `Connection` never leaves a listener.
   */
  lemma DirectLinkKeepsVia(hop: Hop, body: seq<byte>)
    requires SoundRequest(hop.request) && Framing(hop.request.headers).Ok?
    requires SoundRoute(hop.route) && Token(hop.listener)
    requires ParseHead(HeadBytes(Out(hop)) + body).Complete?
    ensures Accept(ParseHead(HeadBytes(Out(hop)) + body).head) == Ok(Out(hop))
    ensures KeepsVia(Out(hop).headers, Out(hop).headers)
  {
    ForwardedParsesBack(hop.request, hop.route, hop.listener, body);
    ForwardedHeaders(hop.request, hop.route, hop.listener);
    NoConnectionNames(Out(hop).headers);
  }

  /** `b` received what `a` wrote, followed by any bytes. */
  ghost predicate Receives(a: Hop, body: seq<byte>, b: Hop) {
    var status := ParseHead(HeadBytes(Out(a)) + body);
    status.Complete? && Accept(status.head) == Ok(b.request)
  }

  lemma ReceivedIsSound(a: Hop, body: seq<byte>, b: Hop)
    requires Receives(a, body, b)
    ensures SoundRequest(b.request) && Framing(b.request.headers).Ok?
  {
    AcceptedIsSound(HeadBytes(Out(a)) + body);
    hide ParseHead, HeadBytes, Out, SoundRequest, Framing, Headers;
  }

  lemma ReceivedKeepsVia(a: Hop, body: seq<byte>, b: Hop)
    requires SoundRequest(a.request) && Framing(a.request.headers).Ok? && SoundRoute(a.route) && Token(a.listener)
    requires Receives(a, body, b)
    ensures KeepsVia(Out(a).headers, b.request.headers)
  {
    DirectLinkKeepsVia(a, body);
    hide ParseHead, HeadBytes, Out, KeepsVia;
  }

  /**
   Termination on the wire: when each listener reads the very bytes that the previous one wrote, with
   any body behind them, no more than N of N listeners forward before one answers with 508.
   */
  lemma DirectChainsEnd(hops: seq<Hop>, bodies: seq<seq<byte>>, listeners: set<Text>)
    requires |bodies| == |hops|
    requires hops != [] ==> SoundRequest(hops[0].request) && Framing(hops[0].request.headers).Ok?
    requires forall i :: 0 <= i < |hops| ==>
      hops[i].listener in listeners && Token(hops[i].listener) && SoundRoute(hops[i].route) && Forwards(hops[i])
    requires forall i :: 0 < i < |hops| ==> Receives(hops[i - 1], bodies[i], hops[i])
    ensures |hops| <= |listeners|
  {
    hide SoundRoute, Token, Forwards, Receives, KeepsVia, Out, Framing;
    forall i | 0 <= i < |hops| ensures SoundRequest(hops[i].request) && Framing(hops[i].request.headers).Ok? {
      if i > 0 {
        ReceivedIsSound(hops[i - 1], bodies[i], hops[i]);
      }
    }
    forall i | 0 < i < |hops| ensures KeepsVia(Out(hops[i - 1]).headers, hops[i].request.headers) {
      ReceivedKeepsVia(hops[i - 1], bodies[i], hops[i]);
    }
    ChainsEnd(hops, listeners);
  }

  // ----- requests that nominate Via

  /** The listener drops the Via entries it received. */
  predicate NominatesVia(hop: Hop) {
    LOWER_VIA in ConnectionNames(hop.request.headers)
  }

  /** Hops over links that change Connection at will and lose no recorded identifier. */
  ghost predicate Linked(hops: seq<Hop>) {
    && (forall i :: 0 <= i < |hops| ==> Token(hops[i].listener) && hops[i].request.version in {HTTP_1_1, HTTP_1_0})
    && (forall i, id: Text :: 0 < i < |hops| && HasProxyVia(Out(hops[i - 1]).headers, id) ==>
         HasProxyVia(hops[i].request.headers, id))
  }

  /** The links do not invent one either. */
  ghost predicate Faithful(hops: seq<Hop>) {
    && Linked(hops)
    && forall i, id: Text :: 0 < i < |hops| && HasProxyVia(hops[i].request.headers, id) ==>
         HasProxyVia(Out(hops[i - 1]).headers, id)
  }

  /** `id` forwarded the request at hop `s` or recorded before the first one, and no later hop was told to drop Via. */
  ghost predicate Remembered(hops: seq<Hop>, t: nat, id: Text)
    requires t < |hops|
  {
    || (exists s: nat :: s <= t && hops[s].listener == id && forall k :: s < k <= t ==> !NominatesVia(hops[k]))
    || (HasProxyVia(hops[0].request.headers, id) && forall k :: 0 <= k <= t ==> !NominatesVia(hops[k]))
  }

  /** What a chain remembers at every hop, exactly. */
  lemma {:induction false} RecordsExactly(hops: seq<Hop>, t: nat, id: Text)
    requires Faithful(hops) && t < |hops|
    ensures HasProxyVia(Out(hops[t]).headers, id) <==> Remembered(hops, t, id)
    decreases t
  {
    hide *;
    RecordsNext(hops, t, id);
    RememberedAt(hops, t, id);
    if t > 0 {
      RecordsExactly(hops, t - 1, id);
    }
  }

  lemma RecordsNext(hops: seq<Hop>, t: nat, id: Text)
    requires Faithful(hops) && t < |hops|
    ensures HasProxyVia(Out(hops[t]).headers, id) <==>
      || id == hops[t].listener
      || (!NominatesVia(hops[t])
          && HasProxyVia(if t == 0 then hops[0].request.headers else Out(hops[t - 1]).headers, id))
  {
    hide HasProxyVia, Out, ConnectionNames, Token, LOWER_VIA, HTTP_1_1, HTTP_1_0;
    ForwardingRecords(hops[t], id);
  }

  lemma RememberedAt(hops: seq<Hop>, t: nat, id: Text)
    requires t < |hops|
    ensures Remembered(hops, t, id) <==>
      || id == hops[t].listener
      || (!NominatesVia(hops[t])
          && if t == 0 then HasProxyVia(hops[0].request.headers, id) else Remembered(hops, t - 1, id))
  {
    hide HasProxyVia, NominatesVia;
  }

  /** Exactly when a request that comes back is forwarded again instead of answered with 508. */
  lemma ForwardsAgainExactly(hops: seq<Hop>, t: nat)
    requires Faithful(hops) && 0 < t < |hops|
    ensures Forwards(hops[t]) <==> !Remembered(hops, t - 1, hops[t].listener)
  {
    hide HasProxyVia, Out, Remembered, Token, HTTP_1_1, HTTP_1_0;
    RecordsExactly(hops, t - 1, hops[t].listener);
  }

  /** How many hops behind the first were told to drop Via. */
  function Nominations(hops: seq<Hop>): nat {
    if |hops| <= 1 then 0
    else Nominations(hops[..|hops| - 1]) + if NominatesVia(hops[|hops| - 1]) then 1 else 0
  }

  ghost predicate AllForward(hops: seq<Hop>) {
    forall i :: 0 <= i < |hops| ==> Forwards(hops[i])
  }

  lemma {:induction false} SegmentsAreBounded(hops: seq<Hop>, tail: seq<Hop>, listeners: set<Text>)
    requires hops != [] && Linked(hops + tail) && AllForward(hops + tail)
    requires forall i :: 0 <= i < |tail| ==> !NominatesVia(tail[i])
    requires forall hop :: hop in hops + tail ==> hop.listener in listeners
    ensures |hops| + |tail| <= |listeners| * (1 + Nominations(hops))
    decreases |hops|
  {
    hide Linked, AllForward, NominatesVia;
    var n := |hops| - 1;
    var earlier, segment := hops[..n], [hops[n]] + tail;
    assert hops + tail == earlier + segment && hops == earlier + [hops[n]];
    assert forall hop :: hop in hops + tail <==> hop in earlier + segment;
    if n > 0 && !NominatesVia(hops[n]) {
      SegmentsAreBounded(earlier, segment, listeners);
    } else {
      SegmentIsBounded(earlier, segment, listeners);
      if n > 0 {
        assert earlier + [] == earlier;
        LinkedFront(earlier, segment);
        SegmentsAreBounded(earlier, [], listeners);
        OneMore(|listeners|, Nominations(earlier));
      }
    }
  }

  lemma OneMore(n: nat, k: nat)
    ensures n * (1 + (k + 1)) == n * (1 + k) + n
  {
  }

  lemma LinkedFront(a: seq<Hop>, b: seq<Hop>)
    requires Linked(a + b) && AllForward(a + b)
    ensures Linked(a) && AllForward(a)
  {
    hide Forwards, Out, HasProxyVia, Token, HTTP_1_1, HTTP_1_0;
    assert forall i :: 0 <= i < |a| ==> (a + b)[i] == a[i];
  }

  /** Hops behind which nothing is dropped form a chain. */
  lemma SegmentIsBounded(earlier: seq<Hop>, segment: seq<Hop>, listeners: set<Text>)
    requires Linked(earlier + segment) && AllForward(earlier + segment)
    requires forall i :: 0 < i < |segment| ==> !NominatesVia(segment[i])
    requires forall hop :: hop in earlier + segment ==> hop.listener in listeners
    ensures |segment| <= |listeners|
  {
    hide Forwards, Out, HasProxyVia, Token, HTTP_1_1, HTTP_1_0, ConnectionNames, LOWER_VIA;
    var all, n := earlier + segment, |earlier|;
    assert forall i :: 0 <= i < |segment| ==> all[n + i] == segment[i] && segment[i] in all;
    forall i | 0 < i < |segment| ensures KeepsVia(Out(segment[i - 1]).headers, segment[i].request.headers) {
      assert all[n + i - 1] == segment[i - 1] && all[n + i] == segment[i];
      assert !NominatesVia(segment[i]);
    }
    ChainsEnd(segment, listeners);
  }

  /**
   What nominating Via costs: among N listeners and over links that lose no Via entry, a request whose
   Connection nominates Via at k of the later hops is forwarded at most N * (1 + k) times.
   */
  lemma NominationsBoundChains(hops: seq<Hop>, listeners: set<Text>)
    requires Linked(hops) && AllForward(hops)
    requires forall hop :: hop in hops ==> hop.listener in listeners
    ensures |hops| <= |listeners| * (1 + Nominations(hops))
  {
    hide Linked, AllForward, Nominations;
    if hops != [] {
      assert hops + [] == hops;
      SegmentsAreBounded(hops, [], listeners);
    }
  }

  // ----- the requirement on links is needed

  const GET := Ascii("GET")
  const NOMINATES_VIA := Header(CONNECTION, LOWER_VIA)

  /** What a listener receives over a link that adds `Connection: via` to what the other listener sent. */
  function ForgetfulHop(mine: Text, other: Text, route: Route): Hop {
    Hop(mine,
        HttpRequest(GET, route.path, HTTP_1_1,
                    [Header(HOST, route.host), Header(VIA, ViaValue(HTTP_1_1, other)), NOMINATES_VIA]),
        route)
  }

  lemma LowerViaFacts()
    ensures LOWER_VIA != [] && Split(LOWER_VIA, COMMA) == [LOWER_VIA] && Trim(LOWER_VIA) == LOWER_VIA
    ensures LowerAll(LOWER_VIA) == LOWER_VIA && EqIgnoreCase(LOWER_VIA, VIA)
  {
    assert LOWER_VIA == [118, 105, 97] && VIA == [86, 105, 97];
    hide Split, Trim, Trimmed, Ascii, VIA, LOWER_VIA;
    SplitWhole(LOWER_VIA, COMMA);
    PrintableIsTrimmed(LOWER_VIA);
    assert LowerAll(LOWER_VIA) == LOWER_VIA;
  }

  lemma ForgetfulNames(host: Text, value: Text)
    ensures ConnectionNames([Header(HOST, host), Header(VIA, value), NOMINATES_VIA]) == [LOWER_VIA]
  {
    OwnNames();
    LowerViaFacts();
    SameNameReflexive(CONNECTION);
    hide Split, LowerAll, EqIgnoreCase, Trim, AlwaysDropped, HOST, VIA, CONNECTION, LOWER_VIA, DROPPED;
    var a, b := [Header(HOST, host), Header(VIA, value)], [NOMINATES_VIA];
    NoItems(a, CONNECTION);
    ItemsAppend(a, b, CONNECTION);
    assert a + b == [Header(HOST, host), Header(VIA, value), NOMINATES_VIA];
    assert b[1..] == [];
    assert Items(b, CONNECTION) == [LOWER_VIA] + [];
    assert Items(a + b, CONNECTION) == [LOWER_VIA];
    assert [LOWER_VIA][1..] == [] && OptionNames([LOWER_VIA]) == [LOWER_VIA] + [];
  }

  /** Such a request is forwarded with nothing left of the other listener's entry. */
  lemma ForgetfulOut(mine: Text, other: Text, route: Route)
    ensures Out(ForgetfulHop(mine, other, route)).headers
         == [Header(HOST, route.host), Header(VIA, ViaValue(HTTP_1_1, mine))]
  {
    var headers := ForgetfulHop(mine, other, route).request.headers;
    ForgetfulNames(route.host, ViaValue(HTTP_1_1, other));
    ForgetfulDrops();
    hide ShouldDrop, EqIgnoreCase, ConnectionNames, ViaValue, HOST, VIA, CONNECTION, LOWER_VIA, DROPPED;
    assert headers == [headers[0]] + ([headers[1]] + [headers[2]]);
    KeptAppend([headers[0]], [headers[1]] + [headers[2]], [LOWER_VIA]);
    KeptAppend([headers[1]], [headers[2]], [LOWER_VIA]);
    KeptOne(headers[0], [LOWER_VIA]);
    KeptOne(headers[1], [LOWER_VIA]);
    KeptOne(headers[2], [LOWER_VIA]);
    assert Kept(headers, [LOWER_VIA]) == [];
  }

  lemma ForgetfulDrops()
    ensures ShouldDrop(HOST, [LOWER_VIA]) && ShouldDrop(CONNECTION, [LOWER_VIA]) && ShouldDrop(VIA, [LOWER_VIA])
  {
    OwnNames();
    LowerViaFacts();
    assert |DROPPED| == 8;
    hide EqIgnoreCase, HOST, VIA, CONNECTION, LOWER_VIA, DROPPED;
    assert DROPPED[2] in DROPPED && DROPPED[3] in DROPPED;
    assert LOWER_VIA in [LOWER_VIA];
  }

  lemma OtherIsNotFound(mine: Text, other: Text, route: Route)
    requires Token(mine) && Token(other) && mine != other
    ensures Forwards(ForgetfulHop(mine, other, route))
  {
    var value := ViaValue(HTTP_1_1, other);
    var a, b, c := [Header(HOST, route.host)], [Header(VIA, value)], [NOMINATES_VIA];
    OwnNames();
    VersionTokens();
    assert COMMA !in value;
    SplitWhole(value, COMMA);
    TwoWords(HTTP_1_1, other);
    hide Split, Words, Token, ViaValue, AlwaysDropped, EqIgnoreCase;
    hide HOST, VIA, CONNECTION, LOWER_VIA, DROPPED, HTTP_1_1;
    assert !EqIgnoreCase(CONNECTION, VIA) by {
      if EqIgnoreCase(CONNECTION, VIA) { SameNameSymmetric(CONNECTION, VIA); }
    }
    SameNameReflexive(VIA);
    NoItems(a, VIA);
    NoItems(c, VIA);
    assert b[1..] == [] && Items(b, VIA) == [value] + [];
    ItemsAppend(a, b, VIA);
    ItemsAppend(a + b, c, VIA);
    assert a + b + c == ForgetfulHop(mine, other, route).request.headers;
  }

  function Turn(a: Text, b: Text, route: Route, i: nat): Hop {
    if i % 2 == 0 then ForgetfulHop(a, b, route) else ForgetfulHop(b, a, route)
  }

  /** A link that adds one Connection header, and loses no Via entry. */
  ghost predicate ForgetfulLink(sent: seq<Header>, received: seq<Header>) {
    && received == sent + [NOMINATES_VIA]
    && forall id: Text :: HasProxyVia(sent, id) <==> HasProxyVia(received, id)
  }

  lemma ForgetfulStep(mine: Text, other: Text, route: Route)
    ensures ForgetfulLink(Out(ForgetfulHop(mine, other, route)).headers,
                          ForgetfulHop(other, mine, route).request.headers)
  {
    ForgetfulOut(mine, other, route);
    var sent := Out(ForgetfulHop(mine, other, route)).headers;
    assert ForgetfulHop(other, mine, route).request.headers == sent + [NOMINATES_VIA];
    OwnNames();
    assert !EqIgnoreCase(CONNECTION, VIA) by {
      if EqIgnoreCase(CONNECTION, VIA) { SameNameSymmetric(CONNECTION, VIA); }
    }
    hide Out, EqIgnoreCase, AlwaysDropped, HOST, VIA, CONNECTION, LOWER_VIA, DROPPED, ViaValue, HTTP_1_1, GET;
    NoItems([NOMINATES_VIA], VIA);
    ItemsAppend(sent, [NOMINATES_VIA], VIA);
    SameRecords(sent, sent + [NOMINATES_VIA]);
  }

  lemma SameRecords(a: seq<Header>, b: seq<Header>)
    requires Items(a, VIA) == Items(b, VIA)
    ensures forall id: Text :: HasProxyVia(a, id) <==> HasProxyVia(b, id)
  {
    hide Items, Words, VIA;
  }

  /**
   Such a request is passed back and forth forever: no link loses a Via entry, neither listener ever
   finds itself, and the chain between the two has any length.
   */
  lemma ForgetfulLinksLoop(a: Text, b: Text, route: Route, n: nat)
    requires Token(a) && Token(b) && a != b
    ensures var hops := seq(n, i requires 0 <= i < n => Turn(a, b, route, i));
      && |hops| == n && Faithful(hops) && AllForward(hops)
      && (forall i :: 0 <= i < n ==> hops[i].listener in {a, b})
      && (forall i :: 0 < i < n ==> ForgetfulLink(Out(hops[i - 1]).headers, hops[i].request.headers))
  {
    hide Forwards, Out, HasProxyVia, ForgetfulHop, ForgetfulLink, Faithful, Token, HTTP_1_1, HTTP_1_0;
    ForgetfulHopFacts(a, b, route);
    ForgetfulHopFacts(b, a, route);
    FaithfulByForgetful(seq(n, i requires 0 <= i < n => Turn(a, b, route, i)));
  }

  lemma FaithfulByForgetful(hops: seq<Hop>)
    requires forall i :: 0 <= i < |hops| ==> Token(hops[i].listener) && hops[i].request.version == HTTP_1_1
    requires forall i :: 0 < i < |hops| ==> ForgetfulLink(Out(hops[i - 1]).headers, hops[i].request.headers)
    ensures Faithful(hops)
  {
    hide Out, HasProxyVia, Token, NOMINATES_VIA, HTTP_1_1, HTTP_1_0;
  }

  lemma ForgetfulHopFacts(mine: Text, other: Text, route: Route)
    requires Token(mine) && Token(other) && mine != other
    ensures var hop := ForgetfulHop(mine, other, route);
      && hop.listener == mine && hop.request.version == HTTP_1_1 && Forwards(hop)
      && ForgetfulLink(Out(hop).headers, ForgetfulHop(other, mine, route).request.headers)
  {
    OtherIsNotFound(mine, other, route);
    ForgetfulStep(mine, other, route);
  }
}

/** The order in which the proxy decides what to do with a request. */
module HttpProxy {
  import opened Basics
  import opened Config
  import opened HttpText
  import opened HttpHead
  import opened FieldParser
  import opened HttpForward
  import opened BasicAuth
  import opened ViaLoop

  datatype Decision = LoopDetected | StatsChallenge | StatsPage | ProxyChallenge | Tunnel | Forward

  const PROXY_AUTHORIZATION := Ascii("proxy-authorization")
  const AUTHORIZATION := Ascii("authorization")
  const CONNECT := Ascii("CONNECT")
  const STATS_PATH := Ascii("/stats")
  const QUESTION: byte := 63

  /** The first header with this name. */
  function GetHeader(headers: seq<Header>, name: Text): Option<Text> {
    if headers == [] then None
    else if EqIgnoreCase(headers[0].name, name) then Some(headers[0].value)
    else GetHeader(headers[1..], name)
  }

  predicate HasPrefixIgnoreCase(t: Text, prefix: Text) {
    |t| >= |prefix| && EqIgnoreCase(t[..|prefix|], prefix)
  }

  predicate IsAbsoluteHttpTarget(target: Text) {
    HasPrefixIgnoreCase(target, Ascii("http://")) || HasPrefixIgnoreCase(target, Ascii("https://"))
  }

  /** `hostPort` answers for the authority parser: the port of a Host value, 80 by default. */
  predicate IsStatsRequest(r: HttpRequest, listenerPort: u16, hostPort: Text -> Option<u16>) {
    && EqIgnoreCase(r.method_, GET)
    && !IsAbsoluteHttpTarget(r.target)
    && Split(r.target, QUESTION)[0] == STATS_PATH
    && GetHeader(r.headers, HOST).Some?
    && hostPort(Trim(GetHeader(r.headers, HOST).value)) == Some(listenerPort)
  }

  /** How one listener is set up. */
  datatype Listener =
    Listener(via: Text, port: u16, statsEnabled: bool, auth: AuthConfig, hostPort: Text -> Option<u16>)

  /** The decision, and the authentication failures it counts. */
  function Decide(r: HttpRequest, l: Listener, bypass: bool): (Decision, nat) {
    if HasProxyVia(r.headers, l.via) then (LoopDetected, 0)
    else if l.statsEnabled && IsStatsRequest(r, l.port, l.hostPort) then
      if !bypass
         && !HttpBasicAuthorized(GetHeader(r.headers, AUTHORIZATION), l.auth)
         && !HttpBasicAuthorized(GetHeader(r.headers, PROXY_AUTHORIZATION), l.auth)
      then (StatsChallenge, 1) else (StatsPage, 0)
    else if !bypass && !HttpBasicAuthorized(GetHeader(r.headers, PROXY_AUTHORIZATION), l.auth) then (ProxyChallenge, 1)
    else if EqIgnoreCase(r.method_, CONNECT) then (Tunnel, 0)
    else (Forward, 0)
  }

  // ----- what the tests look at, in the terms of the request

  /** Header `i` is the first one with this name, in any case. */
  ghost predicate FirstHeader(headers: seq<Header>, name: string, i: int) {
    0 <= i < |headers| && Spelled(headers[i].name, name) && forall j :: 0 <= j < i ==> !Spelled(headers[j].name, name)
  }

  lemma {:induction false} GetHeaderExactly(headers: seq<Header>, name: string) returns (i: nat)
    requires AsciiWord(name)
    ensures GetHeader(headers, Ascii(name)).None? <==> forall h :: h in headers ==> !Spelled(h.name, name)
    ensures GetHeader(headers, Ascii(name)).Some? ==>
      FirstHeader(headers, name, i) && headers[i].value == GetHeader(headers, Ascii(name)).value
  {
    i := 0;
    if headers != [] {
      SpelledExactly(headers[0].name, name);
      hide EqIgnoreCase, Spelled, Ascii;
      var k := GetHeaderExactly(headers[1..], name);
      assert forall h :: h in headers <==> h == headers[0] || h in headers[1..];
      if !Spelled(headers[0].name, name) {
        i := k + 1;
      }
    }
  }

  lemma FirstHeaderIsOne(headers: seq<Header>, name: string, i: int, j: int)
    requires FirstHeader(headers, name, i) && FirstHeader(headers, name, j)
    ensures i == j
  {
    hide Spelled;
  }

  /** The value of the first header with this name. */
  lemma GetHeaderIs(headers: seq<Header>, name: string)
    requires AsciiWord(name)
    ensures forall i :: FirstHeader(headers, name, i) ==> GetHeader(headers, Ascii(name)) == Some(headers[i].value)
    ensures GetHeader(headers, Ascii(name)).Some? <==> exists i :: FirstHeader(headers, name, i)
  {
    var k := GetHeaderExactly(headers, name);
    hide GetHeader, Ascii, Spelled;
    forall i | FirstHeader(headers, name, i) ensures GetHeader(headers, Ascii(name)) == Some(headers[i].value) {
      assert headers[i] in headers;
      FirstHeaderIsOne(headers, name, i, k);
    }
  }

  /** The first header of this name spells out the configured credentials. */
  ghost predicate Presents(headers: seq<Header>, name: string, auth: AuthConfig) {
    && auth.username.Some? && auth.password.Some? && COLON !in auth.username.value
    && exists i, scheme, blanks ::
         && FirstHeader(headers, name, i)
         && Spells(headers[i].value, scheme, blanks, auth.username.value, auth.password.value)
  }

  lemma AuthorizedExactly(headers: seq<Header>, name: string, auth: AuthConfig)
    requires AsciiWord(name)
    ensures HttpBasicAuthorized(GetHeader(headers, Ascii(name)), auth) <==> Presents(headers, name, auth)
  {
    GetHeaderIs(headers, name);
    hide Spells, GetHeader, FirstHeader, Ascii;
    if GetHeader(headers, Ascii(name)).Some? {
      BasicExact(GetHeader(headers, Ascii(name)).value, auth);
      hide HttpBasicAuthorized;
    }
  }

  /** `GET` for `/stats`, with any query, and a first Host header whose port is the listener's. */
  ghost predicate AsksForStats(r: HttpRequest, listenerPort: u16, hostPort: Text -> Option<u16>) {
    && Spelled(r.method_, "GET")
    && (r.target == [47, 115, 116, 97, 116, 115] || [47, 115, 116, 97, 116, 115, 63] <= r.target)
    && exists i :: FirstHeader(r.headers, "Host", i) && hostPort(Trim(r.headers[i].value)) == Some(listenerPort)
  }

  /** Absolute targets need no test of their own: they do not start with a slash. */
  lemma StatsRequestExactly(r: HttpRequest, listenerPort: u16, hostPort: Text -> Option<u16>)
    ensures IsStatsRequest(r, listenerPort, hostPort) <==> AsksForStats(r, listenerPort, hostPort)
  {
    SpelledExactly(r.method_, "GET");
    StatsPathExactly(r.target);
    GetHeaderIs(r.headers, "Host");
    hide Split, GetHeader, FirstHeader, Spelled, EqIgnoreCase, Trim, IsAbsoluteHttpTarget, STATS_PATH, HOST, GET;
    assert HOST == Ascii("Host") && GET == Ascii("GET") by {
      HostAndGet();
    }
  }

  lemma HostAndGet()
    ensures HOST == Ascii("Host") && GET == Ascii("GET")
  {
    hide Ascii;
  }

  lemma StatsPathExactly(target: Text)
    ensures Split(target, QUESTION)[0] == STATS_PATH <==>
      target == [47, 115, 116, 97, 116, 115] || [47, 115, 116, 97, 116, 115, 63] <= target
    ensures Split(target, QUESTION)[0] == STATS_PATH ==> !IsAbsoluteHttpTarget(target)
  {
    var path: Text := [47, 115, 116, 97, 116, 115];
    assert STATS_PATH == path;
    SplitHead(target, QUESTION, path);
    assert path + [QUESTION] == [47, 115, 116, 97, 116, 115, 63];
    hide Split, STATS_PATH;
    if target != [] && target[0] == 47 {
      SlashIsNotAbsolute(target);
    }
  }

  lemma SlashIsNotAbsolute(target: Text)
    requires target != [] && target[0] == 47
    ensures !IsAbsoluteHttpTarget(target)
  {
    assert Ascii("http://")[0] == 104 && Ascii("https://")[0] == 104;
    hide Ascii;
  }

  /** The request passed this listener before. */
  ghost predicate ReturnsTo(headers: seq<Header>, via: Text) {
    exists item :: HeaderItem(headers, "Via", item) && SecondWord(item, via)
  }

  lemma TestsExactly(r: HttpRequest, l: Listener)
    ensures HasProxyVia(r.headers, l.via) <==> ReturnsTo(r.headers, l.via)
    ensures IsStatsRequest(r, l.port, l.hostPort) <==> AsksForStats(r, l.port, l.hostPort)
    ensures HttpBasicAuthorized(GetHeader(r.headers, AUTHORIZATION), l.auth) <==>
      Presents(r.headers, "authorization", l.auth)
    ensures HttpBasicAuthorized(GetHeader(r.headers, PROXY_AUTHORIZATION), l.auth) <==>
      Presents(r.headers, "proxy-authorization", l.auth)
    ensures EqIgnoreCase(r.method_, CONNECT) <==> Spelled(r.method_, "CONNECT")
  {
    HasProxyViaExactly(r.headers, l.via);
    StatsRequestExactly(r, l.port, l.hostPort);
    AuthorizedExactly(r.headers, "authorization", l.auth);
    AuthorizedExactly(r.headers, "proxy-authorization", l.auth);
    SpelledExactly(r.method_, "CONNECT");
    hide HasProxyVia, IsStatsRequest, AsksForStats, HttpBasicAuthorized, Presents, EqIgnoreCase, Spelled;
    hide GetHeader, Ascii, HeaderItem, SecondWord;
  }

  /**
   Each decision, exactly. A request that returns gets 508 whatever it says. The statistics page is for
   its own request only, and is shown to the allowlist and to either spelling of the credentials. All
   else is relayed for the allowlist or the proxy credentials: tunnelled if the method is CONNECT,
   forwarded if it is another. Every refusal for lack of credentials counts one failure, and nothing
   else does.
   */
  lemma DecideExactly(r: HttpRequest, l: Listener, bypass: bool)
    ensures var (decision, failures) := Decide(r, l, bypass);
            var returns_ := ReturnsTo(r.headers, l.via);
            var stats := l.statsEnabled && AsksForStats(r, l.port, l.hostPort);
            var proxyUser := bypass || Presents(r.headers, "proxy-authorization", l.auth);
            var statsUser := proxyUser || Presents(r.headers, "authorization", l.auth);
      && (decision == LoopDetected <==> returns_)
      && (decision == StatsPage <==> !returns_ && stats && statsUser)
      && (decision == StatsChallenge <==> !returns_ && stats && !statsUser)
      && (decision == ProxyChallenge <==> !returns_ && !stats && !proxyUser)
      && (decision == Tunnel <==> !returns_ && !stats && proxyUser && Spelled(r.method_, "CONNECT"))
      && (decision == Forward <==> !returns_ && !stats && proxyUser && !Spelled(r.method_, "CONNECT"))
      && failures == (if decision in {StatsChallenge, ProxyChallenge} then 1 else 0)
  {
    TestsExactly(r, l);
    hide HttpBasicAuthorized, HasProxyVia, IsStatsRequest, AsksForStats, Presents, ReturnsTo;
    hide EqIgnoreCase, Spelled, GetHeader;
  }

  /**
   A request is relayed exactly when it has not passed this listener before, does not ask for the
   statistics page, and comes from the allowlist or spells out the configured credentials.
   */
  lemma RelayExact(r: HttpRequest, l: Listener, bypass: bool)
    ensures Decide(r, l, bypass).0 in {Tunnel, Forward} <==>
      && !ReturnsTo(r.headers, l.via)
      && !(l.statsEnabled && AsksForStats(r, l.port, l.hostPort))
      && (bypass || Presents(r.headers, "proxy-authorization", l.auth))
  {
    DecideExactly(r, l, bypass);
    hide Decide, AsksForStats, Presents, ReturnsTo, Spelled;
  }

  /** The credentials never leave with a forwarded request. */
  lemma CredentialsStay(r: HttpRequest, route: Route, via: Text)
    ensures forall i :: 0 <= i < |Forwarded(r, route, via).headers| ==>
      !Spelled(Forwarded(r, route, via).headers[i].name, "proxy-authorization")
  {
    ForwardedHeaders(r, route, via);
    assert |HOST| == 4 && |VIA| == 3 && |"proxy-authorization"| == 19;
    hide Forwarded, ListedByConnection, HOST, VIA;
  }

  /** A request that already passed a listener gets 508 from it, whatever its method, target or credentials. */
  lemma ReturningRequestIsRefused(hops: seq<Hop>, t: nat, l: Listener, r: HttpRequest, bypass: bool)
    requires Chain(hops) && t < |hops| && hops[t].listener == l.via
    requires KeepsVia(Out(hops[|hops| - 1]).headers, r.headers)
    ensures Decide(r, l, bypass) == (LoopDetected, 0)
  {
    hide HasProxyVia, Out, Chain, IsStatsRequest, HttpBasicAuthorized, ConnectionNames;
    RecordedFromThenOn(hops, t, |hops| - 1);
  }
}

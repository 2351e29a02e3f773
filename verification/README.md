# A verified model of TinySocks

TinySocks is a proxy that serves SOCKS5 and HTTP on one port. This project models what the proxy
computes once sockets, timers and name resolution are reduced to the answers they give, and proves
properties of whole runs of it:

- **UDP relay.** `Protocol` holds the address and datagram codec, `UdpRelay` the relay loop as a class
  and as a function of the event trace. A run is shown to depend only on the packets of the locked
  client and of the endpoints it named; deliveries are traced back to the packet that named their
  source, and the byte counters are the sums of what was really sent.
- **SOCKS5 session.** `Streams` holds sockets that fragment their bytes and the stream that replays the
  peeked byte, `Socks5` the dialogue. The loops over a fragmented stream compute a function of the
  unfragmented bytes, and a command is reached for exactly the byte strings that the standards describe.
- **HTTP.** `HttpHead` reads a head with any prefix-stable parser, `FieldParser` is such a parser,
  `HttpFraming` validates body framing, `HttpForward` rewrites the head, `ViaLoop` follows a request
  through any network of listeners, `BasicAuth` checks credentials and `HttpProxy` orders the decisions.
  `HttpText` holds the string operations on UTF-8 bytes.
- **Limiter and counters.** `Limiter` interleaves the accept loop and any number of tasks, one atomic
  operation at a time.
- **Statistics page.** `Template` replaces placeholders, `ErrorLog` keeps and escapes recent errors.
- **Service unit.** `Systemd` quotes the ExecStart line and splits it again.

Code that updates variables or fields is a method or a class, proved against a function; the lemmas are
about that function. Adversarial answers (name resolution, failing sends, fragmentation, routing, the
order in which tasks run) are arguments, so the statements hold for all of them.

Where the code does not do what one might expect, the model keeps the code and a lemma gives the exact
condition or a concrete instance:

- The size of a request head is compared after a whole chunk was added. Heads of up to 64513 bytes are
  always read and heads over 65536 bytes never; between the two the chunk that completes the head
  decides (`HttpHead.ReadDecided`, `HttpHead.SlackIsSharp`).
- A recorded identifier survives a forward exactly when Connection of the received request does not
  nominate Via (`ViaLoop.ForwardingRecords`), and a request that comes back is forwarded again exactly
  when such a nomination fell behind the listener's own hop (`ViaLoop.ForwardsAgainExactly`). With k
  nominations N listeners forward at most N * (1 + k) times (`ViaLoop.NominationsBoundChains`); links
  that add `Connection: via` each time defeat loop detection, although no entry is lost on them
  (`ViaLoop.ForgetfulLinksLoop`).
- Connection may also nominate Content-Length or Transfer-Encoding. The request passes the framing
  validator and is forwarded without them, its body still behind it; that is exactly when they are lost
  (`HttpForward.ForwardedFraming`, `HttpForward.NominatedLengthIsLost`).
- A snapshot of the counters can show more SOCKS5 connections than connections, by any number
  (`Limiter.SnapshotCanTear`). Its total covers its protocol counts exactly when what is dispatched
  between the loads fits into the connections counted before and not yet dispatched
  (`Limiter.SnapshotCoversExactly`), so always if none is counted in between (`Limiter.TearIsBounded`).
- Replacing placeholders one after the other is one-pass substitution when no placeholder starts behind
  a pending opening brace (`Template.RenderIsOnePass`); a placeholder nested in another one breaks it
  (`Template.NestedPlaceholdersDiffer`). In `assets/stats.html` every opening brace outside a
  placeholder ends its line, and the last brace before each placeholder, if any, is a closing one: for
  all such pages the rendered page is the page with the values filled in (`Template.PageIsOnePass`).
- A domain name of length zero is encoded but not decoded (`Protocol.ParseEncodedAddress`).
- A configured user name that contains a colon never passes HTTP Basic (`BasicAuth.BasicExact`).
- The statistics page needs no test for absolute targets: its path excludes them already
  (`HttpProxy.StatsRequestExactly`).
- An empty argument disappears from the ExecStart line (`Systemd.RoundTripExact`); accepted
  configurations have none.

To verify everything: `dafny verify dfyconfig.toml`.

## Model

| member | source | states |
|---|---|---|
| Utf8.LossyIsValid | src/auth.rs:96-107 | credentials compared after the lossy conversion are always valid UTF-8 |
| Utf8.LossyIdentity | src/auth.rs:96-107 | the conversion leaves a byte string unchanged exactly when it is valid UTF-8 |
| Utf8.ValidExactly | src/auth.rs:96-107 | the byte strings taken for valid UTF-8 are exactly the encodings of sequences of Unicode scalar values |
| Utf8.LossyKeepsFront | src/auth.rs:96-107 | the lossy conversion keeps a valid front, whatever follows it |
| Protocol.EncodedShape | src/protocol.rs:323-355 | encoding fails exactly for domain names over 255 bytes, and its length is the announced one |
| Protocol.AddressLayout | src/protocol.rs:323-346 | an encoding is the type byte 1, 3 or 4, the address bytes or the length and name, and the port with its high byte first |
| Protocol.ParseEncodedAddress | src/protocol.rs:280-346 | an encoded address parses back to itself whatever follows, except that an empty domain name is refused |
| Protocol.EncodeParsedAddress | src/protocol.rs:280-346 | whatever bytes parse as an address are that address's encoding |
| Protocol.EncodingsArePrefixFree | src/protocol.rs:323-346 | no address encoding is a prefix of another's |
| Protocol.ParseEncodedDatagram | src/protocol.rs:248-277 | decoding inverts datagram encoding exactly for addresses other than an empty domain name |
| Protocol.EncodeParsedDatagram | src/protocol.rs:248-277 | every packet that decodes re-encodes to the identical bytes |
| Protocol.DatagramExactly | src/protocol.rs:248-268 | the packets that decode are exactly zero, zero, fragment zero, an encoding and the payload; only another fragment number is told apart as a fragment |
| Protocol.WriteAddress | src/protocol.rs:323-346 | appends the encoding to the buffer, or fails and leaves the buffer alone |
| Protocol.WriteUdpDatagram | src/protocol.rs:271-277 | the buffer built step by step is the datagram encoding |
| UdpRelay.RunKeepsInv | src/handler.rs:87-164 | over any run the lock never changes, targets only grow, and the invariant holds |
| UdpRelay.LockedToFirstClient | src/handler.rs:133-187 | the lock goes to the source of the first well-formed, unfragmented packet from the TCP peer's IP |
| UdpRelay.NonInterference | src/handler.rs:118-202 | deleting all packets of strangers and all undecodable packets of the client changes no output, lock, target or counter |
| UdpRelay.NoiseIsInvisible | src/handler.rs:118-202 | sessions that differ only in such packets produce the same result |
| UdpRelay.InsertedNoiseIsInvisible | src/handler.rs:118-202 | inserting such a packet anywhere changes nothing, if it could not take the lock itself |
| UdpRelay.TargetsWereNamed | src/handler.rs:189-202 | every target was named by an earlier packet of the locked client and resolved to it |
| UdpRelay.DeliveredFromNamedTarget | src/handler.rs:146-160 | a datagram for the client comes from an endpoint named earlier, and its wrapper decodes to that source and payload |
| UdpRelay.ContactedStaysReachable | src/handler.rs:199-202 | a known endpoint is sent to whenever the client names it, also when the table is full |
| UdpRelay.TargetsAreTheNamedOnes | src/handler.rs:199-202 | while the table is not full it holds exactly the endpoints the client has named |
| UdpRelay.SameIpExactly | src/handler.rs:133 | the lock compares IP version and IP bytes only |
| UdpRelay.ReplyStep | src/handler.rs:146-160 | exactly the packets of contacted endpoints are handed to the locked client, of any size, once, wrapped byte by byte with the endpoint's own IP and port, counted, and ending the session if the send fails |
| UdpRelay.AnswersCarryTheRequestsHeader | src/handler.rs:146-160 | the answer of an endpoint named by its address reaches the client behind the header of the client's own request |
| UdpRelay.RequestBytes | src/protocol.rs:103-115 | a packet with these address and port bytes is for exactly that endpoint, with exactly the bytes behind them as payload |
| UdpRelay.RequestName | src/protocol.rs:103-115 | a packet with a name goes where the lookup says, if anywhere |
| UdpRelay.StopsExactly | src/handler.rs:98-161 | a session ends exactly on a control read, a failed receive, or a reply that cannot be sent, each with its own status |
| UdpRelay.RequestStep | src/handler.rs:167-218 | a send happens exactly for a well-formed client packet naming a known endpoint or one that fits, once, with that packet's payload; a name that does not resolve is recorded |
| UdpRelay.OnlyKnownTargetsAreSent | src/handler.rs:199-206 | over any run at most 1024 endpoints are ever sent anything |
| UdpRelay.Accounting | src/handler.rs:146-217 | bytes out, bytes in and failures equal the sums over the outputs; at most one counted payload is undelivered and it ends the session |
| UdpRelay.UdpSession.HandleClientUdpPacket | src/handler.rs:167-218 | the field updates and sends are one step of the trace semantics |
| UdpRelay.UdpSession.HandleReceived | src/handler.rs:118-161 | the dispatch on the packet's source is one step of the trace semantics |
| UdpRelay.UdpSession.RelayUdp | src/handler.rs:87-164 | the loop produces the state and outputs of the trace semantics |
| Streams.PrefixedStream.Read | src/protocol.rs:380-397 | a read returns the next bytes of peeked prefix plus socket, and nothing only at the end |
| Streams.PrefixedStream.ReadExact | src/io_timeout.rs:29-37 | under any fragmentation an exact read takes the first bytes of the whole stream |
| Socks5.GreetingAccepted | src/protocol.rs:118-152 | every greeting that offers the method is answered with it and consumed exactly |
| Socks5.OnlyGreetingAccepted | src/protocol.rs:118-152 | nothing else is accepted as a greeting |
| Socks5.CredentialsAccepted | src/auth.rs:20-50 | a credentials message equal to the configuration after lossy decoding succeeds and is consumed exactly |
| Socks5.OnlyCredentialsAccepted | src/auth.rs:20-50 | nothing else authenticates |
| Socks5.AddressParsersAgree | src/protocol.rs:189-320 | streaming and buffer parser accept the same bytes with the same address and length |
| Socks5.RequestAccepted | src/protocol.rs:155-186 | every CONNECT and UDP ASSOCIATE request is read back and consumed exactly |
| Socks5.OnlyRequestAccepted | src/protocol.rs:155-186 | nothing else is accepted as a request |
| Socks5.RequestExactly | src/protocol.rs:155-186 | well-formed requests are accepted for commands 1 and 3 and exactly the others are unsupported |
| Socks5.DialogueAccepted | src/server.rs:126-180 | a complete dialogue reaches its command with exactly the expected replies and the rest unread |
| Socks5.SessionExact | src/server.rs:126-180 | a command is reached with given bytes left exactly for the dialogues of the standards, authenticated unless bypassed |
| Socks5.DispatchExactly | src/server.rs:119-133 | HTTP gets exactly the streams that do not start with 5, whole and uncounted; an empty stream is silent, or failed if broken |
| Socks5.RepliesExactly | src/server.rs:126-172 | what is replied in every session, and that one failure is counted exactly for a SOCKS client that has to log in and is not told that it has |
| Socks5.GreetingAnswered | src/protocol.rs:118-152 | a complete greeting is answered with the method or 0xFF, or fails to be answered, and is consumed exactly |
| Socks5.LoginAnswered | src/auth.rs:20-50 | a complete login is unanswered without configured credentials, else answered with status 0 or 1 by the comparison |
| Socks5.GreetingRefused | src/protocol.rs:133-142 | a missing method is answered with 0xFF, ends the session, and counts one failure unless bypassed |
| Socks5.CredentialsRefused | src/auth.rs:38-49 | wrong credentials are answered with a failure status, counted once, and end the session |
| Socks5.SessionConserves | src/server.rs:119-180 | in every session the consumed and the unread bytes make up what the client sent; replies are only appended |
| Socks5.RunHandshake | src/protocol.rs:118-152 | over any fragmentation the method is the handshake on the unfragmented stream |
| Socks5.RunBasicAuthenticate | src/auth.rs:20-50 | over any fragmentation the method is the exchange on the unfragmented stream |
| Socks5.RunReadAddress | src/protocol.rs:189-223 | over any fragmentation the method is the address reader on the unfragmented stream |
| Socks5.RunReadRequest | src/protocol.rs:155-186 | over any fragmentation the method is the request reader on the unfragmented stream |
| Socks5.RunConnection | src/server.rs:112-180 | outcome, failure count, replies and unread bytes of a connection depend on the concatenated bytes only |
| HttpText.SplitAt | src/http.rs:162 | splitting at commas distributes over a comma |
| HttpText.TrimExactly | src/http.rs:126-133 | trimming removes white space at both ends, none in between, and leaves none there |
| HttpText.WhiteFrontExactly | src/http.rs:126-133 | what counts as white space in bytes is exactly the encodings of the Unicode white-space characters |
| HttpText.SecondWordExactly | src/http.rs:203-209 | the second word of an item is what stands between its second and third stretch of white space |
| HttpText.EqIgnoreCaseExactly | src/http.rs:196-201 | ignoring case ignores nothing but the case of ASCII letters |
| HttpText.LowerAllExactly | src/http.rs:426-435 | the lower-case form of a name differs from it in the case of letters only and has no capital left |
| HttpText.TrimStaysValid | src/http.rs:126-133 | trimming Unicode white space leaves valid UTF-8 |
| HttpFraming.ParseU64Exactly | src/http.rs:167-169 | the numbers that parse are exactly an optional plus and at least one digit whose place value is below 2^64 |
| HttpFraming.PrintedIsRead | src/http.rs:167-169 | every 64-bit number is read back from its decimal form, with zeros or a sign in front |
| HttpFraming.FramingExact | src/http.rs:153-193 | accepted exactly when every comma item of every Content-Length denotes a number, all the same, and chunked excludes them |
| HttpFraming.TwoLengthsAgree | src/http.rs:167-178 | two plain decimal lengths pass together exactly when they are the same text |
| HttpFraming.FramingErrors | src/http.rs:160-192 | the error is that of the first item that is no number or differs, or else the conflict with chunked coding |
| HttpFraming.AcceptanceInherited | src/http.rs:153-193 | removing or reordering headers and adding unrelated ones keeps acceptance |
| HttpFraming.AcceptancePermutes | src/http.rs:153-193 | acceptance does not depend on header order |
| HttpFraming.ListSplits | src/http.rs:160-186 | a comma list is judged, error included, like its halves as separate headers |
| HttpFraming.ScanValue | src/http.rs:162-178 | the loop over one header's items is the scan of those items |
| HttpFraming.ValidateMessageFraming | src/http.rs:153-193 | the early-exit loop returns the specified verdict |
| HttpHead.ReadDecided | src/http.rs:95-150 | the parser's verdict is returned with exactly the following bytes left, unless the chunk completing the head exceeds the limit |
| HttpHead.AcceptExactly | src/http.rs:110-143 | a parsed head becomes exactly the request with its method, target, version 1.0 or 1.1 and trimmed UTF-8 fields, if its framing is unambiguous |
| HttpHead.ReadUndecided | src/http.rs:95-106 | without a verdict the reader fails as too large or at the end of the stream |
| HttpHead.SmallHeadIsRead | src/http.rs:95-150 | a head of at most 65536 - 1023 bytes is read under any chunking, and the bytes behind it are conserved |
| HttpHead.ReadAccepted | src/http.rs:95-150 | whatever is accepted, of any size, is what the parser makes of the whole stream, and exactly the bytes behind the head are left |
| HttpHead.LargeHeadIsRefused | src/http.rs:104-106 | a head over 65536 bytes is never accepted |
| HttpHead.SlackIsSharp | src/http.rs:95-106 | one byte more than the guaranteed size is refused when the peeked byte is followed by full reads |
| HttpHead.ReadHttpRequest | src/http.rs:95-150 | the loop over a real stream ends and returns what the specification says for the chunks its reads returned |
| FieldParser.ParseHeadIsStable | src/http.rs:108-148 | a field-line parser that takes leading empty lines and bare line feeds meets what the head reader relies on |
| FieldParser.EmptyLinesAreSkipped | src/http.rs:108-148 | an empty line in front of a head, with or without carriage return, only moves its end |
| FieldParser.HeadParses | src/http.rs:371-394 | a written head followed by anything parses back to itself, or is refused for more than 128 headers |
| FieldParser.AcceptedIsSound | src/http.rs:110-143 | accepted requests have clean names, trimmed UTF-8 values and a known version |
| HttpForward.KeptExactly | src/http.rs:376-385 | each header keeps its multiplicity or is dropped entirely, by its name |
| HttpForward.KeptAppend | src/http.rs:377-385 | the surviving headers stay in order |
| HttpForward.ConnectionNamesExactly | src/http.rs:426-435 | the collected names are those of all items of all Connection headers, trimmed and in lower case |
| HttpForward.DropExactly | src/http.rs:438-450 | dropped are exactly the eight fixed names and what some Connection item spells, in any case |
| HttpForward.ForwardedExactly | src/http.rs:376-394 | of each header as many copies are forwarded as were received, or none if it is hop-by-hop or listed by Connection |
| HttpForward.ForwardedHeaders | src/http.rs:371-394 | method and version stay, the target becomes the origin-form path, no hop-by-hop or listed header survives, one Host, no Connection, own Via last |
| HttpForward.ForwardedFraming | src/http.rs:376-394 | the forwarded head still passes the framing validator, and says the same about the body length exactly as far as Connection does not nominate it |
| HttpForward.ForwardedItems | src/http.rs:376-394 | a list header the proxy neither drops nor adds arrives with all its items in order, or with none when nominated |
| HttpForward.NominatedLengthIsLost | src/http.rs:376-385 | a valid length that Connection nominates passes the validator and never reaches the target |
| HttpForward.ForwardedParsesBack | src/http.rs:371-394 | the next hop parses exactly the forwarded request and the head's exact length |
| HttpForward.UpstreamStream | src/http.rs:371-411 | for every head that is accepted the target receives the rewritten head followed by exactly the client's bytes after its own head |
| HttpForward.HandleForward | src/http.rs:371-406 | the head built by appending, then the body bytes already read, are what is sent and what is counted |
| HttpForward.HasProxyViaExactly | src/http.rs:203-209 | a listener finds itself exactly if some item of some Via header has its identifier as second word |
| ViaLoop.OwnViaIsFound | src/http.rs:203-209 | the entry a listener appends is one its own check finds |
| ViaLoop.ForwardedVia | src/http.rs:376-394 | the Via items that leave are the received ones, or none if Connection nominates Via, and then the own |
| ViaLoop.ForwardingRecords | src/http.rs:376-394 | an identifier is recorded after a forward exactly if it is the own one, or was recorded and Connection does not nominate Via |
| ViaLoop.RecordedFromThenOn | src/http.rs:376-394 | every listener of a chain is recorded in all later heads, even if the first request nominated Via |
| ViaLoop.ListenersAreDistinct | src/http.rs:59-67 | no listener forwards twice in a chain |
| ViaLoop.ChainsEnd | src/http.rs:59-67 | among N listeners and under any routing a chain makes at most N forwards |
| ViaLoop.MeasureDecreases | src/http.rs:203-209 | each forward strictly shrinks the set of unrecorded identifiers |
| ViaLoop.DirectLinkKeepsVia | src/http.rs:376-394 | a direct connection between listeners meets the assumption on links |
| ViaLoop.DirectChainsEnd | src/http.rs:59-67 | the bound holds for listeners that read the very bytes the previous one wrote, whatever bodies follow |
| ViaLoop.RecordsExactly | src/http.rs:376-394 | what a chain remembers: exactly the listeners, and the entries of the first request, behind which no hop was told to drop Via |
| ViaLoop.ForwardsAgainExactly | src/http.rs:59-67 | a request that comes back is forwarded again exactly when the listener is not remembered |
| ViaLoop.NominationsBoundChains | src/http.rs:59-67 | with Via nominated at k later hops, N listeners forward at most N * (1 + k) times |
| ViaLoop.ForgetfulLinksLoop | src/http.rs:426-435 | links that nominate Via each time, and lose no entry, let two listeners pass a request back and forth without bound |
| BasicAuth.DecodeEncoded | src/auth.rs:75-78 | base64 decoding inverts encoding |
| BasicAuth.EncodeDecoded | src/auth.rs:75-78 | only canonical encodings decode |
| BasicAuth.TripleExactly | src/auth.rs:75-78 | four symbols of the alphabet are three bytes, as the same number to the base 64 and to the base 256 |
| BasicAuth.LastGroup | src/auth.rs:75-78 | a last group of one or two bytes is filled up with zeros and padded with two signs or one |
| BasicAuth.EncodeGroups | src/auth.rs:75-78 | whole groups are encoded one after the other |
| BasicAuth.BasicExact | src/auth.rs:54-93 | a header is accepted exactly for `Basic`, blanks and the encoding of the configured pair, with a colon-free user name |
| HttpProxy.DecideExactly | src/http.rs:59-91 | the exact condition of each of the six decisions, and that refusals for lack of credentials count one failure each |
| HttpProxy.StatsRequestExactly | src/http.rs:212-234 | a statistics request is exactly GET for /stats with any query and a first Host with the listener's port |
| HttpProxy.GetHeaderIs | src/http.rs:196-201 | the value looked at is that of the first header with the name |
| HttpProxy.RelayExact | src/http.rs:59-91 | relayed exactly when not looped, not a statistics request, and allowlisted or authorised |
| HttpProxy.CredentialsStay | src/http.rs:438-450 | no forwarded head carries proxy credentials |
| HttpProxy.ReturningRequestIsRefused | src/http.rs:59-67 | a request that already passed a listener gets 508 from it, whatever else it says |
| Limiter.StepConserves | src/server.rs:73-110 | one atomic operation conserves permits and connections |
| Limiter.StepCounts | src/server.rs:82-110 | one atomic operation keeps all counters equal to the history, modulo their width |
| Limiter.RunKeepsInv | src/server.rs:73-110 | the invariant holds under every interleaving |
| Limiter.CountersShowWhatHappened | src/server.rs:82-133 | after every schedule each counter is exactly what took effect: starts, dispatches by protocol, refusals, and additions of running tasks |
| Limiter.AcceptedIsServed | src/server.rs:82-110 | an accepted connection is started while a permit is free and turned away and counted otherwise, and the loop waits again |
| Limiter.StartedEnds | src/server.rs:98-133 | a started connection is counted once by its protocol and gives its permit back |
| Limiter.StoppedAcceptsNothing | src/server.rs:73-80 | after shutdown nothing is accepted or started |
| Limiter.LimiterIsSafe | src/server.rs:82-110 | permits available and held sum to the limit, active never exceeds held, total is finished plus live, SOCKS5 plus HTTP within total |
| Limiter.DecrementNeverWraps | src/server.rs:103-110 | dropping a guard finds the active counter positive |
| Limiter.RefusedOnlyWhenFull | src/server.rs:82-90 | a connection is turned away exactly when tasks hold all permits |
| Limiter.Drained | src/server.rs:82-110 | when everything has ended all permits are back, active is zero and accepted is total plus rejections |
| Limiter.SnapshotIsBounded | src/stats.rs:156-177 | counters read one by one, those for bytes, UDP and failures included, lie between their values at the ends of the snapshot, and active is within the limit |
| Limiter.SnapshotCoversExactly | src/stats.rs:156-177 | a snapshot's total covers its protocol counts exactly when the dispatches between the loads fit into the connections counted and not yet dispatched at the first |
| Limiter.TearIsBounded | src/stats.rs:156-177 | a snapshot is short by at most the connections counted while it was taken; if there is none it is consistent |
| Limiter.SnapshotCanTear | src/stats.rs:156-177 | a snapshot can be short by any number of connections, even with one permit |
| Limiter.ProxyServer.Interleave | src/server.rs:73-202 | the field updates of the accept loop and its tasks are the steps of the interleaving semantics |
| Template.ReplaceFirst | src/stats.rs:330-336 | replacing one placeholder by brace-free text leaves the substitution of the others undisturbed |
| Template.RenderIsOnePass | src/stats.rs:330-336 | sequential replacement equals one-pass substitution when placeholders are separated and all values but the last brace-free |
| Template.ValueIsLiteral | src/stats.rs:330-336 | in the one-pass result a value appears as it is |
| Template.NestedPlaceholdersDiffer | src/stats.rs:330-336 | with one placeholder inside the braces of another that its value completes, the two are not the same |
| Template.AssembledIsSeparated | src/stats.rs:330-336 | placeholders between pieces that contain no token and leave no brace open are separated |
| Template.PageIsOnePass | src/stats.rs:117-152 | on every page whose text is braced like the program's, rendering puts each value in the place of its placeholder and changes nothing else |
| Template.ErrorsAreLiteral | src/stats.rs:117-152 | on any separated page the error list is shown literally, even where it spells a placeholder |
| Template.RenderTemplate | src/stats.rs:330-336 | the loop is the sequential replacement |
| ErrorLog.NormalizeExact | src/stats.rs:374-376 | normalising keeps exactly the words, and is idempotent |
| ErrorLog.WordsExactly | src/stats.rs:374-376 | the words are exactly those from which the message is made up with white space around them |
| ErrorLog.TruncateExact | src/stats.rs:379-392 | the byte-length shortcut agrees with counting 240 characters; at most 243 remain |
| ErrorLog.EntryExact | src/stats.rs:285 | an entry is the words of the message with single spaces, cut after 240 characters, and one line without other white space |
| ErrorLog.Stats.RecordError | src/stats.rs:280-299 | one call appends the normalised, truncated entry and drops the oldest of a hundred |
| ErrorLog.Stats.RecordAll | src/stats.rs:280-299 | after any calls the buffer is the last hundred entries of the whole history |
| ErrorLog.UnescapeEscaped | src/stats.rs:395-408 | escaping is invertible |
| ErrorLog.EscapeUnescaped | src/stats.rs:395-408 | only escaped text reads back as text |
| ErrorLog.EscapedIsInert | src/stats.rs:395-408 | escaped text has no raw angle bracket or quote |
| ErrorLog.EscapeHtml | src/stats.rs:395-408 | the appending loop computes the escape |
| Systemd.RunQuoteArg | src/service/linux.rs:33-52 | the appending loop computes the quoted argument |
| Systemd.SplitArg | src/service/linux.rs:33-52 | a quoted non-empty argument is read back whole, whatever follows |
| Systemd.CommandLineSplits | src/service/linux.rs:106-112 | splitting the joined line gives back all non-empty arguments in order |
| Systemd.RoundTripExact | src/service/linux.rs:106-112 | the round trip holds exactly when no argument is empty |
| Systemd.DigitsRoundTrip | src/service/linux.rs:84 | the printed connection limit denotes the configured number |
| Systemd.ServiceArgsAreRead | src/service/linux.rs:78-96 | reading the service arguments gives back address, limit, allowlist and statistics switch |
| Systemd.BuildExecStart | src/service/linux.rs:78-112 | the line built step by step joins the quoted binary and service arguments |
| Systemd.ExecStartRoundTrip | src/service/linux.rs:78-112 | for every accepted configuration the line splits into the binary and exactly the service arguments |

## Left out

- Sockets, timers, the async runtime and name resolution: their results are arguments; a timeout is a failing read or write.
- Bidirectional copying after a command, CONNECT tunnel or forwarded head: the bytes left in the stream are what it would copy.
- Task cancellation before a task is first polled, when the guard that decrements the counter does not exist yet.
- Parsing of authorities, URIs, IP networks and IPv6 text: a `Route`, a `hostPort` function and an `isNetwork` function answer for them.
- The parser crate itself: `HttpHead` works with any prefix-stable parser and `FieldParser` is one; it reports an error only once the line with the error is complete.
- Constant-time comparison of credentials is equality; the random Via identifier is any token without white space or comma.
- Other sessions' updates of the shared byte counters: `UdpRelay` counts one session's contribution, modulo 2^64; `Limiter` interleaves additions by any task.
- A disabled statistics handle, apart from the error log and the decision to serve the page.
- Partial writes: a failing write sends nothing in `Streams`.
- Expansion of `%` and `$` in unit files, and the whole unit file around the ExecStart line; `quote_env_value` would only add an easy round trip.
- Table rows, byte sizes, durations and the page's own HTML: `Template` takes the values as text and the page as pieces of text with placeholders between them.
- `ServiceArgsAreRead`: for addresses that do not start with a dash, which the command line would take for an option, and allowlist entries without commas, as the command line splits them.
- Fixed response texts, the clock, command-line parsing and the Windows service.

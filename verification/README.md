# Verification of tapbox

tapbox sits between clients, servers and PostgreSQL. It forwards traffic
unchanged and builds a trace of it: spans for HTTP requests and SQL queries,
kept in memory and drawn as a tree. This project models the parts on which that
promise rests and proves it in Dafny 4.11. `dafny verify dfyconfig.toml` checks
everything.

Byte strings are sequences of characters below 256 (`Bytes.dfy`), so that text
can be written as literals. A lock that an operation holds throughout makes it
one step. Clocks, generated IDs and everything a peer will ever send or accept
are parameters.

## What is modelled

**The PostgreSQL wire proxy.** `PgCodec.dfy` is the message codec of the
PostgreSQL Frontend/Backend Protocol 3.0, section "Message Formats", with the
proxy's own length limits; `PgFields.dfy` picks strings out of payloads;
`PgConn.dfy` and `PgHandshake.dfy` are the blocking connections and the startup
relay, including SSL retries and authentication. `PgCapture.dfy` is the capture
state of the client loop and a second description of it by history alone.
`PgSystem.dfy` is the transition system of the two goroutines, the 64-slot lossy
channel and both peers; reading, offering, writing (in parts of any size) and
handling a message are separate actions, in the source's order, and a run is any
sequence of actions. `PgSafety.dfy` is its invariant, `PgGuarantees.dfy` what
holds on every run. `PgRuns.dfy` singles out the runs whose peers keep to rules;
`PgAttribution.dfy` shows when events carry the right query on these,
`PgSchedule.dfy` builds runs to order, and `PgExactness.dfy` and `PgWindow.dfy`
use them to show that the conditions for that are exact. `PgProtocol.dfy` spells
the protocol's messages out by name and in bytes; in these terms `PgLogin.dfy` and
`PgStartup.dfy` show that every login succeeds, and `PgNamed.dfy` what is observed
of any requests and replies. `PgLoops.dfy` is the two loops as code, each against any behaviour of the other
one, and `PgConnection.dfy` a connection from its first byte.

**The trace store.** `StoreSpec.dfy` says what a store should hold after any
history of additions: a bounded queue, which in turn is read off the history.
`TraceModel.dfy` has traces, spans and header maps as mutable objects and their
deep copies, `TraceStore.dfy` the store with its map and circular array,
`StoreGuarantees.dfy` what callers may rely on and `StoreRuns.dfy` a store from
its creation on. The ring holds at least one
trace, which the configuration enforces (internal/config/config.go:84). Start
times and durations are integers, in nanoseconds.

**The span tree of the web page.** `ForestSpec.dfy` and `ForestOrder.dfy` study
arbitrary parent links, cycles included, and the depth-first order of the part
that hangs together; `SpanForest.dfy` builds the node objects for any list of
spans, `SpanWalk.dfy` says when walking them comes to an end, and `SpanPage.dfy`
walks them for the timeline and for the rows of the tree view.

**Trace context as text.** `Strings.dfy` and `Percent.dfy` are the library
operations on byte strings that the formats use, the latter the percent-encoding
of RFC 3986, section 2.1, with '+' for a space. `Traceparent.dfy` is the header
of W3C Trace Context, section 3.2; `SqlComment.dfy` the sqlcommenter comment,
appended, read and stripped; `Propagation.dfy` a row of proxies that ends in a
SQL comment.

**Attribution of queries.** `Correlation.dfy` is the stack of active requests,
`SqlSpans.dfy` the step from a query event to its span.

**HTTP bodies.** `BodyCapture.dfy` reads the start of a request body and rebuilds
the body; `ResponseRecorder.dfy` records a response on its way to the client.

## Where the code falls short of its documentation

Some properties that the comments in the code suggest hold only under a
condition. Each condition is proved to be exact:

- Reading a SQL comment is described as total, but the slice between the comment
  marks fails at run time. `SqlComment.FailsExactly`: this happens if and only if
  the query, without trailing blanks, ends in `/*/`, as `SqlComment.OverlapExample`
  does.
- The rebuilt request body is described as complete. `BodyCapture.CaptureBody`:
  it is complete if and only if the client's reader does not return an empty read
  just after the captured part of a longer body (`BodyCapture.StallExample`). If
  the client's stream fails, the upstream server learns of it if and only if the
  body is longer than the captured part and the reader does not stall there;
  otherwise the failure is concealed (`BodyCapture.FailureExample`).
- Query events are matched to responses by their order alone.
  `PgExactness.AttributedExactly`: a client's stream is attributed correctly on
  every run with an orderly server if and only if, before a Terminate message,
  it has no simple query, exactly one captured query in each group that a Sync
  closes, and at most 64 such groups. `PgWindow.EmptyGroupFirst` and
  `PgWindow.SimpleQueryAlone` are short streams that go wrong. For longer streams
  `PgAttribution.Attribution` shows that it is enough if what the server has
  received so far meets this and no query of it was dropped; and
  `PgWindow.WindowTight` shows that a limit on unanswered groups rules drops out
  if and only if it is at most 63, one less than the channel holds, because the
  answer reaches the client before its event leaves the channel.
- The span tree is walked without a check for cycles. `SpanWalk.WalkEndsExactly`:
  the walk ends if and only if no way down from a root meets an ID twice. Distinct
  span IDs are enough, whatever the parents (`SpanPage.DistinctWalkEnds`), but not
  needed (`SpanWalk.TwinsEnd`); `SpanWalk.DoubledNeverEnds` is a list of three
  spans, two with one ID, on which the walk goes on for ever.

## Model

| member | source | states |
|---|---|---|
| PgCodec.DecodeEncode | internal/proxy/sql/pgproxy.go:272-312 | Reading a written message, whatever follows it, gives back that message and leaves what follows. |
| PgCodec.EncodeDecode | internal/proxy/sql/pgproxy.go:272-312 | Writing a message that was read restores the bytes it was read from, for every readable stream. |
| PgCodec.DecodePartial | internal/proxy/sql/pgproxy.go:272-291 | No proper prefix of a message is readable as a message. |
| PgCodec.ParseEncodeAll | internal/proxy/sql/pgproxy.go:272-312 | A stream of written messages parses into exactly these messages, followed by whatever the rest parses into. |
| Bytes.U32Order | internal/proxy/sql/pgproxy.go:278-278 | Of two length fields that agree up to some byte, the one with the smaller byte there is the smaller number: the most significant byte comes first. |
| PgCodec.DecodeBytes | internal/proxy/sql/pgproxy.go:272-291 | Byte by byte: a type, a length of four bytes with weights 2^24 to 1, and payload are read as that message exactly when the length is at least 4 and at most 64 MiB and the payload is there; otherwise the length is refused or the message incomplete. |
| PgCodec.EncodeBytes | internal/proxy/sql/pgproxy.go:298-312 | A message is written as its type, its length in the same four bytes, and its payload. |
| PgCodec.QueryFrame | internal/proxy/sql/pgproxy.go:272-291 | The bytes of a query for SELECT 1 are read as that query. |
| PgConn.ReadMessage | internal/proxy/sql/pgproxy.go:272-291 | A message is read exactly when the stream starts with a complete one of acceptable length; it and the rest of the stream are then what the codec says. |
| PgConn.WriteMessage | internal/proxy/sql/pgproxy.go:298-312 | A message is delivered whole if the peer accepts that many bytes, and otherwise exactly as far as it does. |
| PgFields.CStringUnique | internal/proxy/sql/pgproxy.go:323-330 | The text before the first NUL, or all of it, is determined by having no NUL and ending at one. |
| PgFields.ExtractString | internal/proxy/sql/pgproxy.go:323-330 | On arbitrary bytes the scan stays in bounds and finds that text. |
| PgFields.ExtractSecond | internal/proxy/sql/pgproxy.go:334-359 | On arbitrary bytes the scan for the second NUL-terminated string stays in bounds and finds it, or nothing. |
| PgFields.FieldsOfTwoStrings | internal/proxy/sql/pgproxy.go:334-359 | From any Parse or Bind payload of well-formed fields, the name and the query or statement name come back. |
| PgFields.ExtractErrorMessage | internal/proxy/sql/pgproxy.go:253-268 | On arbitrary bytes the scan over error fields ends, stays in bounds and finds the message text. |
| PgFields.ErrorTextOfFields | internal/proxy/sql/pgproxy.go:249-268 | For every well-formed ErrorResponse the text is the value of its first message field, and empty without one. |
| PgHandshake.RelayAuth | internal/proxy/sql/pgproxy.go:120-156 | Authentication succeeds having passed on unchanged all messages up to the first ReadyForQuery and one answer to each challenge; it fails only where the next message cannot be read or written. |
| PgHandshake.RelayStartup | internal/proxy/sql/pgproxy.go:55-116 | After any number of denied SSL requests the handshake is passed on unchanged and completely; otherwise each side has a prefix of what the other sent, and the reason is a startup message or a message that cannot be read or written, or the server's acceptance of TLS. |
| PgLogin.Authenticate | internal/proxy/sql/pgproxy.go:120-156 | For any authentication requests, of any kind and in any order, with other messages between them: each reaches the client, and exactly one answer reaches the server for every request other than AuthenticationOk and AuthenticationSASLFinal; authentication is complete exactly when the server is ready for queries. |
| PgStartup.Connect | internal/proxy/sql/pgproxy.go:55-116 | After any number of TLS requests that the server denies, any startup message of up to 10240 bytes and any such authentication, the connection is established and each side has received exactly what the other one sent. |
| PgCapture.OfferIsHistory | internal/proxy/sql/pgproxy.go:161-202 | The flag and the table of statements offer a query for a message exactly when its history does: a Query; a Parse with a query; a Bind without such a Parse since the last Sync whose statement was defined before, with the text of the latest definition. |
| PgCapture.CapturesAreHistory | internal/proxy/sql/pgproxy.go:161-202 | The list of captured queries is, in order, that of the messages that offer one by history, and no others. |
| PgNamed.CapturesByName | internal/proxy/sql/pgproxy.go:161-202 | For any requests by name, the captured queries are in order those of the simple queries, of the statements parsed with a text, and, in groups that parse none, of the named statements bound, with the text parsed last under that name. |
| PgCapture.CapturesByGroup | internal/proxy/sql/pgproxy.go:158-208 | If each group closed by a Sync has one capture, then the k-th capture is that of the k-th group, whatever is in the group still open. |
| PgSafety.DoKeeps | internal/proxy/sql/pgproxy.go:158-247 | Every atomic step of either goroutine or peer keeps the joint invariant of both relays, the channel and the events. |
| PgSafety.ReachableInv | internal/proxy/sql/pgproxy.go:33-53 | So it holds in every state that any interleaving of any length reaches. |
| PgGuarantees.Transparency | internal/proxy/sql/pgproxy.go:158-247 | In every interleaving each peer has received a prefix of the other's bytes, which outside a write ends between messages, whatever is captured or dropped. |
| PgGuarantees.Conservation | internal/proxy/sql/pgproxy.go:36-52 | In every interleaving the offered queries are those captured, up to one still to be offered, and split into accepted and dropped; the accepted ones are in order those emitted and then those buffered; at most 64 are buffered; there are at most as many events as ReadyForQuery messages read. |
| PgGuarantees.CycleStartMeaning | internal/proxy/sql/pgproxy.go:243-244 | The response a ReadyForQuery ends starts after the one before it. |
| PgGuarantees.LastErrorMeaning | internal/proxy/sql/pgproxy.go:225-226 | The error of a response is that of its last ErrorResponse, and empty without one. |
| PgGuarantees.EventsDescribeCycles | internal/proxy/sql/pgproxy.go:210-247 | In every interleaving each event belongs to a ReadyForQuery of its own, in order; its row count is the number of DataRows and its error the last error text since the ReadyForQuery before. |
| PgNamed.EventsByName | internal/proxy/sql/pgproxy.go:210-268 | For any replies by name and in every interleaving, each event has the number of data rows, and the first message field of the last error, of the response that its ready-for-query ends. |
| PgAttribution.Attribution | internal/proxy/sql/pgproxy.go:158-247 | In every interleaving, with an orderly server and whatever the client sends: if what the server has received holds no simple query and one query in each group it has the Sync of, none of them dropped, then every ReadyForQuery handled so far has produced an event, and the k-th one carries the k-th group's query. |
| PgAttribution.AttributionByWindow | internal/proxy/sql/pgproxy.go:36-36 | A client with one query in each group and at most 63 groups unanswered, counting the one being sent, never loses a query, and the same holds. |
| PgExactness.AttributedExactly | internal/proxy/sql/pgproxy.go:158-247 | For every stream of client messages: attribution is right in every interleaving with an orderly server if and only if, up to a Terminate, the stream has no simple query, one capture in each closed group and at most 64 closed groups. |
| PgExactness.Misattributed | internal/proxy/sql/pgproxy.go:158-247 | For every other stream there is a run in which an event is missing or carries another group's query. |
| PgWindow.WindowTight | internal/proxy/sql/pgproxy.go:316-321 | For every limit on unanswered groups: no run within it drops a query if and only if it is at most 63. |
| PgWindow.DroppedBeyond | internal/proxy/sql/pgproxy.go:316-321 | With any larger limit the query of the 65th group can be dropped, though the first answer has reached the client. |
| PgWindow.EmptyGroupFirst | internal/proxy/sql/pgproxy.go:180-199 | Sync, Parse, Sync is misattributed in some run. |
| PgWindow.SimpleQueryAlone | internal/proxy/sql/pgproxy.go:171-179 | So is a single simple query, which is offered only after it has been passed on. |
| PgLoops.Pending.TrySend | internal/proxy/sql/pgproxy.go:316-321 | A query goes to the end of the channel, or is dropped exactly when 64 are waiting at that moment. |
| PgLoops.Pending.TryReceive | internal/proxy/sql/pgproxy.go:228-242 | The oldest waiting query is taken, and nothing only when the channel is empty. |
| PgLoops.CaptureExtended | internal/proxy/sql/pgproxy.go:180-199 | The cases before the write change the capture state, and offer a query, as the history description says. |
| PgLoops.ProxyClientToServer | internal/proxy/sql/pgproxy.go:158-208 | The loop passes on all messages up to Terminate, an unreadable one or one that does not fit, and offers the queries captured from them in order, at most the last one missing. |
| PgLoops.Report | internal/proxy/sql/pgproxy.go:222-245 | Handling a message keeps row count and error those of the current response; a ReadyForQuery, and nothing else, tries the channel once and emits an event if it yields a query. |
| PgLoops.ProxyServerToClient | internal/proxy/sql/pgproxy.go:210-247 | The loop passes on all messages up to an unreadable one or one that does not fit; its events are the queries received, in order, each describing its response, with one attempt for every ReadyForQuery passed on. |
| PgConnection.HandleConnection | internal/proxy/sql/pgproxy.go:23-53 | From the first byte on and under every schedule, without TLS, each side has received a prefix of what the other sent: the complete handshake and then whole messages, or less if the connection ends before, for the reasons given there. |
| StoreSpec.FoldBounded | internal/trace/memstore.go:31-48 | The queue never holds more traces than its bound, nor two with one ID. |
| StoreSpec.FoldIsHistory | internal/trace/memstore.go:27-51 | For every history the queue holds the last creations, each with exactly the spans of its ID since then. |
| StoreSpec.NewestKept | internal/trace/memstore.go:31-48 | Of traces that are all different the newest up to the bound are kept, in order. |
| StoreSpec.PagesCover | internal/trace/memstore.go:79-96 | Reading page after page of any size from any offset yields the rest of the list without gap or repeat, also when the stated total is larger than the list. |
| StoreSpec.EmptyLeftOut | internal/trace/memstore.go:141-159 | Of the live IDs, which are distinct, an empty one is left out of the list and the others keep their order. |
| StoreSpec.WholeList | internal/trace/memstore.go:85-94 | Without a limit a page is everything from the offset on. |
| StoreSpec.HullIsSmallest | internal/trace/memstore.go:125-139 | For positive starts and non-negative durations the two accumulators give the smallest interval that covers all spans. |
| StoreSpec.HullWidens | internal/trace/memstore.go:50-51 | Another span only widens it. |
| TraceModel.CloneSpan | internal/trace/model.go:170-176 | The copy of a span has its fields and, in each of the three places, no header map where it has none and otherwise a new one with the same entries. |
| TraceModel.Trace.Snapshot | internal/trace/model.go:167-178 | A snapshot reads like the trace, in order and down to the header maps, and is made of new objects throughout. |
| TraceModel.Trace.UpdateTiming | internal/trace/memstore.go:125-139 | The loop gives the trace the interval of its spans. |
| TraceStore.RingStep | internal/trace/memstore.go:33-47 | Writing at the position and stepping forward drops the oldest ID of a full ring and adds the new one at the end. |
| TraceStore.ModelIsFold | internal/trace/memstore.go:27-63 | The live IDs and their spans, evicted and extended as the store does it, are distinct, agree with each other and are the bounded queue of the history. |
| TraceStore.MemStore.constructor | internal/trace/memstore.go:18-25 | An empty store is valid for the empty history. |
| TraceStore.MemStore.Add | internal/trace/memstore.go:27-63 | Adding a span keeps map, ring, position and flag in agreement with the history extended by it, times its trace, and touches no other trace than that one and the one evicted from the map. |
| TraceStore.MemStore.GetTrace | internal/trace/memstore.go:65-73 | A live trace is returned as a copy that reads like it and shares nothing with it; otherwise nothing is. |
| TraceStore.MemStore.OrderedIDs | internal/trace/memstore.go:141-159 | The scan of the ring, wrapped or not, lists the non-empty live IDs oldest first. |
| TraceStore.MemStore.ListTraces | internal/trace/memstore.go:75-104 | A page holds copies of exactly the traces the page of the oldest-first list names, in that order. |
| StoreGuarantees.StoreIsHistory | internal/trace/memstore.go:27-63 | In every valid store the live traces are those of the last creations up to the bound, oldest first in the ring, distinct, and each has exactly the spans added for it since. |
| StoreGuarantees.AddKeepsTiming | internal/trace/memstore.go:50-51 | If every live trace has the interval of its spans before an addition, every live trace has afterwards. |
| StoreGuarantees.ReadAllPages | internal/trace/memstore.go:75-104 | Asking the store for page after page of any size, until one is empty, yields copies of all stored traces, oldest first, none missing or repeated, whether or not the ring has wrapped. |
| StoreRuns.Record | internal/trace/memstore.go:18-63 | After any list of spans has been added to a new store, every live trace has the interval of its spans, which for positive spans is the smallest that covers them. |
| StoreRuns.TightMeans | internal/trace/memstore.go:125-139 | In numbers: no span of a timed trace starts before it or ends after it, and one starts and one ends just then. |
| StoreGuarantees.SnapshotSurvivesAdd | internal/trace/memstore.go:65-73 | A snapshot taken before an addition still reads afterwards as the trace did. |
| StoreGuarantees.StoreSurvivesEdits | internal/trace/model.go:167-187 | Overwriting everything reachable through a snapshot leaves the store and all it reads as they were. |
| ForestOrder.FlatForest | web/app.js:259-282 | Whatever the parent links, the depth-first order contains exactly the spans whose chain of parents reaches a root, each once. |
| ForestOrder.FlatPermutation | web/app.js:259-282 | It is a permutation of the input exactly when every chain does. |
| ForestOrder.GroundedIffAcyclic | web/app.js:265-272 | Every chain of parents reaches a root exactly when there is no cycle. |
| ForestOrder.FlatNests | web/app.js:275-282 | In that order every span is followed at once by exactly the spans below it, so parents come first and subtrees are contiguous. |
| ForestOrder.FlatSiblings | web/app.js:265-282 | Spans with the same parent, and roots, keep their input order. |
| ForestSpec.FitExists | web/app.js:275-282 | Depth is bounded on the part the walk visits, cycles elsewhere notwithstanding. |
| SpanForest.LinksValid | web/app.js:262-272 | With distinct IDs the links followed are those of distinct spans to spans of the input. |
| SpanForest.BuildTree | web/app.js:259-273 | For all spans, duplicates included, every ID has one node with its last span, whose children are the spans hung below that ID in input order; the others are the roots. |
| SpanForest.KidsAreNamed | web/app.js:265-270 | For all spans, duplicates included, the children of an ID that some span has are in input order exactly the spans that name it as their parent. |
| SpanForest.RootsAreNamed | web/app.js:265-272 | The roots are in input order exactly the spans without a parent and those whose parent no span is. |
| SpanForest.ChildNode | web/app.js:265-270 | With distinct IDs a span's node is among the children of another's node exactly when it names it as its parent. |
| SpanForest.RootNode | web/app.js:265-272 | With distinct IDs a span's node is a root exactly when it has no parent or no span has its parent's ID. |
| SpanForest.LastIsHeld | web/app.js:262-264 | The node of an ID holds the last span with it. |
| SpanPage.FlattenTree | web/app.js:275-282 | The walk lists the span of every node it meets, in depth-first order, for every list of spans on which it ends. |
| SpanPage.RenderTree | web/app.js:284-298 | The rows come in the same order, each indented by the number of spans above it. |
| SpanWalk.WalkEndsExactly | web/app.js:275-298 | For every list of spans, duplicates included, walking the nodes ends if and only if no way down from a root meets an ID twice. |
| SpanWalk.DoubledNeverEnds | web/app.js:275-282 | On three spans, two with one ID, no depth is enough for the walk. |
| SpanWalk.TwinsEnd | web/app.js:275-282 | Two roots with one ID are walked to the end. |
| SpanPage.RenderDetail | web/app.js:164-200 | Whenever the walk ends, row i and timeline bar i show the same span, the last one with the ID of the i-th node met, indented by the number of nodes above it. |
| SpanPage.DistinctWalkEnds | web/app.js:275-282 | With distinct IDs the walk always ends, whatever the parents. |
| SpanPage.DistinctShown | web/app.js:164-200 | With distinct IDs the spans shown are exactly those whose chain of parents reaches a root, each once, in depth-first order and indented by their depth. |
| SpanPage.BarsPermuteSpans | web/app.js:177-181 | No span is lost or shown twice exactly when the parent links have no cycle. |
| Percent.UnescapeEscape | example/internal/tracing/sqlcommenter.go:18-18 | Decoding undoes query escaping for every byte string. |
| Percent.UnescapeFails | internal/proxy/sql/sqlcommenter.go:55-58 | Decoding fails exactly when some percent sign is not followed by two hexadecimal digits. |
| Percent.UnescapeMeans | internal/proxy/sql/sqlcommenter.go:55-58 | Two upper-case or lower-case digits after a percent sign are read as their byte, a plus sign as a space, any other byte as itself. |
| Percent.EscapeMeans | example/internal/tracing/sqlcommenter.go:18-18 | Letters, digits and -_.~ stay, a space becomes a plus sign, every other byte a percent sign and two upper-case digits. |
| Strings.TrimSpaceTrims | internal/proxy/sql/sqlcommenter.go:44-50 | Trimming takes only Unicode white space off both ends and leaves none there. |
| Strings.SpaceIsWhite | internal/proxy/sql/sqlcommenter.go:44-50 | Text starts with white space exactly when it starts with the UTF-8 form of one of the white-space code points of Unicode. |
| Strings.SpaceBeforeIsWhite | internal/proxy/sql/sqlcommenter.go:44-50 | The same at the end of text. |
| Strings.SplitMeaning | internal/trace/traceparent.go:19-19 | Splitting gives the only separator-free pieces that join to the text. |
| Traceparent.IsLowerHexMeans | internal/trace/traceparent.go:43-49 | Decoding as hexadecimal and comparing with the lower-case text accepts exactly the even-length texts of 0-9 and a-f. |
| Traceparent.ParseMeans | internal/trace/traceparent.go:18-36 | A header is accepted with given IDs exactly when it has four dash-separated fields and these, valid and not all zero, in the middle. |
| Traceparent.FormatParse | internal/trace/traceparent.go:39-41 | Parsing a formatted header gives its IDs back exactly when they are valid. |
| Traceparent.GeneratedAccepted | internal/trace/traceparent.go:18-36 | For every 16 and every 8 bytes, the header with these in hexadecimal is accepted with just these IDs, whatever the version and the flags, unless all of the 16 or all of the 8 are zero; then it is rejected. |
| Traceparent.AcceptedOnly | internal/trace/traceparent.go:18-36 | No other header is accepted. |
| Traceparent.FormatGenerated | internal/trace/traceparent.go:39-41 | The header written for generated IDs has version 00 and flags 01 and is accepted. |
| SqlComment.FirstDecides | internal/proxy/sql/sqlcommenter.go:43-64 | Of the comma-separated pairs of a comment the first whose trimmed key is traceparent decides, by its unquoted and decoded value; none is found exactly when no pair has that key. |
| SqlComment.ParseSQLComment | internal/proxy/sql/sqlcommenter.go:32-66 | The loop over the pairs finds what the comment says, and fails at run time where the source does. |
| SqlComment.FailsExactly | internal/proxy/sql/sqlcommenter.go:37-41 | That is the case exactly for queries ending in an opening mark whose star also closes it. |
| SqlComment.OverlapExample | internal/proxy/sql/sqlcommenter.go:37-41 | The three characters of such a mark alone are one. |
| SqlComment.ReadAppended | example/internal/tracing/sqlcommenter.go:14-19 | For every query and non-empty traceparent, reading the appended comment gives what parsing the traceparent gives: its IDs, or invalid, and never absent. |
| SqlComment.StripAppended | internal/proxy/sql/sqlcommenter.go:71-81 | Stripping the appended comment gives the query back without its trailing blanks. |
| SqlComment.WrittenComment | internal/proxy/sql/sqlcommenter.go:32-81 | The comment of a generated span, written out character by character, is read with its IDs after every query and before any blanks, and removed with the blanks before it. |
| SqlComment.AmongOthers | internal/proxy/sql/sqlcommenter.go:43-64 | A pair with another key before the traceparent pair is passed over. |
| Propagation.OneTrace | internal/proxy/http/traceparent.go:10-23 | Over any number of proxies all spans share one trace and each is the child of the one before; the first follows an acceptable header and otherwise starts a trace. |
| Propagation.SqlInTrace | internal/proxy/http/proxy.go:53-60 | The SQL comment at the end names that trace and the last proxy's span. |
| Correlation.Correlator.constructor | internal/proxy/sql/correlator.go:28-35 | The lifetime of entries is the given one if positive and five seconds otherwise. |
| Correlation.Correlator.SetActive | internal/proxy/sql/correlator.go:39-47 | The request becomes the newest entry. |
| Correlation.Correlator.ClearActive | internal/proxy/sql/correlator.go:51-60 | The backward search removes what the specification of clearing says. |
| Correlation.Correlator.Correlate | internal/proxy/sql/correlator.go:65-77 | The backward search finds the newest entry that has not expired, or else gives a new trace without a parent. |
| Correlation.WithoutLastMeans | internal/proxy/sql/correlator.go:53-58 | Clearing takes out exactly the last entry for the span and keeps the others in order. |
| Correlation.StackIsHistory | internal/proxy/sql/correlator.go:39-60 | On every run in which no request is active twice, the entries are exactly the uncleared requests in the order they became active. |
| Correlation.StackSorted | internal/proxy/sql/correlator.go:39-47 | On every run with a clock that does not go back the entries are sorted by time, none later than the clock. |
| Correlation.NewestOnly | internal/proxy/sql/correlator.go:71-76 | On a sorted stack searching all entries gives the same answer as looking at the newest alone. |
| Correlation.QueryGoesToNewest | internal/proxy/sql/correlator.go:62-77 | So a query goes to the request that became active last among those not cleared, unless that one has expired. |
| SqlSpans.OnQuery | internal/proxy/sql/proxy.go:107-138 | The span's trace and parent are the comment's if it can be read and the correlator's otherwise; the comment stays in the text only without a traceparent; the name is the text cut after 80 bytes; row count and error are the event's, and the span is an error exactly when there is an error text. |
| SqlSpans.QueryInTrace | internal/proxy/sql/proxy.go:110-116 | A query sent below a row of proxies is recorded in their trace, below the last one, without the comment, whatever else is active. |
| SqlSpans.PlainQuery | internal/proxy/sql/proxy.go:120-121 | A query without a traceparent is recorded as it is, below the newest uncleared request or in a trace of its own. |
| SqlSpans.UnreadableQuery | internal/proxy/sql/proxy.go:117-119 | A query whose traceparent cannot be read is recorded where one without is, and shown without its comment. |
| SqlSpans.InvalidQuery | internal/proxy/sql/proxy.go:117-119 | A query sent with any non-empty traceparent that is not acceptable as a header is recorded below the newest uncleared request that has not expired, or alone in a new trace, and shown without the comment. |
| BodyCapture.ReadAllLimited | internal/proxy/http/proxy.go:183-188 | Whatever the sizes of the reads, the captured part is the first bytes up to the limit and the reader is left just after it. |
| BodyCapture.StartMeans | internal/proxy/http/proxy.go:183-188 | The captured part is the one start of the body that is as long as the limit allows, and empty for a limit of zero or less. |
| BodyCapture.CaptureBody | internal/proxy/http/proxy.go:178-209 | For every reader and limit the captured part is the start of the body; the rebuilt body is the whole one exactly when the reader does not stall after that part; a failing reader's failure is concealed exactly when the body is no longer than that part or the reader stalls; the length is exact, or -1 when more is streamed. |
| BodyCapture.FailureExample | internal/proxy/http/proxy.go:183-197 | A failure after two bytes is concealed with a limit of two and reported with a limit of one. |
| BodyCapture.SteadyNeverStalls | internal/proxy/http/proxy.go:190-197 | A reader whose reads return data or the end never stalls, so its body is always complete. |
| BodyCapture.StallExample | internal/proxy/http/proxy.go:190-197 | A reader with an empty read loses the bytes after it. |
| ResponseRecorder.Recorder.WriteHeader | internal/proxy/http/proxy.go:231-237 | Every status call reaches the client's writer; the first call of any kind fixes the recorded status, later ones leave it. |
| ResponseRecorder.Recorder.Write | internal/proxy/http/proxy.go:239-257 | Every chunk reaches the client's writer whole and in order with the writer's own result; the recorded body is the first bytes of all chunks up to the limit, whatever the chunking. |

## Left out

- Sockets, dialing, deadlines, listeners and shutdown: connections are byte sequences with an end, and a limit on what the peer accepts.
- PgHandshake.RelayStartup: does not model the copying of bytes in both directions after the server accepts TLS (pgproxy.go:97-106), which looks at none of them.
- Connection numbers, start times and durations of query events, and the flag of a closed channel: a closed and drained channel yields no event, like an empty one.
- PgFields.ExtractSecond: extractParseQuery and extractBindStatementName are the same scan and are modelled once.
- PgExactness.AttributedExactly: an orderly server sends a ReadyForQuery for Sync and Query messages it has received; the legacy FunctionCall message, which calls for one, too, is not counted.
- PgLoops.ProxyClientToServer: the loops as code and the actions of the transition system are tied to the same functions of the messages, but no member turns an execution of the one into a run of the other.
- TraceStore.MemStore.Add: does not model subscribers, whose slow channels drop spans. A trace is locked by the store's mutex only.
- TraceModel.Trace.UpdateTiming: durations are integer nanoseconds, not floating-point milliseconds, and 0 stands for the zero time.
- TraceModel.SpanInfo: groups the fields that the store only copies.
- SpanPage.RenderDetail: the walk goes by levels that are known to be enough, so what a page does that walks for ever is not described further. The stable sort by start time before it, and the HTML, are the browser's; the property names that every JavaScript object inherits are not taken to be span IDs.
- Propagation.Hops: newly generated IDs are assumed well formed and not all zero; their randomness is not modelled. That an application sends on the header it received is the example applications' doing.
- BodyCapture.CaptureBody: concatenated readers are modelled by what can be read from them.
- ResponseRecorder.Recorder: Flush is passed through without effect on the record.
- The gRPC proxy and its codec, the UI server with its event stream and EXPLAIN handler, configuration, JSON encodings and the Connect path tests.

# Verified models of apme-web-mash

This project models the parts of the repository where several pieces of state meet, and
proves what they promise for every input, every run and every interleaving.  Five subjects
are covered.

**The Oracle/Fn `http-stream` engine.** A hand-written HTTP/1.1 reader (request line, header
merging, chunked and sized bodies, three size limits), the adapter that turns a parsed
request into the provider-neutral one, the dispatcher, and the response writer.

- `HttpReader` gives the reader as functions of the unread bytes; `HttpConnection` is the
  mutable connection whose loops are proved to compute exactly those functions.
- `HttpSyntax` says how each kind of line may be spelled by taking it apart (white space,
  token, colon, value; digits; three words), and proves the reader's scanning recognises
  exactly that.
- `HttpGrammar` builds the accepted messages from such lines, and proves the reader accepts
  exactly the renderings of well-formed messages (`ReaderExact`).
- `HeaderFields` and `HttpFraming` draw the consequences: what the header map is, the
  prefix-free code, the exact effect of the body limit and of the header bounds, the
  chunked round trip, and when the reader can panic.
- `HttpFailures` characterises, both ways, the inputs that end in an I/O error, and says what
  an unterminated last line comes to.
- `HttpRefusals` does the same for every other refusal: each code of a bad request, too large,
  and the panic. With `ReaderExact` and `IoExact` the reader's answer to every stream is fixed.
- `HttpWriter` is the response writer and `HttpClient` a client that reads it back with the
  reader's own header loop; `FnAdapter`, `Dispatch`, `RequestId` and `RequestTarget` are the
  adapter.
- `FnMeaning` says what a request means on the entries of its header map and of its JSON body
  (method, path, content type, id, payload) and what answer that deserves, status, headers and
  body; lookups, decoder, routing and dispatcher are proved to compute exactly this.
- `FnEndToEnd` joins them: a client decodes exactly the dispatcher's response, and sees an
  acceptance exactly when the input begins with a message that has nothing wrong with it.
- `CloudEvents` compares the Fn adapter's payload decoder with the portable HTTP one.

**The mTLS TCP channel** (`TcpChannel`): one call on the framed channel as a method, and all
interleavings of concurrent, abandoned and late-answered calls as a step system; the method
is proved to do to the channel what a path of those steps does, and to end as it ends.

**The record-changed notifications** (`Notifications`): posted items, a 256-slot lossy
broadcast, socket loops, client refetches and the replies that posts swap in, as a step system
with lagging receivers.

**The JetStream status poll** (`JetStream`) and **the listener socket** (`ListenerSocket`):
a bounded polling loop, tied in the same way to a step system of reads and clock checks with
its correlation guarantee, and the remove/bind/chmod/symlink sequence over a file tree in
which any step may fail.

`Text`, `Utf8` and `Numerals` are the library facts the rest stands on: Unicode white space
and control characters, UTF-8, and integer parsing with Rust's rules.

## How the source is represented

- A byte is an integer below 256 and a Rust `String` is a sequence of Unicode scalar values.
  Lines are decoded from real UTF-8, so nothing is restricted to ASCII; lengths that the
  source takes with `len()` are lengths of the encoding.
- A connection is the finite sequence of bytes the peer sends and the bytes written back.
- `usize` is 64 bits. A `Vec` cannot exceed 2^63-1 bytes; a request that would make the
  reader ask for more is the outcome `Panic`, which is also where `start + size` would
  overflow.
- JSON parsing and printing are a parameter (`Json.Codec`); theorems that need a value to
  survive printing and parsing say so for that one value. The id that
  `generated_request_id` would return is a parameter; `RequestId.GeneratedIsId` proves its
  format acceptable.
- The order in which a `BTreeMap` is iterated is the order of its keys, which is proved
  (`HttpWriter.SortedAscends`) for the order the writer uses.
- The protocols are step systems: a run is any sequence of enabled steps, so all
  schedulings, timeouts and dropped requests are included.

## Findings

- With a body limit above 2^63-1 the reader can be made to panic by a single
  `Content-Length`; with any smaller limit it cannot, the growth of a `Vec` being taken as
  exact (`HttpFraming.NoPanicIff`). No request makes `start + size` overflow past the guard of
  the chunk loop exactly when the limit is not `usize::MAX`
  (`HttpFailures.GuardPreventsOverflow`). The default limit is far below both.
- `request_path` ends an authority only at `/`, so a target that has a query but no path is
  the root exactly when the query holds no slash, or nothing but white space between its first
  slash and the next `?` or `#` (`RequestTarget.NoPathIsRootIff`, `QueryMistakenForPath`).
  Extraction is idempotent exactly when its result holds no `://` (`RequestTarget.IdempotentIff`).
- A stream that ends in a decodable line without a newline is a bad request, whatever line
  that is, unless the line is a positive chunk size: then it is an I/O error if the limits
  would have allowed the chunk, and too large if not (`HttpFailures.UnendedLastLine`, with
  the input of `UnendedSizeIsIo`).
- One TCP call abandoned after its frame was queued makes every later call on that channel
  fail: they are turned away, never given another call's answer
  (`TcpChannel.AbandonedCallEndsSuccess`). A waiting call can still succeed exactly when the
  channel has no such lag, its token is valid, and its encoded frame is at most 20 KiB
  (`TcpChannel.CanReturnIff`). Validity alone does not ensure the last: JSON writes quotes and
  backslashes as two bytes, and a token of 16384 quotes is valid but never gets through
  (`TcpChannel.LongTokenNeverSucceeds`).
- Settled clients always show the whole list if and only if they heard of at least one event
  since they subscribed and their list was last written by a refetch, not by the reply to a
  post (`Notifications.WholeListShownIff`). An item announced between a page's first fetch and
  its subscription can stay invisible (`MissedBeforeSubscribing`); a blank title is answered by
  an alert that takes the place of the list until the next event (`BlankTitleHides`); and a
  reply overtaken by a refetch puts an older list in the place of a newer one
  (`StaleReplyHides`).
- The portable HTTP adapter cannot see header values that are not visible ASCII, while the
  Fn adapter reads any UTF-8 text. The two therefore disagree about the same bytes
  (`CloudEvents.HiddenVersionDisagrees`), exactly when the content type of an envelope, the
  version of a binary event, or an attribute of a complete one is hidden in this way
  (`CloudEvents.DecodersAgreeIff`).
- The Fn adapter accepts an empty body even where the portable adapter would reject the
  event's attributes (`CloudEvents.EmptyBodyAgreesIff`).

## Model

| member | source | states |
|---|---|---|
| `Utf8.DecodeOfEncode` | src/lambdas/src/bin/support/oracle_fn/http_stream.rs:157-172 | every text survives being written as bytes and read as a line's text |
| `Utf8.EncodeOfDecode` | src/lambdas/src/bin/support/oracle_fn/http_stream.rs:157-172 | a byte string that is valid UTF-8 has exactly one reading |
| `Numerals.ParseOfNumeral` | src/lambdas/src/bin/support/oracle_fn/http_stream.rs:104-107 | parsing a written decimal or hexadecimal number gives it back, up to `usize::MAX` |
| `Numerals.DigitIff` | src/lambdas/src/bin/support/oracle_fn/http_stream.rs:130 | the digits of each radix, in either letter case, and their values |
| `HttpReader.LineLength` | src/lambdas/src/bin/support/oracle_fn/http_stream.rs:157-164 | `read_line` stops right after the first newline or at the end of the stream |
| `HttpConnection.Connection.TakeLine` | src/lambdas/src/bin/support/oracle_fn/http_stream.rs:160-161 | the scanning loop takes exactly the next line and moves past it |
| `HttpConnection.Connection.ReadLine` | src/lambdas/src/bin/support/oracle_fn/http_stream.rs:157-172 | a line without its LF or CR LF, nothing at the end, or an I/O error if not UTF-8 |
| `HttpConnection.Connection.ReadBytes` | src/lambdas/src/bin/support/oracle_fn/http_stream.rs:111-112 | `read_exact` yields that many bytes or an I/O error |
| `HttpConnection.Connection.ReadHeaderLine` | src/lambdas/src/bin/support/oracle_fn/http_stream.rs:61-85 | one turn of the header loop, checks in the source's order |
| `HttpConnection.Connection.ReadHeaderLines` | src/lambdas/src/bin/support/oracle_fn/http_stream.rs:54-96 | the header loop with its running byte count and growing map computes the specification |
| `HttpConnection.Connection.ReadTrailerLines` | src/lambdas/src/bin/support/oracle_fn/http_stream.rs:133-139 | the trailer loop ends at the first blank line |
| `HttpConnection.Connection.ReadChunkData` | src/lambdas/src/bin/support/oracle_fn/http_stream.rs:147-152 | chunk data followed by exactly CR LF |
| `HttpConnection.Connection.ReadChunk` | src/lambdas/src/bin/support/oracle_fn/http_stream.rs:127-152 | one turn of the chunk loop, with the limit checked before anything is read |
| `HttpConnection.Connection.ReadChunkedBody` | src/lambdas/src/bin/support/oracle_fn/http_stream.rs:121-155 | the chunk loop appends to the body until the last chunk, and terminates |
| `HttpConnection.Connection.ReadFixedBody` | src/lambdas/src/bin/support/oracle_fn/http_stream.rs:103-113 | the announced number of bytes, refused if malformed or over the limit |
| `HttpConnection.Connection.ReadRequest` | src/lambdas/src/bin/support/oracle_fn/http_stream.rs:42-119 | the whole reader over the mutable stream equals its specification, position included |
| `HttpSyntax.ParsesIff` | src/lambdas/src/bin/support/oracle_fn/http_stream.rs:71-85 | a line is taken as a field exactly when it is that token and value amid white space, the name in any letter case |
| `HttpSyntax.StartIff` | src/lambdas/src/bin/support/oracle_fn/http_stream.rs:49-52 | a line is taken as a request line exactly when it is three words, the last naming a 1.x version |
| `HttpSyntax.NumberIff` | src/lambdas/src/bin/support/oracle_fn/http_stream.rs:104-107 | a length is read as a number exactly when it is white space, perhaps a plus, digits of that value, white space |
| `HttpSyntax.SizeIff` | src/lambdas/src/bin/support/oracle_fn/http_stream.rs:129-131 | a size line is read as a number exactly when it is that hexadecimal number and perhaps an extension |
| `HttpSyntax.SaysChunkedIff` | src/lambdas/src/bin/support/oracle_fn/http_stream.rs:98-101 | the body is taken as chunked exactly when the value holds that word in any letter case |
| `HttpGrammar.LineComplete` | src/lambdas/src/bin/support/oracle_fn/http_stream.rs:157-172 | a rendered line reads back, leaving exactly what follows it |
| `HttpGrammar.LineSound` | src/lambdas/src/bin/support/oracle_fn/http_stream.rs:157-172 | a line that was read and did not end the stream was some rendered line |
| `HttpGrammar.HeadersComplete` | src/lambdas/src/bin/support/oracle_fn/http_stream.rs:54-96 | any valid header section within both bounds is read whole, into the merged map |
| `HttpGrammar.HeadersSound` | src/lambdas/src/bin/support/oracle_fn/http_stream.rs:54-96 | what the header loop accepts was a valid section within both bounds |
| `HttpGrammar.ChunksComplete` | src/lambdas/src/bin/support/oracle_fn/http_stream.rs:121-155 | every valid chunked body decodes to the concatenation of its chunks |
| `HttpGrammar.ChunksSound` | src/lambdas/src/bin/support/oracle_fn/http_stream.rs:121-155 | whatever the chunk loop accepts was a valid chunked body |
| `HttpGrammar.ReaderComplete` | src/lambdas/src/bin/support/oracle_fn/http_stream.rs:42-155 | every well-formed message is accepted, whatever follows, and the reader stops at its end |
| `HttpGrammar.ReaderSound` | src/lambdas/src/bin/support/oracle_fn/http_stream.rs:42-155 | everything accepted is a well-formed message followed by the unread bytes |
| `HttpGrammar.ReaderExact` | src/lambdas/src/bin/support/oracle_fn/http_stream.rs:42-155 | acceptance with a given result holds if and only if some message denotes that result |
| `HeaderFields.CollectIsMerged` | src/lambdas/src/bin/support/oracle_fn/http_stream.rs:86-92 | insert-or-append builds the map of comma-joined values in arrival order |
| `HeaderFields.MergedIsClean` | src/lambdas/src/bin/support/oracle_fn/http_stream.rs:74-92 | merging keeps names lower-case tokens and values trimmed and control-free |
| `HttpFraming.AcceptedHeadersClean` | src/lambdas/src/bin/support/oracle_fn/http_stream.rs:74-92 | every accepted request's header map is clean |
| `HttpFraming.AcceptedHeadersMerged` | src/lambdas/src/bin/support/oracle_fn/http_stream.rs:54-96 | it begins with one request line, at most 127 field lines and a blank line, 65536 bytes of text in all; its headers join, in arrival order, the values of all lines that spell a name |
| `HttpFraming.HeaderBoundsExact` | src/lambdas/src/bin/support/oracle_fn/http_stream.rs:60-96 | valid lines are taken exactly when both bounds hold; else they are too large if the lines looked at are, and too many if not |
| `HttpFraming.AcceptedWhateverFollows` | src/lambdas/src/bin/support/oracle_fn/http_stream.rs:42-172 | an accepted request depends only on the bytes it consumed |
| `HttpFraming.NoPrefixAccepted` | src/lambdas/src/bin/support/oracle_fn/http_stream.rs:42-172 | no proper prefix of those bytes is a request |
| `HttpFraming.LimitIsFilter` | src/lambdas/src/bin/support/oracle_fn/http_stream.rs:98-147 | lowering the limit refuses, as too large, exactly the longer bodies; every other outcome is unchanged or becomes too large |
| `HttpFraming.NoPanicIff` | src/lambdas/src/bin/support/oracle_fn/http_stream.rs:104-147 | no input makes the reader panic if and only if the limit fits a `Vec` |
| `HttpFraming.ChunkedRoundTrip` | src/lambdas/src/bin/support/oracle_fn/http_stream.rs:121-155 | decoding undoes every chunked encoding, with extensions and trailers, and stops at its end |
| `HttpFailures.BreakIsIo` | src/lambdas/src/bin/support/oracle_fn/http_stream.rs:42-172 | each way of breaking off in data or at an undecodable line is an I/O error |
| `HttpFailures.IoExact` | src/lambdas/src/bin/support/oracle_fn/http_stream.rs:42-172 | reading fails with an I/O error if and only if the input breaks in one of those ways |
| `HttpFailures.UnendedLastLine` | src/lambdas/src/bin/support/oracle_fn/http_stream.rs:157-172 | a decodable last line without a newline is a bad request, except a positive chunk size: I/O error if the limits allow it, else too large |
| `HttpFailures.UnendedSizeIsIo` | src/lambdas/src/bin/support/oracle_fn/http_stream.rs:127-147 | a stream that ends in an unterminated chunk size is such an I/O error |
| `HttpFailures.GuardPreventsOverflow` | src/lambdas/src/bin/support/oracle_fn/http_stream.rs:142-146 | no request makes `start + size` overflow past the guard if and only if the limit is below `usize::MAX` |
| `HttpRefusals.BadFieldIff` | src/lambdas/src/bin/support/oracle_fn/http_stream.rs:71-85 | which of the three codes a line that is no field is refused with |
| `HttpRefusals.RefusalExact` | src/lambdas/src/bin/support/oracle_fn/http_stream.rs:42-172 | for every input, exactly when the reader refuses it, with each code of a bad request, as too large, or by a panic |
| `HttpRefusals.TooLargeIff` | src/lambdas/src/bin/support/oracle_fn/http_stream.rs:109-144 | too large if and only if an announced length, or the chunks so far and the next size, exceed the limit |
| `HttpRefusals.UnterminatedChunk` | src/lambdas/src/bin/support/oracle_fn/http_stream.rs:148-152 | a chunk within the limit that is not followed by CR LF is a bad request |
| `HttpWriter.SortedAscends` | src/lambdas/src/bin/support/oracle_fn/http_stream.rs:204 | header names are written in ascending order |
| `HttpWriter.WriteHttpResponse` | src/lambdas/src/bin/support/oracle_fn/http_stream.rs:192-216 | the writing loop appends exactly the response's bytes to the stream |
| `HttpWriter.AlwaysFramed` | src/lambdas/src/bin/support/oracle_fn/http_stream.rs:192-216 | for any map the output is the status line, one line for each entry that can be written in ascending order of name, the two closing lines, one blank line, the body |
| `HttpWriter.WritableAreWritten` | src/lambdas/src/bin/support/oracle_fn/http_stream.rs:204-208 | nothing is filtered from a map of tokens and values without line breaks |
| `HttpClient.ResponseReads` | src/lambdas/src/bin/support/oracle_fn/http_stream.rs:192-216 | what the reader's header loop makes of any written response within its bounds: every surviving entry, one length, one connection and the body, or which refusal |
| `HttpClient.ArrivesIff` | src/lambdas/src/bin/support/oracle_fn/http_stream.rs:204-227 | the response is read exactly when no surviving value has a control character inside and no surviving name is a length; then exactly the surviving headers arrive, trimmed |
| `FnAdapter.WriteFnResponse` | src/lambdas/src/bin/support/oracle_fn/http_stream.rs:174-190 | length and connection headers are replaced, type, logical status and version added |
| `FnAdapter.HandleStream` | src/lambdas/src/bin/support/oracle_fn/mod.rs:71-162 | one connection: what is written is the answer to what was read |
| `FnAdapter.FirstHeader` | src/lambdas/src/bin/support/oracle_fn/mod.rs:263-274 | the trimmed value of the first candidate that is not blank, or none exactly if all are missing or blank |
| `FnMeaning.SaidIff` | src/lambdas/src/bin/support/oracle_fn/mod.rs:263-274 | a lookup finds exactly what the first header that is not blank says |
| `FnMeaning.MethodIff` | src/lambdas/src/bin/support/oracle_fn/mod.rs:130-132 | the method is what `fn-http-method` says, or the route's own |
| `FnMeaning.PathIff` | src/lambdas/src/bin/support/oracle_fn/mod.rs:133-135 | the path is that of the URL `fn-http-request-url` says, or the route's own |
| `FnMeaning.TypeIff` | src/lambdas/src/bin/support/oracle_fn/mod.rs:136-141 | the content type is what either of its two headers says, in lower case |
| `FnMeaning.IdIff` | src/lambdas/src/bin/support/oracle_fn/mod.rs:116-129 | the id is what is left of the first of seven headers that says anything, else a fresh one |
| `FnMeaning.DecodesIff` | src/lambdas/src/bin/support/oracle_fn/mod.rs:164-220 | the decoder accepts and refuses exactly as the entries of the event or its headers deserve, with that payload or the code of the first defect |
| `FnMeaning.SuppliedIff` | src/lambdas/src/lib.rs:414-424 | the required value is there exactly when the entry is no null, blank text, empty array or empty object |
| `FnMeaning.DispatchReplies` | src/lambdas/src/lib.rs:122-161 | for every request the status, headers and body of the reply, each status exactly when its condition holds |
| `FnMeaning.AnsweredAsUnderstood` | src/lambdas/src/bin/support/oracle_fn/mod.rs:116-161 | every request is answered as what its headers and body say deserves |
| `FnMeaning.FnHeadersExact` | src/lambdas/src/bin/support/oracle_fn/http_stream.rs:174-190 | what is sent for any response: its own headers, the logical status, the version and a content type |
| `FnEndToEnd.DeliveryRoundTrip` | src/lambdas/src/bin/support/oracle_fn/http_stream.rs:174-216 | a client decodes exactly the outer status and the function's response |
| `FnEndToEnd.SentAsSaid` | src/lambdas/src/bin/support/oracle_fn/http_stream.rs:174-216 | the headers and body a client gets, transport headers and the stand-in for an unprintable body included |
| `FnEndToEnd.AnswerIsWellMade` | src/lambdas/src/bin/support/oracle_fn/mod.rs:116-161 | every answer has clean, short headers that cannot clash with the transport's |
| `FnEndToEnd.EndToEnd` | src/lambdas/src/bin/support/oracle_fn/mod.rs:71-162 | for every well-formed message the client recovers status 200 and the answer, with status, headers and body, that its headers and body deserve |
| `FnEndToEnd.FailuresAnswered` | src/lambdas/src/bin/support/oracle_fn/mod.rs:74-114 | for every other input the client recovers 502 and 500, 413 with the limit, or 400 with the code, as what is wrong with it deserves |
| `FnEndToEnd.CrashesIff` | src/lambdas/src/bin/support/oracle_fn/mod.rs:74-114 | the process dies exactly when the reader panics |
| `FnEndToEnd.TotalClassification` | src/lambdas/src/bin/support/oracle_fn/mod.rs:71-162 | nothing is written iff nothing was sent; else one response, 502 iff reading failed with I/O |
| `FnEndToEnd.FramingIndependence` | src/lambdas/src/bin/support/oracle_fn/mod.rs:116-161 | same body and other headers, however framed, give byte-identical responses |
| `FnEndToEnd.AcceptedIffAcceptable` | src/lambdas/src/lib.rs:122-161 | for every input the client recovers 202 iff it begins with a well-formed message whose payload, path, method (any case) and required value are right |
| `FnEndToEnd.InvocationAnswered` | src/lambdas/tests/oracle_fn_process.rs:152-213 | any sendable fields, either framing: the client recovers the answer that the caller's headers and body deserve |
| `RequestId.SanitizeRequestId` | src/lambdas/src/bin/support/oracle_fn/mod.rs:276-287 | what survives is the first 128 permitted characters in their order, at least one |
| `RequestId.PermittedIff` | src/lambdas/src/bin/support/oracle_fn/mod.rs:280-283 | the permitted characters are ASCII letters, digits and five marks |
| `RequestId.SanitizeKeepsIds` | src/lambdas/src/lib.rs:383-394 | an id that is already sanitised is unchanged |
| `RequestId.RefusedIffNothingLeft` | src/lambdas/src/bin/support/oracle_fn/mod.rs:276-287 | refused exactly when no permitted character occurs |
| `RequestId.GeneratedIsId` | src/lambdas/src/bin/support/oracle_fn/mod.rs:289-295 | generated ids are themselves sanitised |
| `RequestId.GeneratedIdsDiffer` | src/lambdas/src/bin/support/oracle_fn/mod.rs:289-295 | different processes or moments never generate the same id |
| `RequestTarget.PathIsClean` | src/lambdas/src/bin/support/oracle_fn/mod.rs:222-245 | always a trimmed path starting with `/`, without `?` or `#` |
| `RequestTarget.RequestPathIs` | src/lambdas/src/bin/support/oracle_fn/mod.rs:222-245 | the path of any target whatever, by trimming, cutting and rooting it |
| `RequestTarget.BareName` | src/lambdas/src/bin/support/oracle_fn/mod.rs:240-244 | a bare name is a path under the root |
| `RequestTarget.AbsoluteForm` | src/lambdas/src/bin/support/oracle_fn/mod.rs:222-245 | the path of `scheme://authority/path?query#fragment` |
| `RequestTarget.OriginForm` | src/lambdas/src/bin/support/oracle_fn/mod.rs:222-245 | the path of an origin-form target that holds no `://` |
| `RequestTarget.AuthorityOnly` | src/lambdas/src/bin/support/oracle_fn/mod.rs:224-229 | a target with nothing after its authority is the root |
| `RequestTarget.NoPathIsRootIff` | src/lambdas/src/bin/support/oracle_fn/mod.rs:222-245 | exactly when a target with a query and no path is the root, and what it is otherwise |
| `RequestTarget.QueryMistakenForPath` | src/lambdas/src/bin/support/oracle_fn/mod.rs:224-229 | an input where a slash in the query becomes the path |
| `RequestTarget.IdempotentIff` | src/lambdas/src/bin/support/oracle_fn/mod.rs:222-245 | extraction is idempotent exactly when the result holds no `://` |
| `RequestTarget.NotAlwaysIdempotent` | src/lambdas/src/bin/support/oracle_fn/mod.rs:222-245 | a concrete target on which it is not |
| `CloudEvents.DecodersAgree` | src/lambdas/src/lib.rs:304-354 | on the same bytes both adapters accept the same events with the same payload once headers that are not visible ASCII are left out |
| `CloudEvents.DecodersAgreeIff` | src/lambdas/src/lib.rs:373-382 | exactly when they agree about a non-empty body with every header kept |
| `CloudEvents.HiddenVersionDisagrees` | src/lambdas/src/lib.rs:373-382 | the same accented version is refused by one and ignored by the other |
| `CloudEvents.ReasonsAgreeIff` | src/lambdas/src/bin/support/oracle_fn/mod.rs:164-220 | when both refuse, exactly when they give the same reason, for any headers |
| `CloudEvents.EmptyBodyAgreesIff` | src/lambdas/src/bin/support/oracle_fn/mod.rs:169-171 | on an empty body, exactly when they agree, for any headers |
| `CloudEvents.StructuredEventHasId` | src/lambdas/src/lib.rs:317-333 | an accepted structured event carries a non-blank id |
| `CloudEvents.HttpDecodesIff` | src/lambdas/src/lib.rs:304-354 | the HTTP decoder accepts and refuses exactly as the entries of the event or its headers deserve, with that payload and id or that code |
| `TcpChannel.Channel.Cases` | src/data_plane.rs:370-420 | a payload is returned exactly when the frame was sent and its own success with that payload came; with an honest peer it is a path of the step system, from lag zero |
| `TcpChannel.FrameLengthIs` | src/data_plane.rs:377-386 | a frame is 147 bytes, the token's own, and one more for each quote or backslash in it |
| `TcpChannel.InvStep` | src/data_plane.rs:370-407 | every step of every interleaving keeps the channel's invariant |
| `TcpChannel.Correlation` | src/data_plane.rs:370-407 | a returned payload was computed for that call's own id, tenant and bearer; no frame is handed out twice |
| `TcpChannel.LagNeverDecreases` | src/data_plane.rs:387-403 | frames queued minus frames taken, at call starts, never decreases |
| `TcpChannel.ReturnNeedsZero` | src/data_plane.rs:387-403 | a call succeeds only from lag zero |
| `TcpChannel.LaggedForever` | src/data_plane.rs:387-403 | once lagging, no further call ever succeeds |
| `TcpChannel.DropInFlightLags` | src/data_plane.rs:393-396 | abandoning a queued call raises the lag by one |
| `TcpChannel.AbandonedCallEndsSuccess` | src/main.rs:224-233 | after one such abandonment every other call is rejected |
| `TcpChannel.CanReturnIff` | src/data_plane.rs:370-407 | a waiting call can still return any given payload if and only if the start lag is zero, its token valid and its frame short enough, whoever holds the lock |
| `TcpChannel.LongTokenNeverSucceeds` | src/data_plane.rs:377-417 | a valid token whose call never succeeds, even without lag |
| `Notifications.Accept` | src/main.rs:351-359 | the title without the white space around it, refused if blank; the summary whole or its first 4000 characters |
| `Notifications.Board.CreateItem` | src/main.rs:347-365 | push, then announce, then reply with the list; a refused title changes nothing and is answered by the alert |
| `Notifications.PostIsCreateItem` | src/main.rs:347-365 | the steps of an undisturbed post do to the board, and reply, what that method does |
| `Notifications.InvStep` | src/main.rs:347-389 | every step keeps what settled clients are promised |
| `Notifications.Convergence` | src/main.rs:347-389 | a settled client whose list was last written by a refetch shows every item announced since it subscribed, across any lag |
| `Notifications.WholeListShownIff` | src/main.rs:324-389 | with no creator between push and send, settled clients always show the whole list iff they heard of an event and a refetch, not a reply, was last |
| `Notifications.OwnItemShown` | src/main.rs:351-364 | the reply to an accepted post lists the item it created |
| `Notifications.BlankTitleHides` | src/main.rs:351-354 | after any number of events, a run in which a blank title leaves the alert in place of the list |
| `Notifications.StaleReplyHides` | src/main.rs:324-365 | a run in which a reply puts an older list in place of a newer one |
| `Notifications.MissedBeforeSubscribing` | src/main.rs:332-334 | a run in which an item announced before subscribing stays invisible |
| `Notifications.DrainsInBoundedSteps` | src/main.rs:371-388 | a receiver lagging by any amount is drained by at most 257 receives; more than 256 behind, it loses all but the last 256 events |
| `JetStream.Status` | src/data_plane.rs:573-632 | at most 101 polls in ten seconds; the last one decides: ready exactly for the one favourable message; the loop ends as its steps end |
| `JetStream.SubjectsDiffer` | src/data_plane.rs:594 | distinct operations use distinct response subjects |
| `JetStream.SuccessWasAnswered` | src/data_plane.rs:573-632 | over all runs of reads and clock checks, success means the responder answered this very operation |
| `JetStream.FiledIsDelivered` | src/data_plane.rs:597-632 | a valid reply that is under its own subject from before a read on is what the operation ends with |
| `ListenerSocket.BothSpellings` | src/lambdas/src/bin/support/oracle_fn/socket.rs:11-30 | `unix:` and `unix://` name the same absolute path |
| `ListenerSocket.ParseUriIff` | src/lambdas/src/bin/support/oracle_fn/socket.rs:11-30 | exactly which values name which path |
| `ListenerSocket.FileTree.RemovePrevious` | src/lambdas/src/bin/support/oracle_fn/socket.rs:63-81 | sockets and links are removed, anything else is refused, and so is a path that cannot be looked up |
| `ListenerSocket.FileTree.BindListener` | src/lambdas/src/bin/support/oracle_fn/socket.rs:32-61 | the tree each stopping point leaves |
| `ListenerSocket.TouchesOnlyTwoPaths` | src/lambdas/src/bin/support/oracle_fn/socket.rs:32-61 | on every outcome only the public and phony paths change |
| `ListenerSocket.NeverRemovesFiles` | src/lambdas/src/bin/support/oracle_fn/socket.rs:67-75 | regular files and directories survive every attempt |
| `ListenerSocket.SucceedsIffBindable` | src/lambdas/src/bin/support/oracle_fn/socket.rs:32-61 | exactly when binding succeeds, and the tree it leaves |
| `ListenerSocket.SecondRemovalRefused` | src/lambdas/src/bin/support/oracle_fn/socket.rs:51-52 | when only the second removal is refused, the public entry alone is gone |
| `ListenerSocket.AttemptExact` | src/lambdas/src/bin/support/oracle_fn/socket.rs:32-61 | the tree every attempt leaves, told from the tree it started with |
| `ListenerSocket.PublicPathResolves` | src/lambdas/src/bin/support/oracle_fn/socket.rs:54-60 | the public path then leads to the bound socket |
| `ListenerSocket.RestartsKeepSucceeding` | src/lambdas/src/bin/support/oracle_fn/socket.rs:32-81 | after any earlier starts, failed ones included, a fault-free start binds |

## Left out

- Transport failures other than the end of the stream, and failed writes: the peer's bytes are a finite sequence and writing succeeds.
- Memory exhaustion below the `Vec` bound: allocation of a permitted size is taken to succeed.
- `HttpFraming.NoPanicIff`: the growth of a `Vec` is taken as exact; growth by doubling, whose capacity can exceed the bound for bodies beyond 2^62 bytes in several chunks, is not modelled.
- JSON text itself, TLS and certificates, HTTP client and server libraries, the frame codec and the broker client: only the values, frames and outcomes they hand over are modelled.
- `CloudEvents.DecodersAgreeIff`: covers requests that give each header once; repeated headers are not modelled, because the two libraries combine them differently.
- `TcpChannel.Channel.Cases`: the two bounded waits' outcomes come from the environment, because the runtime and the frame codec are not in the repository.
- `Notifications.Convergence`: assumes messages sent on an open socket arrive, and that the list section and the form each have one request under way and the section one more refetch if it heard anything meanwhile, because both are library behaviour; HTML rendering is not modelled.
- `JetStream.Status`: each direct read returns and each sleep lasts at least its interval; a failing publish is one outcome, and the signal's own size check is not modelled because its text has a fixed length.
- `ListenerSocket.FileTree.BindListener`: a path is a parent and a name, so the errors for paths without either are not modelled, and links inside the parent path are not followed.
- The portable HTTP adapter's routing, its size cap loop and its port choice, and the AWS envelope adapter.
- In the web server: direct database reads, the stateless HTTP avenue, authentication, header extraction and error mapping.
- Logging, process start-up, environment reading, scripts, containers and platform manifests.

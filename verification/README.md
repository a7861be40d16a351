# Verification of the WIC websocket library

WIC is a websocket client in C for small devices. It has a resumable frame
parser, a sender that keeps the fragmentation rules, the opening handshake with
its own SHA-1 and base64, and an HTTP and URL parser. This project models these
parts in Dafny and proves what holds for every input, every split of the input
into calls, and every run of calls.

An instance is the class `Instance.Wic`: the fields of `wic_inst`, the receive
buffer as an array, and the methods of the library. Ghost fields record what is
observable: `log` (what the host was told, in order), `sent` with `keys` (the
frames that went out), and `wire` (their octets).

Its host is an arbitrary `Instance.Host`, fixed with the instance: functions that
answer every request for a buffer, every request for a key and every message
offered, each from all that it has been asked before. `asked` and `offered` are
these questions. So a host may refuse a delivery once or for ever, have buffers
or have none, send from inside a callback or close from inside it; and what a
method returns is stated exactly by what the host answered.

The main results, each over values that a reader can check by hand:

- **Receiving.** `Receiver` is the frame machine over single octets. `Decoder`
  reads a whole buffer frame by frame, as sections 5.2 to 5.5 of RFC 6455 say.
  The machine refines the decoder (`Refinement.DecoderRefined`), the methods of
  the class refine the machine (`Instance.Wic.ParseFrames`), and so whatever the
  split and the refusals on the way, the host sees what the decoder reads
  (`Receiver.NothingIsLost`, `Refinement.CallsDecode`). A call stops early exactly
  if the host refused what it was offered or had no buffer for a pong; a host that
  is always ready gets everything.
- **Sending.** Every run of send and close calls, failed ones included, puts a
  legal run of frames on the wire (`SendValid`, kept by every method). Each call
  succeeds exactly if the frame may follow, fits, and the host has a buffer.
- **Closing.** What closes a receiver, octet by octet, how a peer's close frame
  is answered, and that host and peer are told the same, is stated in the terms of
  sections 5.5 and 7.4 of RFC 6455 (`Closings`).
- **Both ends.** What one instance sends arrives whole and in order at another,
  in any split (`Endpoints.WireArrives`, `Endpoints.Relay`).
- **Text.** Deliveries are safe UTF-8 at all times, and 1007 comes at the first
  octet that cannot be repaired (`TextSafety`, `Utf8`).
- **Handshake.** In every run, an open client has received a complete response
  that is accepted with the headers read back of it: this is part of
  `Client.Valid`, over all octets of the response from the first on. Presented in
  any pieces, a connection is waiting, failed or open just as one run of the
  octet machine over all octets finds, and frames begin right behind the response
  (`Sessions.Converse`, `Sessions.SessionDecodes`). When the headers read back
  differ from those received, or do not fit the buffer, and when that matters, is
  proved exactly (`HeaderStrings`, `Decisions`, `Misleading`).
- **The request.** Of any URL that is accepted, a reader that shares nothing with
  the writer finds method, target, version and exactly the headers of the
  handshake (`Requests`).
- **HTTP.** `Http` is the response parser over single octets. The class
  `HttpExecute.Parser`, with its marks and its loops over whole stretches,
  refines it. Heads, lengths, chunked bodies and trailers round trip from the
  first octet on; what follows a head is stated by its text (`HttpLengths`), and so
  is which first lines and header lines are refused (`HttpRefusals`).
- **SHA-1, base64, URL.** The circular schedule and the streaming context refine
  FIPS 180-4, the accumulator loop refines section 4 of RFC 4648, and the two URL
  automata do on every input what splitting it at its first marks does
  (`UrlSplit.SplitsExactly`).

`dafny verify dfyconfig.toml` verifies everything.

## Model

| member | source | states |
|---|---|---|
| Utf8.AcceptsExactlyWellFormed | src/wic.c:2084-2131 | The table automaton ends in its accepting state exactly if the octets are a concatenation of the sequences of section 4 of RFC 3629 |
| Utf8.InvalidExactlyUnrepairable | src/wic.c:2084-2131 | It is in its invalid state exactly if no continuation makes the octets well-formed; from every other state a completion is given |
| Utf8.InvalidIsTrap | src/wic.c:2084-2108 | The invalid state is never left |
| Utf8.ParseString | src/wic.c:2110-2121 | The loop over a string is the run of the automaton over it, from any state |
| Frames.OpcodeRoundTrip | src/wic.c:1511-1519 | Opcodes survive their octet, also next to the final flag |
| Frames.FirstOctets | src/wic.c:1511-1519 | The numbers of the opcodes, next to the final flag, are those of section 5.2 of RFC 6455 |
| Frames.ApplyInvolution | src/wic.c:1748-1753 | Masking twice with one key gives the payload back (section 5.3 of RFC 6455) |
| Frames.EncodedSize | src/wic.c:709-734 | A frame occupies exactly the octets that are asked of the host for it |
| Frames.HeaderRoundTrip | src/wic.c:1594-1671 | Of any written frame, whatever follows, a reader finds flags, opcode, key and where the masked payload starts; and its length exactly if that is below 2^16 |
| Receiver.ConsumeValid | src/wic.c:869-1182 | Every octet keeps the receive invariant: buffer within capacity, a control frame always fits, fragmentation state and opcode agree |
| Receiver.DeliverValid | src/wic.c:1184-1311 | So does every delivery |
| Receiver.NothingIsLost | src/wic.c:1112-1133 | Over any sequence of calls, with any refused deliveries: once nothing is owed, the connection is where an always-ready host would have brought it with all octets taken at once |
| Receiver.CallsFollow | src/wic.c:560-615 | The same in the middle of a run, up to the one delivery that is owed |
| Decoder.SplitIndependent | src/wic.c:560-611 | Any split of the octets into calls gives the same events and the same state |
| Refinement.DecoderRefined | src/wic.c:869-1314 | With an always-ready host, the octet machine of the parse functions shows exactly the events of the whole-buffer decoder, and is closed exactly when that stops at a fault or a close frame |
| Refinement.CallsDecode | src/wic.c:560-615 | For calls in any split and with refused deliveries: when nothing is owed, the log has grown by exactly what the decoder reads in all octets taken |
| TextSafety.EveryRunIsSafe | src/wic.c:1188-1216 | In any run every finished text delivered is well-formed as a whole, every piece can still become so, and pieces carry the encoding of their message; when the text closes instead, see the next row |
| TextSafety.FailsExactlyWhenUnrepairable | src/wic.c:1147-1219 | After any octets whatever, the next octet of a text closes exactly if no continuation can repair the message, or it ends the message inside a character; then the code is 1007 |
| TextSafety.RefusedExactlyWhenUnrepairable | src/wic.c:1149-1157 | The same for one octet from any tracked state, with the validator state that is kept otherwise |
| TextSafety.RunTracks | src/wic.c:869-1314 | The saved validator states are those of the message so far, across fragments, flushes and control frames |
| Payloads.DeliveredWhole | src/wic.c:1112-1133 | The pieces in which a message frame is delivered join to its payload, have one encoding, none exceeds the buffer, and only the last carries the final flag |
| Payloads.UnmaskExact | src/wic.c:1748-1753 | Indexing the key by buffer position unmasks every payload of n octets under every key exactly if n does not exceed the capacity or the capacity is a multiple of four |
| Payloads.UnmaskExactForKey | src/wic.c:1748-1753 | For one key, exactly if the key octets agree wherever the receiver looks |
| EndToEnd.FrameArrives | src/wic.c:1594-1688 | One frame as written is one frame received, with its own payload and outcome |
| EndToEnd.ControlFrameKept | src/wic.c:466-498 | A ping or pong as the sender lets it out leaves the receiver open exactly if it has at most 125 octets and fits the receive buffer; otherwise it closes with 1002 or 1009 |
| EndToEnd.RunArrives | src/wic.c:869-1314 | A legal run of frames, read by the octet machine, causes no close and is received as the same messages in order, with a reply to every ping |
| Endpoints.WireArrives | src/wic.c:330-498 | What the send calls of one instance have put on the wire, taken by another in any number of calls with any refusals, has arrived: states in step, messages whole and in order, pings answered |
| Endpoints.StaysOpen | src/wic.c:869-1314 | Nothing of what the other instance has sent, cut off anywhere, closes the receiver |
| Endpoints.Relay | src/wic.c:500-616 | The same for a transport that presents pieces of any sizes again from where the receiver stopped, with the two instances as objects; the receiver is open exactly unless its own host closed it, and with a host that is always ready everything arrives as soon as all has been presented |
| Sender.TextStep | src/wic.c:379-443 | The validator state that a sender keeps is that of its unfinished text, and accepted text may follow |
| Sender.TextRefused | src/wic.c:397-420 | Text that the validator refuses could not legally follow |
| Lifecycle.EndsOnce | src/wic.c:770-857 | In an orderly log each kind of ending occurs at most once, and nothing is delivered or answered after one; every method of the instance keeps its log orderly |
| Lifecycle.RunClosesRightly | src/wic.c:946-1277 | Whatever a peer sends, the receiver closes with codes that section 7.4.1 of RFC 6455 allows on the wire |
| Closings.FirstOctetDecides | src/wic.c:869-944 | The first octet of a frame closes the connection, with 1002, exactly if a reserved bit is set, the opcode is reserved, a control frame is not final, nothing is there to be continued, or a message begins inside another |
| Closings.SecondOctetDecides | src/wic.c:946-1021 | The second octet closes it exactly for a control frame that is too long for the protocol or the buffer, a close frame without a whole code, or a text that ends with it inside a character; each with its own code |
| Closings.CloseRefused | src/wic.c:946-1021 | A whole close frame of a length that is refused, under any key: 1000, 1002 or 1009 |
| Closings.CloseAnswered | src/wic.c:1233-1275 | A whole close frame of any other length, under any key: a registered code with a well-formed reason is given back and reported, 3000 to 4999 gives 1000, any other code or a reason cut off inside a character 1002, and one that cannot be repaired 1007 |
| Closings.ToldAlike | src/wic.c:770-857 | The host is told of the code and the reason that its peer is sent, if the host has the buffers and the code may be written |
| Closings.PeerAnswered | src/wic.c:560-857 | So the peer gets as the last frame of the instance its own payload, or the code alone that its mistake calls for |
| Instance.Wic.constructor | src/wic.c:238-262 | A fresh client instance satisfies the invariant, with empty log and wire |
| Instance.Wic.AllowedToSend | src/wic.c:859-867 | Sending is allowed in READY and OPEN, and the first send opens |
| Instance.Wic.Transmit | src/wic.c:1594-1688 | Exactly one buffer is asked for, of the kind and size of the frame: too large exactly if it exceeds what the host ever gives, no buffer exactly if the host has none, and otherwise the frame is on the wire and the state for the next is taken over |
| Instance.Wic.SendBinary | src/wic.c:330-377 | Which status is returned exactly when: wrong state exactly if the frame may not follow what was sent, and then success, no buffer or too large by what the host answers to this one request; on success exactly this frame goes out under the key drawn for it, otherwise nothing changes |
| Instance.Wic.SendText | src/wic.c:379-443 | The same for text: wrong state exactly if a binary message is in progress, wrong input exactly if the text could otherwise not legally follow, so far or as a whole; in both cases no buffer is asked for |
| Instance.Wic.SendPing | src/wic.c:466-498 | The same for pings, which leave the fragmentation state alone |
| Instance.Wic.SendPong | src/wic.c:736-768 | A pong carries the payload of the ping and goes out exactly if the host has a buffer for it; otherwise nothing changes |
| Instance.Wic.PutFrame | src/wic.c:1594-1688 | The buffer filled is the frame, octet for octet, in exactly the size asked for |
| Instance.Wic.CloseWithReason | src/wic.c:770-857 | Closes from any state; a second close does nothing. From READY or OPEN a close frame goes out exactly if the code is not a local one, the frame fits and the host has a buffer, without a reason that is not UTF-8; the host is told what belongs to the state |
| Instance.Wic.PutClosing | src/wic.c:830-845 | This one frame is tried, and nothing else; no code that is for local use comes so far |
| Instance.Wic.ParseOpcode | src/wic.c:869-944 | One octet: the model consumes it, with the fragmentation rules and the reserved bits |
| Instance.Wic.CheckOpcode | src/wic.c:900-940 | Refused exactly if a frame may not start so in this fragmentation state; a continued text goes on with its saved validator state |
| Instance.Wic.ParseSize | src/wic.c:946-1021 | One octet: the short length or the announcement of a long one, with the limits of control frames |
| Instance.Wic.ParseExtendedSize | src/wic.c:1023-1071 | One octet of a 16-bit or 64-bit length |
| Instance.Wic.ParseMask | src/wic.c:1073-1104 | One octet of the key |
| Instance.Wic.Flush | src/wic.c:1112-1133 | A full buffer is offered exactly once, as the message that the model owes; the call is blocked exactly if the host refuses it, and then nothing changes; accepted, the model has delivered it |
| Instance.Wic.TakeOctet | src/wic.c:1135-1179 | One payload octet is unmasked, stored and validated as the model says, also when the connection closes on it |
| Instance.Wic.OnMessage | src/wic.c:1112-1133 | The host is offered the contents of the buffer with encoding and final flag, and its answer decides what happened |
| Instance.Wic.FinishText | src/wic.c:1188-1219 | A text that ends inside a character closes with 1007 and is not offered; else it is offered, and blocked exactly if refused |
| Instance.Wic.FinishBinary | src/wic.c:1221-1231 | A binary message is offered in any case, and blocked exactly if refused |
| Instance.Wic.FinishClose | src/wic.c:1233-1275 | A close frame is answered with the code and reason of the model, out of a buffer for answers if the host has one |
| Instance.Wic.FinishPing | src/wic.c:1277-1290 | A ping is answered with its payload, or blocked exactly if the host has no buffer for a pong that fits |
| Instance.Wic.Finish | src/wic.c:1184-1311 | The end of a frame: the host is offered exactly what the model owes; the call is blocked, with nothing changed, exactly if it refused or had no buffer for a pong; otherwise delivered, answered or closed as the model says |
| Instance.Wic.ParseData | src/wic.c:1106-1314 | Both halves together are a stretch of the model's run |
| Instance.Wic.ParseStep | src/wic.c:562-609 | One round is a stretch of the model's run, and unless it blocks it strictly decreases twice the unread octets plus one for an owed delivery |
| Instance.Wic.ParseFrames | src/wic.c:560-615 | The loop terminates. It has brought host and connection where an always-ready host would be with the octets taken; something is owed at its end exactly if the host refused the last message offered or had no buffer for the last pong; and with a host that is always ready all octets are taken, unless the connection closed, with the log of one run |
| Instance.Wic.ReachedFollows | src/wic.c:560-615 | A call in which the host did not close is one step of a sequence of calls |
| Instance.Wic.Refuse | src/wic.c:521-539 | A failed handshake closes the transport and tells the host once, in this order |
| Instance.Wic.Establish | src/wic.c:540-552 | After the opening the instance is open in any case, so its invariant holds exactly if the host did not close it when told; no message is offered |
| Headers.CutsDoNotMatter | src/wic.c:1825-1867 | However names and values are cut into pieces, the same headers are collected |
| Headers.Store.Append | src/wic.c:1566-1592 | One write is kept whole or not at all, and nothing is kept behind a write that did not fit |
| Headers.Store.OnHeaderField | src/wic.c:1825-1845 | The writes so far join to the flattening of what was spelled; the buffer keeps each whole or not at all, and none behind the first that did not fit; so every header that fits is kept whole |
| Headers.Store.OnHeaderValue | src/wic.c:1847-1867 | The same for values; a value before any name is refused and changes nothing |
| Headers.Store.Finish | src/wic.c:1976-1982 | At the end memory begins with the flattening of all headers if they fit, and else with every header that fits and perhaps a part of the next |
| Headers.Store.StrEqual | src/wic.c:1881-1908 | Compares a string in memory with a name, letters without case, in any memory |
| Headers.Store.Get | src/wic.c:630-649 | The walk, over any octets in memory: finds the value of the first string pair whose first matches, or none |
| Headers.Store.GetNext | src/wic.c:664-686 | Iteration gives the string pairs in order, over any octets in memory |
| Headers.Store.RewindNext | src/wic.c:659-662 | Iteration starts again |
| Headers.LookupFirst | src/wic.c:630-649 | A lookup is the first match ignoring case, and fails exactly if there is none |
| HeaderStrings.StoredIs | src/wic.c:630-649 | What is read back of any head that came through the parser: its strings in pairs, a NUL in front of a value making one string more |
| HeaderStrings.StoredExactly | src/wic.c:664-686 | The headers are read back as received exactly if no value begins with NUL |
| HeaderStrings.LookupsExactly | src/wic.c:623-657 | In a head without repeated names all lookups are right exactly if no value begins with NUL |
| HeaderStrings.FoundBefore | src/wic.c:623-657 | A header before any such value is found, with its own value |
| Responses.AcceptedExactly | src/wic.c:1968-2046 | A head in which nothing is about a body is accepted exactly if it is status 101 with Upgrade naming websocket, a Connection header, and the hash of the key followed by the GUID in base64; its headers in any order and among others |
| Decisions.DecisionRight | src/wic.c:1984-2043 | For any head in any buffer, whatever memory holds behind it: the decision is that over the headers if all fit and no value begins with NUL, or if those that fit settle it up to the first that does |
| Decisions.DecisionExactly | src/wic.c:1984-2043 | Of heads that fit, given the headers up to the first value that begins with NUL: the decision is right however they go on exactly if it is settled by then |
| Decisions.ReliableExactly | src/wic.c:1968-2046 | Of all heads, given headers that are stored whole: the decision is right however the head goes on, how much of that is stored and whatever memory holds behind, exactly if these headers settle it |
| Misleading.Misled | src/wic.c:1984-2043 | For every key a complete response that the parser lets through, that upgrades to another protocol, and that is accepted |
| Misleading.MisledByOverflow | src/wic.c:1968-2046 | For every key a complete response that upgrades to another protocol, and that is accepted when the buffer is full inside its last value |
| Misleading.Overflow | src/wic.c:1825-1867 | The callbacks that fill a buffer so, from a fresh store on |
| Handshake.ServerHash | src/wic.c:1869-1879 | The hash computed in two pieces is SHA-1 of the key followed by the GUID |
| Handshake.Client.constructor | src/wic.c:238-262 | A fresh client, whatever memory holds beyond its receive buffer: by its invariant the parser is at the start of a response and nothing has been heard |
| Handshake.Client.Start | src/wic.c:1382-1496 | Each status exactly when, with the buffer of the host and the random octets as inputs: wrong state, wrong URL, no buffer, a request longer than the buffer; on success the request goes out octet for octet with these octets in base64 as key, and the expected hash is that of this key |
| Handshake.Client.PutRequest | src/wic.c:1404-1459 | The octets of the request line, the host, the key and the further headers, in order, or an error if they do not fit |
| Requests.RequestRead | src/wic.c:1404-1459 | Of any URL that is accepted, a reader finds GET, the path with query and fragment, HTTP/1.1, and then exactly Host, Upgrade, Connection, Sec-WebSocket-Version, Sec-WebSocket-Key with the base64 of the random octets, and the headers of the application in order |
| Requests.TargetOf | src/wic.c:1406-1416 | Of a URL in parts the target is all that stands behind the server; it is a path exactly if the URL has one, and has a fragment exactly if the URL has one |
| Requests.HostOf | src/wic.c:1418-1425 | The Host header says host and port as the URL does exactly if the host is a name and the port not 0 |
| Handshake.Client.OnResponseComplete | src/wic.c:1968-2046 | Refused exactly if the response is not accepted with the headers as they are read back, of a head that fits or of what is kept of it; the redirect address is the stored location of a redirecting status |
| Handshake.Client.GetHeader | src/wic.c:623-657 | A value is found exactly if headers may be asked for and the strings in memory have one of that name |
| Handshake.Client.Hear | src/wic.c:507-519 | The octets of one call behind all former ones: in error exactly if the octet machine is, over all of them, or the response is refused; ready exactly if it is over and accepted; else the parser is where the octet machine is |
| Handshake.Client.Tell | src/wic.c:521-552 | The host is told of a failure by its reason, or of the opening, once, and of nothing while the response is not over |
| Handshake.Client.ParseHead | src/wic.c:509-557 | The outcome of the handshake for the host: told of failure with the right reason, told of the opening right behind the response, or waiting with all octets heard |
| Handshake.Client.Parse | src/wic.c:500-616 | Any octets in any state, for a host that does not close on opening: the handshake by all octets of the response from the first on, without any condition on it, then frames from the first octet behind it; how many octets need not be presented again; the state never goes back; and an open client has been answered |
| Sessions.Converse | src/wic.c:500-616 | For a connection presented in any pieces, again from where the client stopped: by the octet machine over all octets taken it is waiting, failed with the right reason, or open, with frames read from right behind the response; with a host that is always ready all that is presented is taken and nothing is owed |
| Sessions.SessionDecodes | src/wic.c:509-615 | Then the host has been told of the opening and of exactly what the whole-buffer decoder reads behind the response, if nothing is owed |
| Sessions.AnswerIsHeard | src/wic.c:1968-2046 | A connection that begins with a head of status 101 that settles the decision in time is opened exactly if the head is an answer; otherwise the host is told of a failed handshake |
| Sessions.FailureIsHeard | src/wic.c:509-557 | A response with a length that is no upgrade is reported with the last octet of its body and not before |
| Sessions.FailureWithoutLength | src/wic.c:509-557 | One without a length is reported with its head exactly if its status stands for no body, and else not while the transport goes on |
| Sessions.ShiftedIsHeard | src/wic.c:1968-2046 | So is one that begins with the misleading response, where it fits |
| Http.DigitExact | src/http_parser.c:1540-1568 | An accepted digit is counted exactly: no wrap-around, and never the value that stands for no length |
| Http.NextValid | src/http_parser.c:641-2148 | Every octet keeps the invariant: names and values in turn, lengths as the assertions of the body states require |
| HttpRuns.RunConcat | src/http_parser.c:641-2148 | Any split of a response gives the same headers, body, notifications and state |
| HttpRuns.RunOfTaken | src/wic.c:509-519 | What is not refused has its result from just the octets that are counted as taken |
| HttpRuns.NothingAfterTheMessage | src/wic.c:507-519 | The count stops right behind the message, so that frames start at the right octet |
| HttpRuns.ContentLengthExact | src/http_parser.c:1434-1448 | A Content-Length is accepted exactly if it is below 18446744073709551610, and then is the value of its digits |
| HttpRuns.ChunkSizeExact | src/http_parser.c:1989-2040 | A chunk size is accepted exactly if it is below 2^64 - 16, and then is the value of its digits |
| HttpBodies.IdentityBody | src/http_parser.c:1937-1972 | A body of announced length is complete exactly at that many octets, all delivered |
| HttpBodies.EofBody | src/http_parser.c:1974-1978 | A body without length takes everything until the connection ends |
| HttpBodies.ChunkedBody | src/http_parser.c:1989-2109 | From between chunks: the data of the chunks, complete at the last, nothing behind it taken |
| HttpLengths.LengthHead | src/http_parser.c:1793-1935 | A head with one length, in any letter case and place, is refused exactly if the length is not below the limit; then it is over at the empty line exactly if the length is 0 |
| HttpLengths.SizedResponse | src/http_parser.c:1793-1972 | From the first octet: such a response is over with the last octet of a body of that length and not before, and nothing behind it is taken |
| HttpLengths.UnsizedResponse | src/http_parser.c:1793-1978 | A response that says nothing about a body is over with its head exactly for 1xx, 204 and 304; and otherwise everything is its body until the connection ends |
| HttpLengths.ChunkedMessage | src/http_parser.c:767-2109 | A response whose head says chunked: never refused, over with its last trailer line and not before, with the data of the chunks |
| HttpLengths.TwoLengths | src/http_parser.c:1434-1448 | A head that says two lengths is refused |
| HttpLengths.LengthAndChunks | src/http_parser.c:1793-1830 | So is one that says a length and chunks, in either order |
| HttpLengths.LongerName | src/http_parser.c:1337-1344 | So is one that says a length and has a header whose name goes on behind that of Transfer-Encoding |
| HttpCuts.CutOff | src/http_parser.c:658-687 | A message that says where it ends, cut off anywhere by the end of the connection, is refused |
| HttpHeads.HeadRoundTrip | src/http_parser.c:767-1935 | Of any written head, also one about a body: what is not refused is taken whole, with its headers in order and its status; it is an upgrade exactly by its flags and status, and one without a body ends it |
| HttpRefusals.StatusLineExactly | src/http_parser.c:767-923 | A first line is accepted exactly if it is a version, blanks, a code of at most 999, and nothing or a blank and anything |
| HttpRefusals.HeaderLineExactly | src/http_parser.c:1204-1704 | A line that is not about a body is accepted exactly if it is a name, a colon and a value behind blanks, and then just this header has been read |
| HttpRefusals.HeadExactly | src/http_parser.c:767-1935 | So a head of any such lines is accepted exactly if its first line is a status line and the others are headers, and is read for just what it says |
| HttpMessages.Trailers | src/http_parser.c:1793-1814 | Headers behind the last chunk are added in order, and the empty line ends the message |
| HttpMessages.TrailersKept | src/http_parser.c:1204-1389 | Trailers that say nothing about a body are not refused |
| HttpMessages.ChunkedResponse | src/http_parser.c:767-2109 | From the first octet: head, chunks with parameters, trailers (section 4.1 of RFC 7230), and nothing behind the message is taken |
| HttpMessages.ChunkedKept | src/http_parser.c:767-2109 | Behind a head that announces chunks, and with such trailers, all of it is taken |
| HttpNames.Recognized | src/http_parser.c:1254-1389 | A header is taken for Upgrade, Connection, Content-Length or Transfer-Encoding exactly if its name is that word, letters without case |
| HttpAnswers.UpgradeHead | src/http_parser.c:1793-1935 | A head of status 101 that says what it upgrades to is not refused, ends the message and is an upgrade |
| HttpTidy.RunTidy | src/http_parser.c:1254-1704 | In any run no name holds a NUL, and no value one behind its first octet |
| HttpTidy.NulGetsThrough | src/http_parser.c:1406-1478 | The first octet of a value is not checked: a NUL there is accepted |
| HttpTidy.CleanExactly | src/http_parser.c:1480-1504 | A header that came through is two C strings exactly if its value does not begin with NUL |
| HttpExecute.Parser.constructor | src/wic.c:258-260 | A fresh parser |
| HttpExecute.Parser.Execute | src/http_parser.c:641-2148 | The loop with marks and whole stretches takes and reports exactly what the octet machine does, for any input from any state, and refuses exactly when it does: at the same octet and for the same reason, or, of a head over the size limit, at that octet or behind it |
| HttpExecute.Parser.Eof | src/http_parser.c:658-687 | What the end of the connection means in each state |
| Sha1.PadExact | src/wic.c:2401-2453 | Padding with a count gives the padding of section 5.1.1 of FIPS 180-4 exactly if the count is right modulo 2^61 |
| Sha1Context.ChForm | src/wic.c:2239-2239 | The rewritten choice function is that of section 4.1.1 of FIPS 180-4 |
| Sha1Context.MajForm | src/wic.c:2293-2293 | So is the rewritten majority function |
| Sha1Context.Step | src/wic.c:2226-2231 | One step with rotating register names is one round of section 6.1.2 of FIPS 180-4 |
| Sha1Context.NextWord | src/wic.c:2219-2224 | The circular schedule of 16 words gives the next word of the 80-word schedule in place |
| Sha1Context.Process | src/wic.c:2176-2354 | The whole block function is the compression of FIPS 180-4 |
| Sha1Context.CounterStep | src/wic.c:2368-2372 | The two counter words count octets, with the carry between them |
| Sha1Context.LengthWords | src/wic.c:2433-2437 | The two length words written are the count in bits |
| Sha1Context.Context.Update | src/wic.c:2356-2399 | Any piece of any length: the context absorbs it as if the message came at once |
| Sha1Context.Context.Finish | src/wic.c:2401-2453 | The result is the hash of all pieces if their length is counted right modulo 2^61, also when the length needs a block of its own |
| Base64.RoundTrip | src/wic.c:1755-1818 | Encoding has four symbols for every three octets begun, and decodes back |
| Base64.EncodeInto | src/wic.c:1771-1818 | The loop with its accumulator writes exactly the encoding, with both cases of padding, if there is room, and otherwise nothing |
| Base64.GuardExact | src/wic.c:1771-1780 | The size guard lets through exactly what fits |
| Base64.Vectors | src/wic.c:1771-1818 | Two test vectors of section 10 of RFC 4648, and one with the last symbols of the alphabet |
| Url.ParseUrl | src/http_parser.c:2415-2536 | The loop accepts exactly the inputs of the two automata, with their parts and port |
| Url.ParseHost | src/http_parser.c:2328-2408 | The loop over the server is the second automaton, with user information, host and port set in place |
| Url.ParsePort | src/http_parser.c:2503-2532 | Accepted exactly if the value of the digits is at most 65535, and then that value |
| Url.PartsInOrder | src/http_parser.c:2415-2536 | Every part that is set is non-empty, within the input, in order and disjoint from the others; a schema needs a host |
| UrlParts.PartsFound | src/http_parser.c:493-639 | Of a server URL written in parts, with a name or an address in brackets for its host, exactly these parts are found; it is refused only for a port that is too large |
| UrlParts.PathFound | src/http_parser.c:2415-2536 | Of a path alone, with a query and a fragment, exactly these are found |
| UrlSplit.SplitsExactly | src/http_parser.c:2415-2536 | On every input whatever, the two automata accept and find exactly what splitting the URL at its first marks (appendix B of RFC 3986) finds, with the octets that each part may have |
| UrlSplit.ServerFoundAt | src/http_parser.c:2328-2408 | The second automaton splits a server at its first at-sign, bracket, percent and colon |
| Url.AcceptedPrintable | src/http_parser.c:493-639 | A URL that is accepted has no blank, no line end, no control character and nothing beyond ASCII, so it cannot break out of the request line |

## Findings

Where the code does not do what its interface or the RFC promises, the exact
condition under which it does is proved, and for what is not plain from that an
input at which it does not.

- Key octets (src/wic.c:1750). The key is indexed by the position in the receive
  buffer, which starts anew whenever the buffer is passed on. Payloads of n
  octets are unmasked rightly under every key exactly if n does not exceed the
  capacity or the capacity is a multiple of four: `Payloads.UnmaskExact`; six
  octets through a buffer of five: `Payloads.UnmaskFailsForFive`.
- Long pings (src/wic.c:466-498). A ping of more than 125 octets is let out. A
  receiver like this one stays open exactly if it has at most 125 octets and fits
  the buffer: `EndToEnd.ControlFrameKept`.
- Close reasons (src/wic.c:709-734 and 1594-1640). Code and reason together can
  exceed 65535 octets, which the 16-bit length cannot say. The length is read
  back exactly if the payload is below 2^16 octets (`Frames.HeaderRoundTrip`),
  so for a close exactly if its reason has at most 65533.
- Closing when told of the opening (src/wic.c:546-551). The state is set to OPEN
  after the callback in any case, so a host that closes in it is reopened after
  its own end. The invariant holds afterwards exactly if the host stays:
  `Instance.Wic.Establish`.
- NUL in front of a header value (src/http_parser.c:1406-1478). The first octet
  of a value is stored unchecked (`HttpTidy.NulGetsThrough`), and a NUL there
  shifts the strings that `wic_get_header` walks over. Headers are read back as
  received exactly if no value begins with NUL (`HeaderStrings.StoredExactly`,
  `HeaderStrings.LookupsExactly`). There is a complete response, for every key,
  that upgrades to another protocol and is accepted (`Misleading.Misled`); a
  connection that begins with it is opened (`Sessions.ShiftedIsHeard`). The
  decision is right if no value begins with NUL or it is settled before
  (`Decisions.DecisionRight`), and otherwise cannot be relied on
  (`Decisions.DecisionExactly`).
- Request targets (src/wic.c:1406-1416). Of a URL without a path the target is
  empty or begins with the query, where section 5.3 of RFC 7230 asks for "/"; and
  a fragment is sent, which section 5.1 excludes. It is a path, or has a fragment,
  exactly if the URL has one: `Requests.TargetOf`.
- Host header (src/wic.c:1418-1425). An address loses its brackets, and port 0 is
  left out. Host and port are as in the URL exactly if the host is a name and the
  port is not 0: `Requests.HostOf`.
- Status code (src/http_parser.c:767-923). Blanks in front of it, leading zeros
  and codes of fewer than three digits are accepted: the exact form is that of
  `HttpRefusals.StatusLineExactly`.
- Longer names (src/http_parser.c:1337-1344). A name that goes on behind
  "Transfer-Encoding" is noted as a coding, so that a head with a length is refused
  though it says nothing of a coding: `HttpLengths.LongerName`.
- Proxy-Connection (src/http_parser.c:1313-1323). It counts as Connection, also
  for accepting an answer: `Responses.AcceptedExactly`.
- Heads that do not fit (src/wic.c:1968-2046). The overflow of the receive
  buffer is not looked at when the response is complete. The decision is made on
  the headers that fit, perhaps a part of the next, and what memory holds behind
  them. There is a complete response, for every key, that upgrades to another
  protocol and is accepted, if its last value comes in two pieces and the buffer
  is full between them (`Misleading.MisledByOverflow`, `Misleading.Overflow`). The
  decision can be relied on, however a head goes on, exactly if the headers that
  are stored whole settle it (`Decisions.ReliableExactly`), which depends only on
  the text of the head and the size of the buffer (`Decisions.DecisionRight`).
- Lengths (src/http_parser.c:1540-1568 and 2005-2040). The guard against
  overflow is conservative: a Content-Length is accepted exactly below
  18446744073709551610 and a chunk size exactly below 2^64 - 16
  (`HttpRuns.ContentLengthExact`, `HttpRuns.ChunkSizeExact`).
- SHA-1 of huge pieces (src/wic.c:2368-2372). A piece of 2^32 octets or more is
  counted modulo 2^32. The message is padded right exactly if the count is right
  modulo 2^61 (`Sha1.PadExact`), and then the result is its hash
  (`Sha1Context.Context.Finish`).

## Left out

- Instance.Wic.Establish: a host that closes when told of the opening leaves an instance about which nothing more is promised; `Handshake.Client.Parse` is for a host that does not.
- Handshake.Client.Parse: its host does not close when told of the opening, see above.
- Instance.Wic.constructor: the receive buffer has 1 to 65535 octets, as delivered sizes have 16 bits and without room the loop does not progress; `wic_init` takes others too.
- Url.ParseUrl: at most 65535 octets, as positions are kept in 16 bits; the code takes longer ones and cuts the positions off.
- HttpExecute.Parser.Execute: of a head over the size limit, which of the reasons found in the same stretch the code gives.
- Endpoints.WireArrives: pings of at most 125 octets, a receiver that can send pongs of that size, and payloads that the receiver unmasks rightly; these are the conditions of the findings above.
- HttpHeads.HeadRoundTrip: lines that end in LF alone and folded lines are parsed by the model but not written by this lemma; which heads are refused is stated by `HttpRefusals` and `HttpLengths`, but not for lengths that are no plain numeral and codings other than the word chunked; and what several words in one value set is a recorded flag.
- HttpMessages.ChunkedResponse: that a head which announces chunks is itself not refused is stated by `HttpLengths.ChunkedMessage`, for codings of just the one word.
- Requests.RequestRead: headers of the application that are about a body, and requests with more octets than the limit of the parser.
- The server role (`start_server`, `on_request_complete`), which `wic_init` rejects, and the path that closes without a mask.
- The checks of `wic_init` on its arguments, host names and schemas kept for the application, and plain accessors.
- `on_ping` and `on_pong`, which `wic_init` never copies; replies are seen as the pongs sent.
- Calls of the parser from inside its own callbacks, and calls into the instance from the callbacks of a failed handshake.
- A host that refuses a delivery and closes in the same callback.
- `parse_mask` leaves its result unset when it has read an octet; it is taken as false.
- Transmit buffers are given by the host with exactly the size asked for; an aliasing of buffers by the host is not modelled.
- HTTP requests, methods, CONNECT, pausing, lenient mode, strings for errors, and callbacks for the URL and the status text.
- Messages behind the first on one HTTP connection: a client stops parsing HTTP there.
- Octets of a response body are observed but not kept, as the client has no callback for them.
- The count of header octets is unbounded between its checks, where the code has 32 bits.
- `WIC_ASSERT`, which is empty by default; with an odd number of strings in the header store the assertions in the two walks would fail.
- Random numbers are answers of the host; that keys differ from call to call is not modelled.
- The port to mbed, the examples and the transport, which depend on libraries that are not part of this model.

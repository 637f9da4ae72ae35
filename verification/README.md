# A verified model of the libndt7 client

This project models the hand-written protocol stack of the ndt7 client in
`include/libndt7/libndt7.cpp`, with `strtonum` from
`include/libndt7/internal/sys.hpp` and the `-locate-params` loop of
`ndt7-client-cc.cpp`, and proves what the client promises on top of it: that
reading and writing whole byte strings does not depend on how the operating
system cuts them up, that WebSocket frames and messages are sent and received
exactly as RFC 6455 describes, that the handshakes consume exactly their own
bytes, that no socket or TLS object is closed twice or forgotten, and what the
upload and download tests count, report and put on the wire.

## How the model is built

What the operating system does with a connection is a pair of finite scripts,
one for receiving and one for sending, of segments, room, "not ready" reports
with the outcome of waiting, errors and the end of the stream. `Netx.Conn` is the
connection as an object with these scripts and the log of sent bytes. `Netx.Chan`
is the one-shot view of the same connection: the bytes that will ever arrive, the
number of bytes that will ever be accepted, and the error that ends each
direction. Every method from `Recvn` up to `Tester.Run` is an imperative method
over arrays and objects whose contract says that the result, the buffer and the
view afterwards are those of a pure function of the view before. The theorems are
then stated over these functions and reach the methods through their contracts.
What a number or a text means is said once more in literal bytes, lines and units,
independently of the names that the code and its specification share.

| file | what it holds |
|---|---|
| `Bytes.dfy` | bytes, 64-bit sizes, big-endian numbers and the shifts of the source |
| `Netx.dfy`, `Schedules.dfy` | the socket layer; independence of chunking |
| `Rfc6455.dfy` | sections 5.2 and 5.3 of RFC 6455 as a specification: masked and unmasked frames |
| `Frames.dfy` | `ws_prepare_frame`, `ws_send_frame`, `ws_recv_any_frame` |
| `WireExamples.dfy` | frames byte by byte, in literal numbers |
| `Messages.dfy`, `MessageReceiver.dfy` | `ws_recv_frame`, `ws_recvmsg` (sections 5.4 and 5.5 of RFC 6455) |
| `Handshake.dfy`, `HandshakeIo.dfy`, `HandshakeLines.dfy` | `ws_sendln`, `ws_recvln`, `ws_handshake`; the lines of request and response |
| `Strtonum.dfy`, `Socks5.dfy`, `Socks5Io.dfy` | port numbers; the SOCKS5 exchange (RFC 1928) |
| `Ownership.dfy`, `Connecting.dfy`, `ConnectExamples.dfy`, `Dialling.dfy` | the dialling layers, closing, `ndt7_connect`, the destructor |
| `TestLoops.dfy`, `Endings.dfy`, `Outcomes.dfy` | the download and upload loops; exactly when they succeed |
| `WholeRun.dfy`, `Ndt7.dfy` | whole tests; `run` |
| `Replacement.dfy`, `Substitution.dfy` | `replace_all_with` and leftmost substitution |
| `Templates.dfy`, `PassOrder.dfy`, `NestedValues.dfy`, `PassExamples.dfy` | passes over a template, for all templates |
| `Piecewise.dfy`, `BraceCount.dfy`, `LocateReply.dfy`, `ReplyExamples.dfy`, `ReplyUrls.dfy` | when passes end, and what they come to piece by piece; the static locate reply |
| `Urls.dfy`, `LocateParams.dfy` | reading URLs; the `-locate-params` option |

## What turned out not to hold

- A client with TLS enabled leaks its socket whenever an attempt fails after
  connecting and before the TLS object is installed: either the CA bundle is
  missing and the function returns without closing, or it calls
  `netx_closesocket`, which refuses a descriptor without a TLS object.
  `Ownership.NoBundleLosesSocket` gives the input and `Ownership.LifeOfAClient`
  the exact condition: every descriptor is closed if and only if no attempt fails
  in that stretch.
- `ws_prepare_frame` given no buffer and a non-zero count makes a frame that
  cannot be decoded, and so does a payload of 2^63 bytes or more;
  `Rfc6455.PreparedFrameDecodes` says exactly when the frame is good. The client
  itself never calls it that way.
- `run` returns true without having run a test if no server offers one:
  `WholeRun.RunExact`.
- `replace_all_with` does not end if the pattern occurs in the text and in the
  replacement: `Replacement.TerminatesExactly`. Where it ends it is not always
  leftmost substitution: `Replacement.SubstitutionExactly`.
- `get_static_locate_result` does not end for a host name such as `{{hostname}}`:
  `LocateReply.ReplyHangs`. It ends if and only if no value contains its own
  placeholder: `LocateReply.ReplyEndsExactly`.
- Where it ends, its four passes are not always one simultaneous substitution: the
  host name `{{port}}` comes out as the port, `ReplyExamples.NotSimultaneous`.
  `LocateReply.ReplySettles` says what the reply is for all values, and
  `LocateReply.ReplyExactly` exactly when it is the simultaneous substitution, if
  scheme, port and options have at most one opening brace each;
  `ReplyExamples.ReplyRecovers` shows why it asks for that. Over all templates
  `Templates.PassesAreSimultaneous` gives a condition on the values,
  `NestedValues.NestedExactly` and `PassOrder.LastPassExactly` show where it is
  exact, and `PassExamples.NotNecessary` that it is not so for all values.
- Printing a URL and parsing it again can misread a bracketed host with a slash
  in it: `Urls.PrintParseExact`, `Urls.BracketsWithSlash`.

## Where the code and its documentation differ

The model follows the code.

- `max_runtime` is documented to stop uploads too; the upload loop has its own
  limit of ten seconds, and a download that reaches `max_runtime` fails.
- `ws_flags` is documented to select the headers to send as well; all of them are
  always sent, and the flags select only those to expect.
- `getNextToken` is documented to return whether the text contains the separator;
  it returns whether the text is non-empty.
- The Host header carries `settings_.hostname`, whatever host the URL names;
  in the model it is `Target.hostHeader`.

## Model

| member | source | states |
|---|---|---|
| Netx.AfterSegmentView | include/libndt7/libndt7.cpp:2118-2158 | taking any part of the next segment, however small, takes exactly that many bytes off the front of everything that will arrive and leaves the final error as it is |
| Netx.Conn.WaitToReceive | include/libndt7/libndt7.cpp:2348-2386 | waiting consumes a "not ready" report only if the wait succeeds, and a script that has run out times out |
| Netx.Conn.WaitToSend | include/libndt7/libndt7.cpp:2348-2386 | the same for the sending side |
| Netx.Conn.RecvNonblocking | include/libndt7/libndt7.cpp:2118-2158 | one attempt delivers between 1 and `count` of the next bytes, writes nowhere else, and on failure delivers nothing and leaves the stream alone; zero and over-limit counts are refused |
| Netx.Conn.RecvOnce | include/libndt7/libndt7.cpp:2095-2113 | one attempt with its wait: either the connection looks exactly as before and the script is shorter, so that trying again ends, or the receive is over |
| Netx.Conn.Recv | include/libndt7/libndt7.cpp:2095-2116 | retrying hides every "not ready" report: the outcome depends only on the one-shot view, and an error is reported only when no byte is left |
| Netx.Conn.RecvMore | include/libndt7/libndt7.cpp:2163-2176 | one step of a longer transfer extends what is in place by the very next bytes, or shows that the one-shot read fails with the same error and the same bytes |
| Netx.Conn.Recvn | include/libndt7/libndt7.cpp:2160-2178 | for every script, the error, the buffer and the rest of the stream are those of a single read of `count` bytes, and bytes outside the target range are untouched; the overflow guards never fire and the loop ends |
| Netx.Conn.RecvBytes | include/libndt7/libndt7.cpp:2160-2178 | the same into a buffer of the callee's own |
| Netx.Conn.SendNonblocking | include/libndt7/libndt7.cpp:2203-2245 | one attempt puts between 1 and all of the bytes on the wire, a prefix of the data, and on failure nothing |
| Netx.Conn.SendOnce | include/libndt7/libndt7.cpp:2180-2198 | the same for one attempt to send |
| Netx.Conn.Send | include/libndt7/libndt7.cpp:2180-2201 | retrying hides every "not ready" report on the sending side |
| Netx.Conn.Sendn | include/libndt7/libndt7.cpp:2247-2265 | for every script, the error and the log of sent bytes are those of a single write: all of the data, or the longest prefix that the peer accepts |
| Netx.ReadCutShort | include/libndt7/libndt7.cpp:2160-2178 | a transfer that gives up part-way has read everything there was, so that it equals the one-shot read that fails |
| Schedules.DeliveredFirst | include/libndt7/libndt7.cpp:2095-2178 | whatever a schedule of segments and successful waits delivers comes first and changes no later event |
| Schedules.GrantedFirst | include/libndt7/libndt7.cpp:2180-2265 | the same for the room granted for sending |
| Schedules.SameView | include/libndt7/libndt7.cpp:2095-2265 | two schedules that deliver the same bytes and grant the same room have the same view, so that no method can tell them apart |
| Schedules.AsOneShot | include/libndt7/libndt7.cpp:2095-2178 | every receive script at all has the view of one that delivers everything in one segment and then fails |
| Schedules.MessageOverAnySchedule | include/libndt7/libndt7.cpp:1205-1330 | reassembly over every schedule, also one whose last segment goes on with other bytes: a fragmented message with PINGs and PONGs in between is received, exactly the PONGs are sent, and exactly the bytes and events behind it are left |
| Schedules.DeliveredUntil | include/libndt7/libndt7.cpp:2103-2116 | how a receive script ends: at the end of the stream, at a wait that fails (for readability after "would block" and want-read, for writeability after want-write), or at any other error |
| Schedules.GrantedUntil | include/libndt7/libndt7.cpp:2188-2201 | the same for sending, where "would block" and want-write wait for writeability and want-read for readability |
| Schedules.TimesOut | include/libndt7/libndt7.cpp:2348-2386 | a script that runs out ends with a timeout |
| Schedules.TransferLimits | include/libndt7/libndt7.cpp:2128-2131 | a transfer of more than 2^31 - 1 bytes over TLS is refused before any byte moves |
| Rfc6455.LengthFieldRoundTrip | include/libndt7/libndt7.cpp:995-1011 | a reader of the 7, 16 and 64-bit length forms recovers flag, form, length and rest from every length field, minimal or not |
| Rfc6455.MaskedTwice | include/libndt7/libndt7.cpp:1027-1032 | masking is its own inverse |
| Rfc6455.ClientFrameRoundTrip | include/libndt7/libndt7.cpp:953-1035 | a strict decoder for sections 5.2 and 5.3 of RFC 6455 (mask bit, shortest length form, complete payload) recovers first byte and payload from every client frame and stops at its end, exactly for payloads below 2^63 |
| Rfc6455.FrameHeadAlone | include/libndt7/libndt7.cpp:1024-1032 | a frame prepared without a buffer decodes only if its count is zero |
| Rfc6455.PreparedFrameDecodes | include/libndt7/libndt7.cpp:953-1035 | exactly when a prepared frame can be decoded at all |
| Rfc6455.ClientStreamSplits | include/libndt7/libndt7.cpp:953-1042 | any concatenation of client frames splits back into the same list with nothing left over |
| Rfc6455.ServerFrameUnique | include/libndt7/libndt7.cpp:1068-1202 | no byte string can be read as two different legal server frames, nor a frame as a prefix of another |
| Frames.WsPrepareFrame | include/libndt7/libndt7.cpp:953-1035 | returns the frame for the old buffer and leaves exactly the masked payload in the caller's range, nothing else changed |
| Frames.MaskInto | include/libndt7/libndt7.cpp:1026-1033 | the in-place masking loop against the byte-wise definition of masking |
| Frames.LengthBytesCorrect | include/libndt7/libndt7.cpp:995-1011 | the shifts and masks of the source are the minimal length form in network order |
| Frames.WsSendFrame | include/libndt7/libndt7.cpp:1037-1042 | sends that frame as a whole or as far as the peer accepts it, and leaves the buffer masked |
| Frames.InspectHeader | include/libndt7/libndt7.cpp:1079-1126 | the order of the header checks and what is stored through the out-parameters before each of them fails |
| Frames.RecvLength | include/libndt7/libndt7.cpp:1127-1175 | the length arithmetic never leaves 64 bits and equals the big-endian value; a set top bit is refused |
| Frames.RecvHeader | include/libndt7/libndt7.cpp:1070-1175 | everything before the payload, over every script |
| Frames.RecvBody | include/libndt7/libndt7.cpp:1183-1200 | the payload as one exact read; `*count` is set only if all of it is there, and nothing outside the range is written |
| Frames.WsRecvAnyFrame | include/libndt7/libndt7.cpp:1044-1203 | on every return `*count <= total`, the payload is in the buffer and no byte outside the range is written |
| Frames.AnyFrameDecodes | include/libndt7/libndt7.cpp:1068-1202 | inverts the server's encoder for all three length forms, minimal or not, consuming exactly that frame; a payload without room is refused with all of it still on the stream |
| Frames.AnyFrameOnly | include/libndt7/libndt7.cpp:1068-1202 | whatever is accepted was a complete legal frame: known opcode, no reserved bits, no mask, control frames final and at most 125 bytes |
| Frames.AnyFrameExact | include/libndt7/libndt7.cpp:1068-1202 | a frame is received if and only if the stream starts with a legal one that has room |
| WireExamples.PingAnswered | include/libndt7/libndt7.cpp:1247-1259 | 0x89 and up to 125 bytes: what is sent begins with a masked frame 0x8A with the same payload |
| WireExamples.PongDropped | include/libndt7/libndt7.cpp:1242-1246 | 0x8A: dropped, nothing is sent |
| WireExamples.CloseAnswered | include/libndt7/libndt7.cpp:1233-1241 | 0x88: an empty masked frame 0x88 is sent and the stream counts as ended |
| WireExamples.DataReceived | include/libndt7/libndt7.cpp:160-170 | 0x00 and 0x80 are continuations, 0x01 and 0x81 texts, 0x02 and 0x82 binary frames, the latter of each final |
| WireExamples.MessageReceived | include/libndt7/libndt7.cpp:1293-1300 | 0x81 and 0x82 begin a whole text and a whole binary message |
| WireExamples.FragmentsReceived | include/libndt7/libndt7.cpp:1301-1329 | 0x01 or 0x02 and then 0x80 make up one |
| WireExamples.LongMessageReceived | include/libndt7/libndt7.cpp:1127-1175 | the same behind a length of two bytes after 126 or of eight after 127 |
| WireExamples.BufferFull | include/libndt7/libndt7.cpp:1328-1330 | a first fragment that fills the buffer: `message_size` |
| WireExamples.ContinuationRefused | include/libndt7/libndt7.cpp:1292-1296 | a message does not begin with 0x00 or 0x80 |
| WireExamples.RestartRefused | include/libndt7/libndt7.cpp:1318-1321 | nor does it go on with anything else |
| WireExamples.HeaderRefused | include/libndt7/libndt7.cpp:1079-1126 | for all two header bytes, as numbers: which are refused and with what error, with nothing behind them read |
| WireExamples.ClientFrameBytes | include/libndt7/libndt7.cpp:953-1035 | for every payload, the bytes of a masked frame with its length in one, three or nine bytes |
| Messages.PassesControl | include/libndt7/libndt7.cpp:1242-1259 | a PING or PONG in front of anything is answered or dropped, and what follows is received as if it had not been there |
| Messages.RecvComplete | include/libndt7/libndt7.cpp:1263-1330 | reassembly is transparent: for every split into fragments and every interleaving of PING and PONG that fits, the message comes out, exactly its frames are consumed and exactly the PONGs are sent |
| Messages.RecvSound | include/libndt7/libndt7.cpp:1263-1330 | whenever receiving succeeds, the consumed bytes are the frames of one message with FIN on its last data frame only |
| Messages.RecvMsgExact | include/libndt7/libndt7.cpp:1263-1330 | both together: exactly when a message is received, and then its opcode, its payload and the connection afterwards |
| Messages.MessageUnique | include/libndt7/libndt7.cpp:1285-1329 | there is only one way to read the frames of a message off a stream |
| Messages.AnyFrameFails | include/libndt7/libndt7.cpp:1068-1202 | a frame that is not received is never taken off the stream as a whole |
| Messages.RecvFrameAnswers | include/libndt7/libndt7.cpp:1205-1261 | over every receive, successful or not: of the frames taken off the stream every PING is answered once, in order and with its payload, a CLOSE by an empty CLOSE, and nothing else is sent |
| Messages.RecvAnswers | include/libndt7/libndt7.cpp:1263-1330 | the same over whole messages, whose control frames are masked in place behind the fragments already assembled |
| Messages.ServerSeesPongs | include/libndt7/libndt7.cpp:1247-1259 | the server, unmasking what it gets, sees exactly the PONGs for its PINGs, payload for payload |
| Messages.RecvFrameShrinks | include/libndt7/libndt7.cpp:1205-1261 | every successful receive takes at least two bytes, which is why the `goto again` loop ends |
| MessageReceiver.ControlPassed | include/libndt7/libndt7.cpp:1242-1259 | after a PING that could be answered, or a PONG, receiving goes on with less of the stream left, as if it had begun there |
| MessageReceiver.SendPong | include/libndt7/libndt7.cpp:1247-1257 | the payload is masked where it is, sent back whole or cut, and the buffer outside the range stays |
| MessageReceiver.RecvOnce | include/libndt7/libndt7.cpp:1220-1260 | one turn of the `goto again` loop: either the specification still yields the same from here and less of the stream is left, or it has yielded this |
| MessageReceiver.WsRecvFrame | include/libndt7/libndt7.cpp:1205-1261 | the retry loop against the specification; the buffer outside `base[..total)` is untouched although PONGs are masked in it |
| MessageReceiver.RecvPart | include/libndt7/libndt7.cpp:1302-1326 | one continuation frame: the buffer prefix grows by its payload, whatever control frames were masked behind it; the overflow guard never fires |
| MessageReceiver.WsRecvRest | include/libndt7/libndt7.cpp:1301-1329 | the continuation loop against the specification, ending because every turn takes some of the stream |
| MessageReceiver.WsRecvMsg | include/libndt7/libndt7.cpp:1263-1330 | on every return `base[..*count]` holds the assembled data and `*count <= total`, although control payloads land in the same buffer |
| Handshake.RecvLineExact | include/libndt7/libndt7.cpp:827-851 | a line is received if and only if a line feed comes before `maxlen` bytes other than carriage returns; the stream goes on right behind it |
| Handshake.LineRoundTrip | include/libndt7/libndt7.cpp:820-851 | `ws_recvln` undoes `ws_sendln` for lines without CR and LF |
| Handshake.LinesRoundTrip | include/libndt7/libndt7.cpp:820-851 | the same for any list of lines |
| Handshake.SendLinesExact | include/libndt7/libndt7.cpp:883-894 | sending line by line comes to what one write of all lines comes to: all of them, or exactly a prefix |
| Handshake.ResponseExact | include/libndt7/libndt7.cpp:909-950 | the response is accepted if and only if its first line is the exact 101 line, a blank line comes within 1000 lines of fewer than 8000 bytes each, and the required headers were seen; the stream goes on at the first byte after the blank line |
| Handshake.FlagsOfMember | include/libndt7/libndt7.cpp:931-938 | a flag is set if and only if some header line sets it |
| Handshake.HeadersAsASet | include/libndt7/libndt7.cpp:925-946 | the outcome depends only on the set of known headers: permuting, repeating or adding unknown ones within the limit changes nothing |
| HandshakeLines.FlagsExactly | include/libndt7/libndt7.cpp:931-938 | a flag is set if and only if its literal line is among the lines; the four lines are different for every protocol |
| HandshakeLines.AcceptedExactly | include/libndt7/libndt7.cpp:909-950 | with the four flags required, exactly the responses with the literal 101 line, the four literal lines and a blank line within 1000 lines of fewer than 8000 bytes |
| HandshakeLines.SampleAccepted | include/libndt7/libndt7.cpp:909-950 | the sample response of section 1.3 of RFC 6455, with any protocol, is one |
| HandshakeLines.StatusRefused | include/libndt7/libndt7.cpp:917-921 | any other first line: `ws_proto` |
| HandshakeLines.HeadersMissing | include/libndt7/libndt7.cpp:939-943 | a blank line before all four: `ws_proto` |
| HandshakeLines.LineTooLong | include/libndt7/libndt7.cpp:827-851 | a line of 8000 bytes: `value_too_large` |
| HandshakeLines.TooManyHeaders | include/libndt7/libndt7.cpp:925-950 | 1000 lines without a blank one: `value_too_large` |
| HandshakeLines.RequestAsks | include/libndt7/libndt7.cpp:853-894 | what the request says to a reader that splits request line and headers: GET, the path, the host with its port unless that is the usual one, upgrade, key, protocol and version |
| HandshakeLines.RequestReceived | include/libndt7/libndt7.cpp:853-894 | a server that reads it line by line gets exactly that and nothing of what follows |
| Handshake.ShakeExact | include/libndt7/libndt7.cpp:853-950 | exactly when the whole handshake succeeds |
| Handshake.ShakeLeaves | include/libndt7/libndt7.cpp:853-950 | and then the request is all that was sent and the frames start at the next byte to be read |
| HandshakeIo.WsSendln | include/libndt7/libndt7.cpp:820-825 | the line and CR LF, as one write |
| HandshakeIo.WsRecvln | include/libndt7/libndt7.cpp:827-851 | the byte-by-byte loop against its specification, over every script |
| HandshakeIo.WsHandshake | include/libndt7/libndt7.cpp:853-950 | the method against the specification that `ShakeExact` and `ShakeLeaves` are about |
| HandshakeIo.CheckResponse | include/libndt7/libndt7.cpp:909-950 | the header loop with its limit |
| HandshakeIo.SendRequest | include/libndt7/libndt7.cpp:883-894 | stops at the first line that cannot be sent |
| Strtonum.Errno.Call | include/libndt7/internal/sys.hpp:157 | `strtoll` saturates and sets `errno` only on overflow |
| Strtonum.Errno.Convert | include/libndt7/internal/sys.hpp:135-172 | the verdict is that of the unbounded integer value although `strtoll` saturates; `errno` is restored on success and set by the verdict otherwise |
| Strtonum.PrintedNumber | include/libndt7/internal/sys.hpp:135-172 | every natural number of any length, printed, is classified as too small, good or too large by its true value |
| Strtonum.SignedNumber | include/libndt7/internal/sys.hpp:135-172 | white space, a sign and digits: judged by the signed value; with anything but a NUL behind it, invalid |
| Strtonum.NoNumberWritten | include/libndt7/internal/sys.hpp:157-159 | no digits: invalid |
| Strtonum.NulEnds | include/libndt7/internal/sys.hpp:157-159 | what stands behind a NUL makes no difference |
| Strtonum.SaturatesAt | include/libndt7/internal/sys.hpp:157-163 | `strtoll` saturates outside the 64-bit range |
| Strtonum.PrintDecimal | include/libndt7/internal/sys.hpp:157 | reading decimal digits inverts printing them |
| Socks5.ConnectRoundTrip | include/libndt7/libndt7.cpp:1762-1797 | the connect request decodes by sections 4 and 5 of RFC 1928 to the same host name and to the port in network order |
| Socks5.GreetingRoundTrip | include/libndt7/libndt7.cpp:1717-1736 | the greeting offers, by section 3 of RFC 1928, exactly the method "no authentication" |
| Socks5.GreetingRefused | include/libndt7/libndt7.cpp:1745-1790 | any other choice of the proxy is refused, and so is a host name or port that does not fit |
| Socks5.PortPrinted | include/libndt7/libndt7.cpp:1779-1790 | a port number is good if and only if it is at most 65535 |
| Socks5.ReplyRefused | include/libndt7/libndt7.cpp:1825-1915 | which replies are refused, and with what error, by their first four bytes |
| Socks5.ReplyComplete | include/libndt7/libndt7.cpp:1806-1917 | a granted reply with any of the three address types is consumed to its last byte |
| Socks5.ReplySound | include/libndt7/libndt7.cpp:1806-1917 | nothing else is accepted |
| Socks5.ExchangeComplete | include/libndt7/libndt7.cpp:1717-1920 | the exchange sends exactly its two requests and consumes exactly 2 + 4 + address + 2 bytes, leaving the first tunnelled byte next |
| Socks5.ExchangeExact | include/libndt7/libndt7.cpp:1717-1920 | exactly when the exchange succeeds, in terms of host name, port, room and stream |
| Socks5Io.Negotiate | include/libndt7/libndt7.cpp:1717-1920 | the method against that specification |
| Socks5Io.RecvReply | include/libndt7/libndt7.cpp:1806-1917 | the reply reader against its specification |
| Ownership.AuditCounts | include/libndt7/libndt7.cpp:2449-2461 | what a ledger without a wrong entry means: each descriptor is closed as often as it was opened unless still open, and each TLS object is freed from the descriptor it was installed on |
| Ownership.AuditApart | include/libndt7/libndt7.cpp:2449-2461 | no TLS object is ever on two descriptors |
| Ownership.AuditObjects | include/libndt7/libndt7.cpp:2449-2461 | over all descriptors together each TLS object is installed at most once, and freed once unless still installed |
| Ownership.CloseSocketKeeps | include/libndt7/libndt7.cpp:2449-2461 | closing frees and closes together, leaves nothing owned and loses nothing, also for a stale `sock_` |
| Ownership.FirstUpIsFirst | include/libndt7/libndt7.cpp:2006-2088 | the chosen candidate is the first in order that connects |
| Ownership.TryCandidatesKeeps | include/libndt7/libndt7.cpp:2017-2083 | for every list of addresses and every failure: either exactly the first candidate that connects is open, or every descriptor opened has been closed again |
| Ownership.TryLookupsKeeps | include/libndt7/libndt7.cpp:2006-2090 | the same over all resolved addresses, with the error that is reported |
| Ownership.DialSocksKeeps | include/libndt7/libndt7.cpp:1703-1921 | a failing proxy exchange leaves no descriptor open |
| Ownership.InstallKeeps | include/libndt7/libndt7.cpp:1645-1648 | the assertion that the descriptor carries no TLS object yet never fires |
| Ownership.DialTlsKeeps | include/libndt7/libndt7.cpp:1569-1701 | every outcome of the TLS layer keeps the invariant; only the early failures lose the descriptor; the TLS flag is restored |
| Ownership.DialWsKeeps | include/libndt7/libndt7.cpp:1542-1567 | the same with the WebSocket handshake on top: on error with TLS off `*sock == -1` and everything is closed, on success exactly one descriptor is open |
| Ownership.ConnectKeeps | include/libndt7/libndt7.cpp:790-809 | connecting again from whatever an earlier attempt left behind |
| Connecting.TunnelExact | include/libndt7/libndt7.cpp:1703-1921 | the proxy layer succeeds exactly if the connection behind its greeting exists, and that is the connection left |
| Connecting.UpgradeExact | include/libndt7/libndt7.cpp:853-950 | the same for the upgrade |
| Connecting.ConnectExact | include/libndt7/libndt7.cpp:790-809 | exactly when `ndt7_connect` succeeds, in terms of the first candidate that connects and of what its peer sends before and after the TLS handshake, whatever an earlier attempt left behind; and then exactly what is still to come and what has been sent |
| ConnectExamples.RespondedExactly | include/libndt7/libndt7.cpp:790-809 | the upgrade asks for the four literal lines with the protocol net.measurementlab.ndt.v7 |
| ConnectExamples.EstablishedExactly | include/libndt7/libndt7.cpp:2017-2083 | which sockets count as connected |
| ConnectExamples.ConnectWorks | include/libndt7/libndt7.cpp:790-809 | connecting to a server that answers with the sample response succeeds, from every state with TLS off |
| Ownership.RunKeeps | include/libndt7/libndt7.cpp:790-809 | the invariant over every sequence of connects |
| Ownership.LifeOfAClient | include/libndt7/libndt7.cpp:352-356 | over every life of a client up to the destructor: each TLS object is freed exactly once, each descriptor closed exactly once, except for those of early TLS failures, and there are such if and only if one happens |
| Ownership.PlainLosesNothing | include/libndt7/libndt7.cpp:1542-1580 | with TLS off no descriptor is ever lost |
| Ownership.NoBundleLosesSocket | include/libndt7/libndt7.cpp:1589-1612 | with TLS on and no CA bundle one is: the input that shows it |
| Dialling.Client.constructor | include/libndt7/libndt7.cpp:346-350 | a new client owns nothing |
| Dialling.Client.NetxClosesocket | include/libndt7/libndt7.cpp:2449-2461 | refuses a descriptor without a TLS object when TLS is on, with `invalid_argument`; else frees and closes and returns what `close` reports |
| Dialling.Client.NetxDial | include/libndt7/libndt7.cpp:1989-2091 | the two nested loops against the specification that `TryLookupsKeeps` is about |
| Dialling.Client.DialAny | include/libndt7/libndt7.cpp:2017-2083 | the inner loop: a candidate's descriptor is closed unless it is the one that connects |
| Dialling.Client.NetxMaybeSocks5hDial | include/libndt7/libndt7.cpp:1703-1921 | the SOCKS5 layer, whose cleanup runs with the TLS flag cleared |
| Dialling.Client.StartTls | include/libndt7/libndt7.cpp:1588-1700 | where each failing step of setting up TLS leaves descriptor and TLS object |
| Dialling.Client.NetxMaybeSslDial | include/libndt7/libndt7.cpp:1569-1701 | the TLS layer with its flag cleared and restored |
| Dialling.Client.NetxMaybeWsDial | include/libndt7/libndt7.cpp:1542-1567 | the WebSocket layer |
| Dialling.Client.Ndt7Connect | include/libndt7/libndt7.cpp:790-809 | the whole connect against the function of `ConnectKeeps`, state and connection |
| Dialling.Client.Finish | include/libndt7/libndt7.cpp:352-356 | the destructor |
| TestLoops.ServerSeesUpload | include/libndt7/libndt7.cpp:709-785 | what the server can split an upload into: unfragmented masked frames with nothing left over, each a measurement (first byte 0x81) or the one 8192-byte payload (0x82), one text per report in order, behind as many binary frames as it counts, and `total` is 8192 times the binary frames; a failed upload is a prefix of such a stream |
| TestLoops.UploadCadence | include/libndt7/libndt7.cpp:703-785 | whatever the clock says, at most 39 measurements within ten seconds, each more than a quarter of a second after the one before, none missing once that time is over, and each with its time and 8192 bytes for every round before it |
| TestLoops.DownloadCounts | include/libndt7/libndt7.cpp:617-687 | the count is the sum over the messages received in full, and then a receive fails or the time is up |
| TestLoops.DownloadAnswers | include/libndt7/libndt7.cpp:617-687 | over every download every PING taken off the stream is answered, and a CLOSE ends it |
| TestLoops.DownloadExact | include/libndt7/libndt7.cpp:617-687 | `total` is the payload of exactly the complete messages up to where no complete message is left, never of control frames or of a message cut short; exactly its texts are handed over; each report counts the messages before it; at most one CLOSE is sent, only on success and as the last thing |
| TestLoops.DownloadCadence | include/libndt7/libndt7.cpp:617-632 | fewer than `4 * max_runtime` reports, each more than a quarter of a second after the one before, none missing at any reading of the clock, and each with its time |
| Endings.FrameEofExact | include/libndt7/libndt7.cpp:1068-1202 | receiving a frame reports the end of the stream if and only if the stream ends within the first two bytes, within the length behind two good bytes, or within a payload that has room |
| Endings.RecvEofExact | include/libndt7/libndt7.cpp:1205-1330 | exactly when receiving a message reports it: behind frames of a message that goes on, all answered, comes a CLOSE, or the stream ends as above, or sending ends at a PING |
| Outcomes.UploadExact | include/libndt7/libndt7.cpp:703-787 | exactly when an upload succeeds: some clock reading is the first past ten seconds, and there is room for the binary frames and for the measurements due up to then; and then what it has counted, reported and measured |
| Outcomes.DownloadSucceeds | include/libndt7/libndt7.cpp:609-687 | exactly when a download succeeds: behind complete messages the stream closes as in `RecvEofExact`, with room for all answers, and the clock stays within `max_runtime` up to there |
| TestLoops.CloseComesLast | include/libndt7/libndt7.cpp:1233-1241 | if a CLOSE is the last frame received then its answer is the last one sent |
| WholeRun.PhaseAt | include/libndt7/libndt7.cpp:370-390 | if the test works at server number `i` but at none before, everything is as that test leaves it, run in the world that the failing tests before it have left |
| WholeRun.PhaseNone | include/libndt7/libndt7.cpp:370-390 | if it works at none, all have been tried, and the outcome is a success only if none offers it and nothing failed before |
| WholeRun.PhaseExact | include/libndt7/libndt7.cpp:370-390 | so a list of servers counts as a success if and only if there is such a first server, or none offers the test and nothing failed before |
| WholeRun.RunExact | include/libndt7/libndt7.cpp:361-420 | exactly when `run` returns true: the query found servers, and each kind of test that is asked for works at some server or is offered by none |
| WholeRun.TestExact | include/libndt7/libndt7.cpp:600-788 | exactly when the test at a server succeeds: connecting does, and on that connection the upload or the download does as in `UploadExact` and `DownloadSucceeds` |
| WholeRun.UploadKeepsSpeed | include/libndt7/libndt7.cpp:394-414 | uploads leave the download speed and the metrics alone |
| WholeRun.DownloadSpeedIsGenuine | include/libndt7/libndt7.cpp:686-687 | the download speed at the end of a run, times the seconds and 1000, is 8 times the payload bytes of the complete messages that the first working server sent after its handshake, up to its CLOSE or end of stream (0 if no time passed); the metrics are those of its texts |
| WholeRun.UploadSpeedIsGenuine | include/libndt7/libndt7.cpp:786-787 | the upload speed, times the seconds and 1000, is 8 times 8192 times the binary frames that the first working server can split out of all that it was sent after its handshake |
| WholeRun.LastFindingWins | include/libndt7/libndt7.cpp:655-672 | the retransmission rate, times the bytes sent, is the bytes sent again, by the last text that has the numbers; 0 if none were sent |
| WholeRun.LastRttWins | include/libndt7/libndt7.cpp:655-672 | the round-trip time is that of the last text that has it |
| WholeRun.NoFinding | include/libndt7/libndt7.cpp:614-616 | without such texts both are zero |
| WholeRun.TestHandsOver | include/libndt7/libndt7.cpp:624-684 | what a test hands to the two callbacks: all its texts, and all its measurements unless only the summary is wanted; a failed test leaves a speed of 0 |
| WholeRun.RunConnects | include/libndt7/libndt7.cpp:361-420 | as far as sockets and TLS objects go a run is a series of connects |
| WholeRun.LifeOfARun | include/libndt7/libndt7.cpp:352-420 | a run and then the destructor: nothing is freed or closed twice and nothing left over but the sockets of early TLS failures, if and only if there are such |
| Ndt7.Tester.constructor | include/libndt7/libndt7.cpp:346-350 | nothing measured yet |
| Ndt7.Tester.ReportIfDue | include/libndt7/libndt7.cpp:624-632 | a report is made, and the time of the last one moved, only after more than a quarter of a second |
| Ndt7.Tester.OnText | include/libndt7/libndt7.cpp:651-684 | a text updates the two metrics as far as it has the numbers, and is handed over |
| Ndt7.Tester.Receive | include/libndt7/libndt7.cpp:609-687 | the download after connecting: connection, clock, every field of the summary and both callbacks, on every path |
| Ndt7.Tester.ReceiveRound | include/libndt7/libndt7.cpp:617-685 | one turn of the loop: either the rest of the download is that of the remaining rounds, after this report and text, or this was the last |
| Ndt7.Tester.ReceiveRounds | include/libndt7/libndt7.cpp:617-688 | the receive loop against the function that the download theorems are about |
| Ndt7.Tester.Transmit | include/libndt7/libndt7.cpp:694-785 | prepares one binary frame and uploads it |
| Ndt7.Tester.SendIfDue | include/libndt7/libndt7.cpp:721-777 | a measurement is sent, and the time of the last one moved, only after more than a quarter of a second |
| Ndt7.Tester.SendRound | include/libndt7/libndt7.cpp:709-784 | one turn of the loop, like `ReceiveRound` |
| Ndt7.Tester.SendRounds | include/libndt7/libndt7.cpp:709-786 | the send loop against the function that the upload theorems are about |
| Ndt7.Tester.SendMeasurement | include/libndt7/libndt7.cpp:763-777 | a measurement goes to both callbacks before it is sent |
| Ndt7.Tester.SendText | include/libndt7/libndt7.cpp:771-773 | the text is masked in a buffer of its own and sent as one final text frame |
| Ndt7.Tester.Ndt7Download | include/libndt7/libndt7.cpp:600-688 | the whole test: ownership, connection, clock, summary and callbacks, on every path |
| Ndt7.Tester.Ndt7Upload | include/libndt7/libndt7.cpp:690-788 | the same for the upload |
| Ndt7.Tester.TryServers | include/libndt7/libndt7.cpp:370-414 | the loop over the servers |
| Ndt7.Tester.Run | include/libndt7/libndt7.cpp:361-420 | the run, from the outcome of the Locate query on, against the function that the run theorems are about |
| Replacement.TerminatesExactly | include/libndt7/libndt7.cpp:521-529 | the loop ends if and only if the pattern is not in the text or not in the replacement |
| Replacement.ReplaceAllWith | include/libndt7/libndt7.cpp:521-529 | the loop against its outcome; what decreases is the text behind the last replacement, because the position stays on it |
| Replacement.IsSubstitution | include/libndt7/libndt7.cpp:521-529 | leftmost non-overlapping substitution whenever no end of the replacement begins the pattern |
| Replacement.SubstitutionExactly | include/libndt7/libndt7.cpp:521-529 | and on every text only then |
| Substitution.SubstituteJoined | include/libndt7/libndt7.cpp:521-529 | where no match can reach from one piece of a text into the next, the pieces are substituted one by one |
| Substitution.ReplacedDiffers | include/libndt7/libndt7.cpp:521-529 | a pass that finds its pattern always changes the text, if the pattern does not begin in the replacement |
| Templates.SubstituteFills | include/libndt7/libndt7.cpp:494-512 | substituting one placeholder fills in that placeholder everywhere and touches no other piece |
| Templates.PassFills | include/libndt7/libndt7.cpp:521-529 | so does one pass of the loop for every value in which its own placeholder does not begin |
| Templates.PassesAreSimultaneous | include/libndt7/libndt7.cpp:514-519 | the passes end and equal one simultaneous substitution if no value contains, or ends with a start of, the placeholder of its own or a later pass, on all texts of placeholders and pieces in which none begins |
| Templates.TemplatePasses | include/libndt7/libndt7.cpp:514-519 | in particular on all templates |
| Templates.CalmValues | include/libndt7/libndt7.cpp:514-519 | values in which every opening brace is followed by another character meet the condition |
| NestedValues.NestedExactly | include/libndt7/libndt7.cpp:514-519 | for values that are templates themselves the condition is exact over all templates |
| PassOrder.LastPassExactly | include/libndt7/libndt7.cpp:514-519 | for any values it is exact as far as the last pass goes, and so for a single pass |
| PassExamples.NotNecessary | include/libndt7/libndt7.cpp:514-519 | in general it is not necessary: three bindings that violate it, where the last pass restores on every template what the second takes away |
| LocateReply.StaticTemplateTidy | include/libndt7/libndt7.cpp:498-513 | the template of the source is one to which this applies |
| Piecewise.PassesEndExactly | include/libndt7/libndt7.cpp:514-519 | over any text with all the placeholders the passes end if and only if no value contains its own placeholder: no pass ever takes another placeholder away |
| Piecewise.TemplateEndsExactly | include/libndt7/libndt7.cpp:514-519 | in particular over every template that uses all the names |
| Piecewise.ReplacedJoined | include/libndt7/libndt7.cpp:521-529 | the loop goes through a text of two pieces one by one, for every value for which it ends, if the second cannot go on with a match |
| Piecewise.PassesByPieces | include/libndt7/libndt7.cpp:514-519 | so do all passes one after the other, over any number of pieces kept apart |
| Piecewise.PassesSettle | include/libndt7/libndt7.cpp:514-519 | on every template with separated placeholders and for all values for which the passes end, each placeholder is replaced by its value run through the later passes, by itself |
| BraceCount.SimultaneousExactly | include/libndt7/libndt7.cpp:514-519 | if the later values have at most one opening brace each, the passes are a simultaneous substitution on such a template if and only if the first value contains none of the later placeholders |
| LocateReply.ReplyEndsExactly | include/libndt7/libndt7.cpp:494-519 | the four loops end if and only if no value contains its own placeholder |
| LocateReply.ReplyHangs | include/libndt7/libndt7.cpp:494-519 | an input for which they do not: the host name `{{hostname}}` |
| LocateReply.ReplySettles | include/libndt7/libndt7.cpp:494-519 | what the reply is whenever there is one: every placeholder filled in with its value run through the later passes; and with the value itself if no value contains a later placeholder |
| LocateReply.GetStaticLocateResult | include/libndt7/libndt7.cpp:494-519 | the four loops, against that; and so, by `ReplyUrls.ReplyIs`, the literal text |
| LocateReply.ReplyExactly | include/libndt7/libndt7.cpp:494-519 | for scheme, port and options with at most one opening brace each: the reply is the simultaneous substitution if and only if the host name contains none of the three later placeholders |
| ReplyUrls.ReplyIs | include/libndt7/libndt7.cpp:494-519 | for values without opening braces the reply is the literal text with the values in it |
| ReplyUrls.ReplyOffers | include/libndt7/libndt7.cpp:494-519 | it offers download and upload under their keys at URLs that `parse_ws_url` reads back as scheme, host name, port, and the path /ndt/v7/ with the options |
| ReplyUrls.ReplyNames | include/libndt7/libndt7.cpp:498-503 | and it names the machine |
| ReplyExamples.PortAsHost | include/libndt7/libndt7.cpp:494-519 | for all of those the host name `{{port}}` comes out as the port |
| ReplyExamples.NotSimultaneous | include/libndt7/libndt7.cpp:494-519 | an input for which the passes are not simultaneous: that host name with scheme `ws` and port `80` |
| ReplyExamples.ReplyRecovers | include/libndt7/libndt7.cpp:494-519 | why `ReplyExactly` asks for few braces: an input with a later placeholder in the host name whose reply is as it should be, because the port puts back what the scheme has changed |
| Urls.TailExact | include/libndt7/libndt7.cpp:2520-2521 | port and path are read exactly as they print |
| Urls.AuthorityExact | include/libndt7/libndt7.cpp:2512-2522 | the deterministic parser finds exactly what the ordered alternatives of the regular expression match, and that is unique |
| Urls.UnambiguousExactly | include/libndt7/libndt7.cpp:2512-2522 | a host with a separator is unambiguous if and only if its text has no reading by the standard host form |
| Urls.AuthorityRoundTrip | include/libndt7/libndt7.cpp:2512-2522 | host, port and path are read back if and only if the host is unambiguous, whatever port and path are |
| Urls.ParseParts | include/libndt7/libndt7.cpp:2526-2546 | what a successful parse has found prints as the URL did; a missing port becomes 80 for ws and http, 443 for wss and https, and nothing else |
| Urls.ParsePrintParse | include/libndt7/libndt7.cpp:2526-2546 | for every string, parsing the printed parts gives the same parts, default port included |
| Urls.PrintParseExact | include/libndt7/libndt7.cpp:2526-2546 | exactly which parts survive printing and parsing |
| Urls.UsualUrl | include/libndt7/libndt7.cpp:2512-2546 | character by character: scheme, host name, port and path are read back |
| Urls.BracketedUrl | include/libndt7/libndt7.cpp:2512-2546 | the same with an address in brackets |
| Urls.BracketsWithoutSlash | include/libndt7/libndt7.cpp:2515-2519 | a bracketed host without a slash is never ambiguous |
| Urls.BracketsWithSlash | include/libndt7/libndt7.cpp:2515-2519 | `[1:2/x]` is: it is read as host `[1`, port 2 and path `/x]` |
| LocateParams.GetNextToken | ndt7-client-cc.cpp:96-107 | the token up to the first place where the separator stands, what follows the first character of the separator, and nothing touched at the end of the text |
| LocateParams.ParseLocateParams | ndt7-client-cc.cpp:210-219 | the nested loop ends, also when source and target of a token are the same object, and equals its specification |
| LocateParams.JoinRoundTrip | ndt7-client-cc.cpp:210-219 | any list of separator-free keys and comma-free values, joined, is read back as the assignments it stands for, on top of what was there |
| LocateParams.LastWins | ndt7-client-cc.cpp:210-219 | of several values for a key the last one is kept, and other keys stay |
| LocateParams.AnyTokens | ndt7-client-cc.cpp:210-219 | every list of tokens: an empty one assigns nothing, one without "=" assigns the empty value to itself, and one with it what follows the first "=" |
| LocateParams.SplitAtCommas | ndt7-client-cc.cpp:210-219 | and every text is such a list |

## Left out

- A direction of a connection that has failed stays failed in the model. The client never uses it again, except that it may answer a CLOSE after receiving has ended, which is the other direction.
- The scripts are finite. A script that runs out means that the next wait times out; an endless stream of PINGs or carriage returns is not modelled, and nothing is claimed about wall-clock time.
- Netx.Conn.WaitToReceive: the call to `poll`, its clamped timeout, its event flags and its retry after an interruption are one scripted outcome.
- Netx.Conn.WaitToSend: the same.
- Netx.Conn.RecvNonblocking: the refusal of a TLS descriptor without a TLS object is not modelled; TLS reads are made only on a connection whose object is installed.
- Netx.Conn.SendNonblocking: the same for writes.
- A failing `SSL_write` that must be repeated with the same buffer is seen only as "not ready".
- MessageReceiver.WsRecvFrame: for an empty buffer the source leaves the out-parameters as the caller had them; here they are the zeros that the client's own callers put there.
- MessageReceiver.WsRecvMsg: the same.
- Null out-parameters and the guards on pointer overflow have no counterpart: arrays and indices replace pointers.
- Frames.LengthBytesCorrect: shifts by multiples of 8 are written as division by powers of 256.
- Handshake.FlagsOfMember: the header flags are a set of names, not bits of a 64-bit number.
- TestLoops.DownloadExact: `total` is not wrapped at 2^64, which the source assumes cannot happen.
- TestLoops.ServerSeesUpload: the payload is arbitrary, not random printable characters, and how a measurement is rendered as JSON is an arbitrary function of its reading.
- Netx.Conn.Sendn: what is sent must have a length below 2^64; `WsSendFrame`, the handshake and the tests ask for a few bytes less, for what they add to strings in memory.
- Handshake.ShakeExact: for requests within the limit of a single write (2^31 - 1 bytes with TLS); longer ones fail with `invalid_argument`, which `Netx.Conn.Sendn` covers.
- Handshake.ShakeLeaves: the same limit.
- Handshake.SendLinesExact: the same limit, line by line.
- Replacement.ReplaceAllWith: requires exactly the condition of `TerminatesExactly`, since there is no result to speak of otherwise.
- LocateReply.GetStaticLocateResult: requires exactly the condition of `ReplyEndsExactly`, for the same reason.
- LocateReply.ReplyExactly: is not claimed for a scheme, a port or options with two or more opening braces, where a later pass can put back what an earlier one has changed (`ReplyExamples.ReplyRecovers`); `ReplySettles` covers them.
- BraceCount.SimultaneousExactly: the same.
- Urls.AuthorityExact: the regular-expression engine itself is not part of this model; its two ordered alternatives and its greedy groups are a predicate on strings.
- WholeRun.LifeOfARun: assumes that the system never hands out a descriptor that is open.
- Connecting.ConnectExact: for requests within the limit of a single write, like `ShakeExact`.
- PassOrder.LastPassExactly: assumes distinct names, as the four of the source are; a second binding of a name would never be used.
- NestedValues.NestedExactly: the same.
- Ownership.CloseSocketKeeps: whatever `close` returns, the descriptor is gone.
- The certificate checks, the BIO shim and the mapping of TLS errors are not modelled; the TLS handshake is one outcome.
- The resolver's answers, the non-blocking switch and `getsockopt` are inputs of an attempt.
- Ndt7.Tester.OnText: what the JSON parser finds in a text is an arbitrary function of the text; the stored documents themselves are not modelled.
- The Locate API behind the outcome of its query, TCP_INFO and the retransmission rate of uploads are not part of this model.
- Logging, progress output, the summary's printing, `BatchClient` and the other command-line options only produce output.
- The quality of the random masks and the fixed WebSocket key: masks are an arbitrary sequence of keys.
- Clock readings are exact reals, so rounding of elapsed times and speeds is not modelled.
- Branches for Windows.

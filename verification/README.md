# Verified model of sms-relay

sms-relay runs on an LTE modem. It takes ready-made SMS-SUBMIT PDUs from a panel, over an
outbound WebSocket or an HTTP hook, and passes them to the modem. This project models the
relay's protocol engine in Dafny and proves what it promises:

- **WebSocket layer** (`Frames`, `Messages`, `Connection`, `Writers`). `Frames` defines every
  frame a peer may send (sections 5.2 and 5.3 of RFC 6455) and the reader's decision on a byte
  stream. `Messages` says, as a property of the frames on the wire, what a message is
  (sections 5.4 and 5.5), and shows that the reader delivers exactly those.
  `Connection.WsConn` is the connection object; its methods are proved against these functions.
  `Writers` is the write mutex with any number of goroutines, and `ReadLoop` the read loop and
  the ping ticker stepping through it in any order.
- **Payload decryption and the serve loop** (`Cbc`, `Serving`, `ServeLoop`). CBC (section 6.2 of
  NIST SP 800-38A) and PKCS#7 padding (section 6.3 of RFC 5652) over an abstract block cipher, and
  the meaning of a whole stream, for one goroutine and in all interleavings with the ticker.
- **Send pipeline** (`Gate`, `Pipeline`, `Retry`). Both frontends, the cooldown, the failure
  backoff and the modem mutex. `Pipeline.Relay` holds the shared variables; the step system
  lets every handler, every worker and the clock move in any order.
- **PDU and atserver codecs** (`Text`, `Pdu`, `Reports`, `AtServer`, `Sessions`). The PDU decoder
  against a reference encoder (sections 9.2.2.2 and 9.1.2.5 of 3GPP TS 23.040), the TP-SRR rewrite,
  the delivery report, the fixed-size record, and both ways a PDU reaches the modem.
- **Raw port** (`AtPort`, `PortSession`, `FdSets`). The reader/closer protocol as a step system,
  a whole session on top of it, and the select(2) bit array as a set of integers.

`Bits` holds bit operations and byte orders, `Wrappers` the result types, `Vectors` known answers:
the example frames of section 5.7 of RFC 6455 and the PDU of the repository's tests.

Strings are sequences of code points: request PDUs come out of a JSON decoder, so they are
valid text. Durations are nanoseconds. The random source is an arbitrary function from draw
number to mask or failure, a transport is an arbitrary number of bytes it still accepts, the
clock is a number that never decreases, and the modem's answers are arbitrary.

Where the code differs from its own comments or from what one might expect, the model follows
the code, and the difference is a proved statement:

- ws.go:540-541 says the reconnect attempt counter is reset only after a session that lived.
  The code resets it after every handshake (ws.go:506), so the reset at ws.go:525-527 changes
  nothing: `Retry.SessionLengthInert`.
- The backoff check and the failure update are separate critical sections, so a transmission
  can start while the backoff window is open: `Pipeline.WindowCanBeMissed` gives a run, and
  `Pipeline.WindowRace` says exactly when.
- A drain between a read and its append does not drop the chunk in flight:
  `AtPort.DrainCanMiss` and, for the exact condition, `AtPort.BufferMeaning`. The next wait can
  then accept a word that was not read since the drain, exactly when that chunk has the word or
  ends in a beginning of it: `PortSession.StaleExact`. `PortSession.SentOnStaleReply` gives a
  session that counts as sent that way, and `PortSession.SentRestsOn` says it is the only way.
- The decoder trims white space but the raw text is sent. The transports then agree exactly when
  the PDU does not end in CR or LF (`AtServer.TransportsAgree`; a line feed after any PDU makes
  them differ, `AtServer.TransportsCanDisagree`), and the delivery-report rewrite takes effect
  exactly when nothing surrounds the digits (`Pdu.ReportKeepsMeaning`, `Pdu.ReportCanBeSkipped`).
- After a failed write another goroutine may still write (a plain TCP transport lets it; a TLS
  one refuses all further writes). The frames on the wire are out of step exactly when some write
  failed after the first byte of its frame: `Writers.AlignmentExact`. A write that fails before
  that does no harm. `Writers.TornFrameLosesSync` shows the cost: a whole frame nobody can read.
- A negative `pdu_length` is passed on by the hook and replaced by the socket frontend:
  `Gate.LengthsAgree`. A `-allow-to` value without a digit restricts nothing: `Gate.AllowedExact`.

## Model

| member | source | states |
|---|---|---|
| Frames.MaskedTwice | ws.go:303-306 | masking with the same key twice restores any payload |
| Frames.MaskedDigits | ws.go:303-306 | byte i of a masked payload differs from the payload in the digits of mask byte i mod 4 |
| Bits.XorBit | ws.go:305 | the masking operation differs digit by digit from its operand exactly where the mask has a one |
| Bits.AndBit | ws.go:335-337 | the masking test keeps a digit exactly where both operands have it |
| Bits.XorByteBit | ws.go:305 | the byte written differs from the payload byte exactly in the digits of the mask byte |
| Bits.BitValue | ws.go:305 | digit k of a number is the one worth 2^k |
| Bits.BigEndianBytes | ws.go:287-296 | byte i of n is the multiple of 256^(n-1-i): the high byte goes first |
| Bits.LittleEndianBytes | main.go:797-798 | byte i is the multiple of 256^i: the low byte goes first |
| Frames.ByteTests | ws.go:335-337 | the reader's masks 0x0F, 0x7F and 0x80 pick out the opcode, the 7-bit length and the flag bit of any byte |
| Frames.MarkHigh | ws.go:280-297 | OR-ing 0x80 into a byte below 128 sets the flag and keeps the rest |
| Frames.ParseEncode | ws.go:323-381 | for every reserved-bit setting, length form and masking, reading an encoded frame of at most 65536 bytes followed by anything gives its opcode, FIN and payload and leaves exactly what follows |
| Frames.ParseOversize | ws.go:351-362 | a frame announcing more than 65536 bytes, up to 2^64-1, is refused with its full size as soon as the length field is there |
| Frames.ParseCut | ws.go:331-371 | no proper prefix of a frame is taken for a frame |
| Frames.ParseSound | ws.go:323-381 | whatever the reader accepts is one legal encoding of what it reports, followed by the rest |
| Frames.ClientFrameIsLegal | ws.go:279-303 | the writer's bytes are the FIN-set, masked encoding with the shortest length form |
| Frames.ClientRoundTrip | ws.go:279-303 | what is written reads back, with the rest of the stream, if the payload is at most 65536 bytes, and is refused with its size otherwise |
| Frames.HeaderBytes | ws.go:335-366 | the bytes of every legal header, one by one: flags and opcode, mask flag and length code, extended length, key |
| Frames.GoIntExact | ws.go:355 | narrowing to a 32-bit int keeps the value modulo 2^32 and every value in range |
| Vectors.FramesWritten | ws.go:279-303 | the writer's bytes for the masked examples of section 5.7 of RFC 6455 and its headers for 256 bytes and 64 KiB |
| Vectors.MaskedParsed | ws.go:323-381 | the masked example of section 5.7 of RFC 6455 reads as the text "Hello" |
| Connection.WsConn.WriteFrame | ws.go:275-321 | filling the header buffer, masking in a loop and writing header and body separately puts exactly the specified frame on the wire, or a prefix of it when the transport fails, or nothing when the random source fails |
| Connection.WsConn.ReadFrame | ws.go:323-382 | reading into buffers and unmasking in place gives the specified frame or error; no buffer above 65536 bytes is allocated, whatever is announced |
| Connection.WsConn.ReadLength | ws.go:338-362 | the length is compared with the cap before it is narrowed to a 32-bit int, so narrowing never changes it |
| Connection.WsConn.Unmask | ws.go:372-376 | in-place unmasking equals masking of the old contents |
| Messages.ReceiveSound | ws.go:384-422 | a delivered message was on the wire as frames that carry it, the pings passed were answered in order, and the rest is untouched |
| Messages.ReceiveComplete | ws.go:384-422 | every message on the wire whose pings can be answered is delivered, for any fragmentation and any control frames in between |
| Messages.ReceiveExact | ws.go:384-422 | a message is delivered if and only if the stream starts with frames carrying it: latest start frame plus its continuations, ended by the first final data frame, never above the cap |
| Messages.ReceiveEnds | ws.go:390-417 | when reading fails, all frames before were taken in and answered, and the stated reason holds of the next frame |
| Messages.ReceiveStops | ws.go:390-417 | and the other way round: after frames that leave the reader waiting, each reason to stop does stop it, with that reason |
| Messages.AfterMeaning | ws.go:405-414 | the reassembly buffer is the payloads since the latest start frame, under that frame's opcode |
| Messages.SendExact | ws.go:275-321 | a call of the writer succeeds exactly when a mask was drawn and the transport takes the whole frame; what reaches the wire is a prefix of that frame, and all the transport takes when the call fails on it |
| Vectors.MessagesRead | ws.go:384-422 | what the reader makes of a text, the same text in two fragments, a binary message, a pong, a close, opcode 3 and a lone continuation, given as bytes |
| Messages.PongsOnWire | ws.go:395-401 | with no other writer in between, answering pings writes one whole masked FIN pong per ping, in order, each with the payload of its ping |
| Connection.WsConn.ReadMessage | ws.go:384-422 | the loop over opcode and buffer computes the specified result and keeps every frame and reassembly buffer within 65536 bytes |
| Writers.StepSafe | ws.go:275-321 | every step of every goroutine keeps the account of the wire: each byte belongs to a whole frame, to the holder's header or to an abandoned frame, and without abandoned bytes the frames are in step |
| Writers.RunSafe | ws.go:275-321 | the same in every state of every interleaving |
| Writers.LostExact | ws.go:312-320 | bytes were abandoned exactly when some write failed after its frame's first byte |
| Writers.AlignmentExact | ws.go:275-321 | in every state of every interleaving the wire is whole frames and at most the lock holder's header if and only if no write failed after its frame's first byte |
| Writers.LockOrder | ws.go:276-277 | each whole frame is what one acquisition of the mutex asked for, later frames belong to later acquisitions, and no acquisition sends two |
| Writers.NothingMissing | ws.go:275-321 | no call failed if and only if the whole frames are one for one those of all acquisitions but the one at work |
| Writers.WireDecodes | ws.go:561-583 | at any moment, if no write failed after its frame's first byte, parsing the wire yields exactly the frames written whole, in lock order, up to the first above 65536 bytes, and without one leaves only the lock holder's header |
| Writers.TornFrameLosesSync | ws.go:315-320 | the other case happens: after a write that fails at its second byte, a later frame, though written whole, cannot be read |
| ReadLoop.PongsInOrder | ws.go:557-609 | in every interleaving of read loop, ticker and transport the frames written whole are, leaving out the ticker's empty pings, the hello and then one pong per ping read, in order and with its payload; at most the latest is still owed |
| ReadLoop.PeerSeesPongs | ws.go:395-401 | the wire is in step exactly as long as no write failed after its frame's first byte, and then that is what a peer reads off it when the hello is at most 65536 bytes |
| ReadLoop.DeliversInOrder | ws.go:384-422 | in every interleaving the bytes consumed are legal frames, each delivered message was carried by the frames read for it, and the frames since are an incomplete message |
| ReadLoop.TicksUntilFailure | ws.go:566-574 | the ticker goes on exactly until one of its own writes fails, and never takes the mutex after that |
| ReadLoop.TickerInBetween | ws.go:561-576 | for every hello and ping there is a run with the ticker's pings before the hello and between hello and pong |
| Cbc.DecryptInverts | ws.go:446 | CBC decryption undoes CBC encryption for every block-aligned text |
| Cbc.EncryptInverts | ws.go:446 | CBC encryption undoes CBC decryption |
| Cbc.DecryptBytes | ws.go:446 | every plaintext byte is the block cipher's byte XOR the byte one block earlier in IV and ciphertext |
| Cbc.EncryptBytes | ws.go:446 | every ciphertext block is the cipher's value of the plaintext block XOR the block before it |
| Cbc.PadMeaning | ws.go:448-456 | the padding is one to sixteen bytes, each their number, up to a multiple of 16 |
| Cbc.DecryptRefuses | ws.go:435-456 | each error is returned exactly for its reason: under 32 bytes, not a multiple of 16, no cipher, text that is no padded one |
| Cbc.UnpadExact | ws.go:448-457 | unpadding yields m if and only if the text is m with its padding |
| Cbc.DecryptExact | ws.go:434-458 | decryption returns m if and only if the data is its IV followed by the encryption of padded m |
| Cbc.RoundTrip | ws_test.go:20-57 | what the panel encrypts comes back, for every length and IV |
| Cbc.EncryptInjective | ws.go:434-458 | no two plaintexts or IVs share an encryption |
| Cbc.ValidExists | ws.go:442 | there are ciphers of the kind assumed, for any key byte |
| Cbc.FitsCap | ws.go:53 | an encryption fits one message exactly when the plaintext has at most 65519 bytes |
| Cbc.CryptBlocks | ws.go:445-446 | the block loop fills the output with the CBC decryption |
| Cbc.WsDecrypt | ws.go:434-458 | length checks, decryption and padding scan compute the specified result or error |
| Serving.ServeDelivers | ws.go:588-608 | any sequence of notes, encrypted commands and undecryptable data, each fragmented and interleaved at will, hands over exactly the commands in order and leaves the loop at the bytes that follow |
| Serving.ServeAll | ws.go:588-608 | when nothing follows, the session ends with the stream after exactly those commands |
| Serving.ServeSound | ws.go:588-608 | on every stream, what was handed over is exactly the commands of the messages at its front, and the loop stops where no message follows |
| Serving.HelloFirst | ws.go:578-582 | a hello of any size goes out as one masked text frame before anything is read, and nothing is handed over when it cannot |
| Serving.ServeByOpcode | ws.go:391-608 | what the loop does with the next frame by the opcode on the wire: 1 is skipped, 2 decrypted and handed over, 9 answered with 10, 10 skipped, and everything else ends the session |
| Serving.SessionDelivers | ws.go:578-608 | the whole session, without a hello or after one that was sent: for any messages on the stream whose pings can be answered, exactly the commands are handed over in order and the loop ends with the stream |
| Serving.SessionSound | ws.go:578-608 | the whole session on any stream: what was handed over is exactly the commands of the messages the stream starts with, and nothing is read when a hello cannot be sent |
| ServeLoop.HandsOverInOrder | ws.go:561-608 | for any notes, commands and undecryptable data sent, in every interleaving with the ticker, what was handed over is exactly the commands of the messages delivered so far, in order, and the loop returns before the last of them only because it could not write a frame |
| Connection.WsConn.WsServe | ws.go:557-609 | with the ticker off (-ws-ping 0), hello and loop together hand over what the specification says and stop for its reason |
| Retry.ComputeBackoff | main.go:99-114 | the doubling loop returns 0 below three failures and min(2 h, 5 min * 2^(fails-3)) from there on |
| Retry.BackoffMonotone | main.go:99-114 | the pause never shrinks with more failures, is positive from the third on and at most 2 h |
| Retry.BackoffTable | main.go:99-114 | the pause in seconds is 0 below three failures, then 300, 600, 1200, 2400, 4800, and 7200 from the eighth on |
| Retry.WsBackoffClosedForm | ws.go:542-551 | the pause is min(60 s, 2^attempt s) although the exponent is clamped at 10 |
| Retry.WsBackoffTable | ws.go:542-551 | the redial pause in seconds is 1, 2, 4, 8, 16, 32, and 60 from attempt 6 on |
| Retry.RunWS | ws.go:492-531 | over every run of dials and sessions, each pause is min(60 s, 2^j s) with j pauses since the latest handshake or the start |
| Retry.SessionLengthInert | ws.go:506-527 | runs that agree on which dials succeed have equal pauses whatever the session lengths, and every session is followed by 1 s |
| Gate.SplitExact | main.go:544 | the entries are the comma-free pieces whose joining gives the flag back |
| Gate.NormalizeMeaning | main.go:554-562 | normalising keeps each decimal digit in place and drops every other character |
| Gate.DigitsListed | main.go:557 | the digits kept are 0 to 9 |
| Gate.AllowedExact | main.go:543-578 | a recipient passes exactly when no entry has a digit, or its digits are those of some entry |
| Gate.NormalizeMSISDN | main.go:554-562 | the loop keeps exactly the decimal digits |
| Gate.ParseAllowList | main.go:543-548 | the loop collects the normalised entries that have a digit |
| Gate.DestinationAllowed | main.go:567-578 | the scan finds the recipient exactly when it is listed, and an empty list allows all |
| Gate.AdmitExact | main.go:483-519 | both frontends let through exactly the PDUs that decode to an allowed recipient, with their text unchanged |
| Gate.JobLength | main.go:490-493 | the AT length of every admitted request: the announced one where the frontend takes it (non-zero on the hook, positive on the socket), else, also without one, the octets after the SMSC part |
| Gate.RefusedExact | ws.go:611-645 | every refusal is returned exactly for its reason |
| Gate.LengthsAgree | ws.go:634-637 | the hook sends the announced length, or the decoded one for 0, and the socket frontend agrees exactly for the lengths that are not negative |
| Pipeline.Relay.ClaimPDU | main.go:583-591 | a claim is granted exactly unless the same PDU was claimed less than a cooldown ago, and a grant records PDU and time |
| Pipeline.Relay.RecordOutcome | main.go:635-645 | success clears the failure state, failure extends it by the pause for the new streak |
| Pipeline.Relay.Handle | ws.go:627-658 | a request yields a job exactly when it is admitted and wins its claim, and changes nothing otherwise |
| Pipeline.TransmissionsAreGated | main.go:498-529 | in every interleaving each transmission has its own earlier claim for a PDU that decodes to an allowed recipient, no claim is used twice, and no two workers are in the transport together |
| Pipeline.GrantsSpan | main.go:583-591 | n uninterrupted grants of one PDU span at least n-1 cooldowns, whichever frontend asked |
| Pipeline.ClaimExact | main.go:586 | in every reachable state a PDU is turned down exactly when the latest grant was for it less than a cooldown ago |
| Pipeline.BackoffState | main.go:635-645 | in every reachable state the counter is the failures since the latest success and the backoff end is absent below three and else the latest failure plus its pause |
| Pipeline.ResultHeld | main.go:616-625 | after a transmission the worker holds its result and the modem is free |
| Pipeline.ResultKept | main.go:616-635 | nothing that happens before its report changes the result |
| Pipeline.ResultRecorded | main.go:635-645 | the report records exactly that result, at its time, and touches no other worker |
| Pipeline.CheckExact | main.go:604-613 | in every reachable state a worker that decides gives up exactly when the outcomes recorded at its check-read end in three or more failures in a row whose pause is not over |
| Pipeline.UntilGrows | main.go:639-642 | until a success is recorded the backoff end never moves back |
| Pipeline.LateStarterReadEarly | main.go:604-616 | a transmission that starts inside a window opened by a streak of three or more failures, with no success since, belongs to a worker whose check-read preceded the failure that opened it |
| Pipeline.WindowRace | main.go:604-645 | a transmission starts while the recorded state asks for a pause if and only if a failure recorded after its check-read ended a streak of three or more whose pause is not over, and no success came since; with no outcome recorded in between it never does |
| Pipeline.WindowCanBeMissed | main.go:604-645 | for every configuration that admits some request there is a run with a transmission inside an open window |
| Text.HexRoundTrip | port_linux.go:168-170 | hex encoding decodes back |
| Text.HexExact | main.go:726 | a string decodes to given octets if and only if it spells them: two digits each, in either case, the one worth 16 first |
| Text.HexEncodeDigits | port_linux.go:170 | octet i is written as two lower-case digits, the one worth 16 first |
| Text.HexAccepts | main.go:726 | a string decodes exactly when it is an even number of hex digits |
| Text.TrimSpaceMeaning | main.go:726 | trimming leaves a string alone exactly when no space is at either end |
| Text.TrimSpaceExact | main.go:726 | trimming takes spaces off both ends, all of them, and nothing else |
| Text.SpacesListed | main.go:726 | the characters trimmed, one by one |
| Text.TrimCrLfExact | main.go:786 | what is left after trimming a command: exactly the text that does not end in CR or LF and has only CR and LF after it |
| Text.UpperOfLetter | main.go:775 | letter i of the small alphabet becomes letter i of the large one |
| Text.UpperOfOther | main.go:775 | of the other characters only U+017F changes, to an S |
| Text.ContainsExact | main.go:776-777 | a string contains a word exactly when it is something before, the word and something after |
| Text.EncodeCharExact | main.go:799 | the octets of every character (section 3 of RFC 3629): lead octet by length, six bits in each that follows |
| Text.DecimalReads | main.go:848 | the printed length reads back as the same number, negative or not |
| Text.Utf8Injective | main.go:799 | different texts have different bytes |
| Pdu.DecodeInverts | main.go:725-756 | the decoder inverts the submit encoder for every SMSC header, digit count, filler and tail |
| Pdu.DecodeExact | main.go:725-756 | octets are accepted with given fields if and only if they encode a submit message with those fields; the phone has as many characters as the address length and the AT length counts the octets after the SMSC part |
| Pdu.AcceptedLength | main.go:735-754 | octets are accepted exactly when there are p[0] + 7 + ceil(n/2) of them |
| Pdu.FieldsExact | main.go:734-755 | in every accepted PDU digit j of the recipient is the low half of its octet for even j and the high half for odd j, and coding, reference and AT length come from the stated octets |
| Pdu.RefusedExact | main.go:726-732 | a PDU is refused as bad hex exactly when it spells no octets, and as cut exactly when its octets end before the fields |
| Vectors.SampleDecoded | ws_test.go:41 | the PDU of the repository's tests decodes to 380912345678, coding 0, AT length 14, reference 0 |
| Pdu.DecodeSubmitPDU | main.go:725-756 | the cursor loop, with an error where an index would panic, computes the specified result |
| Pdu.SetsOneBit | port_linux.go:169 | OR-ing 0x20 sets bit 5 and keeps every other bit |
| Pdu.ReportKeepsMeaning | port_linux.go:167-171 | for every accepted PDU the rewrite keeps recipient, coding, reference and AT length, changes one bit of the first TPDU octet when nothing surrounds the digits, and nothing otherwise |
| Pdu.EverySubmitAccepted | main.go:725-756 | every encoded submit message in hex is an accepted PDU with nothing around it, so the rewrite takes effect on it |
| Pdu.ReportCanBeSkipped | port_linux.go:168 | after any accepted PDU a line feed keeps the meaning but makes the rewrite leave the octets unchanged |
| AtServer.FrameDecodes | main.go:785-801 | a command has a record exactly when its text fits 512 bytes; the record has 0x208 bytes and gives back text and timeout |
| AtServer.RecordDecodes | main.go:796-799 | length, timeout and text fields of any record decode back, and every other byte is zero |
| AtServer.RecordBytes | main.go:796-799 | the 520 bytes of a record, one by one |
| AtServer.IsCmgsExact | main.go:774-778 | a text is two-stage exactly when it has a '>' and a +CMGS= or +CMGW= in any mixture of cases |
| AtServer.FrameText | main.go:786-793 | the record's text is the command without trailing CR and LF, with CR LF after it unless it is two-stage; a command without '>' always has it |
| AtServer.MillisecondsExact | main.go:798 | the timeout is cut to whole milliseconds toward zero |
| AtServer.FrameInjective | main.go:786-799 | two requests have the same record exactly when the commands are equal up to trailing CR and LF and the timeouts agree in milliseconds modulo 2^32 |
| AtServer.CrLfIgnored | main.go:786 | appending CR and LF to a command does not change its record |
| AtServer.AtSrvFrame | main.go:785-801 | building in a zeroed fixed buffer gives the specified record or error |
| AtServer.ResponseDecodes | main.go:817-827 | a response cut anywhere gives the announced text as far as it came, or an error without a header |
| AtServer.AtServerSees | main.go:848 | for every accepted PDU the record's text has one '>' and no CR or LF at the end, and splits into the command line and the upper-cased PDU |
| AtServer.CmgsFits | main.go:793-795 | a PDU without surrounding space fits one record exactly when 9 characters, the printed length and its digits make at most 512 |
| AtServer.TransportsAgree | main.go:848 | both transports put the same stage before Ctrl-Z exactly when the PDU does not end in CR or LF; without surrounding space they agree and the stage decodes to the original octets |
| AtServer.TransportsCanDisagree | main.go:848 | a line feed after any accepted PDU is decoded to the same message, yet the two stages differ |
| AtServer.ReportStageKeepsMeaning | port_linux.go:184 | with the report requested the raw stage decodes to the same message |
| Sessions.WaitFor | port_linux.go:127-144 | the answer is the first polled buffer with a token, else the final buffer |
| Sessions.SendPDU | port_linux.go:153-202 | a raw session writes a prefix of the script; the PDU is written exactly after PDU mode and prompt, once, and counts as sent exactly when then acknowledged |
| Vectors.ScriptWritten | port_linux.go:153-187 | the commands of a raw session, with and without the report |
| Sessions.AtSrvCmd | main.go:803-828 | a request whose dial fails sends nothing, one whose write fails the bytes the socket took, and an answered one its record; the text comes back only from an answer with a header |
| Sessions.ReachedWhole | main.go:808-815 | nothing reaches a socket that was not dialled, a failing write delivers the bytes the socket took, an answered request its whole record of 520 bytes |
| Sessions.AskExact | main.go:816-827 | an answer is the characters after the eight-byte header, as many as its first two bytes announce but no more than came and at most 10240 |
| Sessions.SessionTexts | main.go:833-848 | the set-up records carry their commands with CR LF and 5 seconds, the PDU record its command without and 30 seconds |
| Sessions.SendPDUviaATSrv | main.go:832-853 | each request is made only after the one before was answered well; the PDU record reaches the socket whole exactly when error reporting was answered, PDU mode confirmed, the text fits and the third socket takes it all; it counts as sent exactly when then the answer names +CMGS |
| Reports.FieldsOfWord | port_linux.go:206 | the fields of a line are its words between spaces, in order |
| Reports.OctetsExact | port_linux.go:207-210 | a token stands for given octets if and only if it spells them in hex and is not empty |
| Reports.Longest | port_linux.go:205-213 | the scan finds the first of the longest tokens that are hex octets |
| Reports.StatusExact | port_linux.go:218-226 | the status read is st if and only if the octets are a status report (section 9.2.2.3 of TS 23.040) with status st |
| Reports.DecodeCDS | port_linux.go:204-235 | the cursor, with nothing where an index would panic, reads the status of the token found |
| Reports.ReportIsFound | port_linux.go:204-235 | a report that is longer than every other hex token of the line is found, its status read and labelled delivered for 0, in transit below 32, not delivered from there on |
| AtPort.DescriptorLifetime | port_linux.go:72-125 | in every interleaving each system call meets an open descriptor, closing comes only after the reader is gone, and the timeout leaves it open |
| AtPort.AtMostOneLateRead | port_linux.go:75-96 | after the stop request there is at most one further read |
| AtPort.LeavesExactly | port_linux.go:72-108 | the reader is out of its loop exactly when it saw the stop request or a select or read failed |
| AtPort.ReadsWhenReady | port_linux.go:85-100 | before every read the reader's latest step is a select that reported data, before every select a look at the stop request, before every append the read of its chunk |
| AtPort.ClosesOrGivesUp | port_linux.go:116-125 | both endings of close happen |
| AtPort.ReadsBeforeDrain | port_linux.go:96-108 | before the first drain, buffer and chunk in flight are everything read |
| AtPort.ReadsSinceDrain | port_linux.go:96-110 | buffer and chunk in flight are what was in flight at the latest drain followed by all reads since |
| AtPort.BufferMeaning | port_linux.go:96-110 | the buffer equals the reads since the latest drain exactly when the drain did not fall between a read and its append |
| AtPort.DrainCanMiss | port_linux.go:96-110 | for every chunk there is a run in which a drained buffer still shows it |
| PortSession.FreshOrTainted | port_linux.go:127-150 | a word that a wait accepts was read since the drain of its exchange, or the chunk in flight at the drain has it or ends in a beginning of it |
| PortSession.StaleExact | port_linux.go:127-150 | from any state of any run, a wait can accept a word that was not read since the drain if and only if the chunk in flight at the drain has it or ends in a beginning of it |
| PortSession.SentRestsOn | port_linux.go:153-188 | in every interleaving, a session that counts as sent read OK, the prompt and +CMGS each after the drain of its own exchange, except for a word supplied or begun by a chunk in flight at that drain |
| PortSession.SentOnStaleReply | port_linux.go:182-188 | for every PDU and every chunk with +CMGS or ending in a beginning of it there is a run in which the session counts as sent although +CMGS was not read since the last drain |
| FdSets.FdSet.Zero | port_linux.go:34-38 | the set becomes empty |
| FdSets.FdSet.Set | port_linux.go:40-49 | exactly an in-range descriptor is added, for any word width, and nothing else changes |
| FdSets.FdSet.IsSet | port_linux.go:51-60 | true exactly for the members |
| FdSets.OneBitSet | port_linux.go:46-48 | OR-ing one bit into one word adds that descriptor and no other |
| FdSets.AfterMeaning | port_linux.go:34-60 | after any sequence of calls a descriptor is in the set exactly when it is in range and was set after the last zero |
| FdSets.Replay | port_linux.go:34-60 | running any sequence of calls leaves the set the history says |

## Left out

- TCP and TLS dialling, the Upgrade handshake, certificate pools: library calls; the model starts at the bytes after the handshake.
- AES itself and JSON parsing: the cipher is any pair of inverse maps on 16-byte blocks, a request is a datatype.
- Deadlines on reads and writes: a read timeout is the end of the stream, a write timeout a transport that takes no more bytes.
- Connection.WsConn.WsServe: one goroutine; with the ticker on, `ReadLoop` and `ServeLoop` say what holds in every interleaving.
- Messages.PongsOnWire: one writer; `ReadLoop.PongsInOrder` says it with the ticker in between.
- ReadLoop: the ticker's interval is not modelled; it may fire at any time until one of its writes fails.
- Text.ToUpper: exact for ASCII and U+017F; other letters, whose upper case the code never looks for, are left as they are.
- Pipeline: the logger, `pickTransport` and the result text of a transmission are not modelled; a transmission succeeds or fails arbitrarily.
- Sessions.SendPDUviaATSrv: the two pauses between requests are not modelled.
- Sessions.SendPDU: the wait for +CDS after a success and the wording of results are not modelled.
- Reports.DecodeCDS: the labels are the code's; they do not follow section 9.2.3.15 of TS 23.040 and no conformance is claimed.
- Retry.RunWS: the attempt counter is unbounded; in the program it would take centuries to overflow.
- Sessions.AtSrvCmd: the deadline is not a clock; what comes back after it does not count as sent back.
- FdSets.FdSet: signed words are modelled by their bit patterns.
- HTTP request parsing and routing, watchdog, self-test, logging and redaction: plumbing and operating-system calls.

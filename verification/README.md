# A verified model of the ST87M01 NB-IoT driver

The driver runs a modem over AT commands. It gives Mbed sockets whose data the modem queues segment by
segment, TLS credentials kept in the modem's profiles, a choice among the PDP contexts the modem brought up,
and the modem's own HTTP client. This project models the parts of it that hold state, loop or calculate, and
proves what they keep.

The modem is an object whose every answer is left open (`Modem.AtModem`, `TlsProfiles.TlsModem`): refusals,
lost answers, failures of commands that took effect, an id named in an answer that then fails, transfers that break,
any status, any clock that does not run slower than the pauses. It keeps
its own record of the commands it got and of what it chose to answer, in ghost fields that only its methods
write; whatever a driver contract says about answers and faults, it says about that record. What else the driver
depends on is a parameter, `Modem.World`: whether a name resolves, an IP address is there, a timer can be scheduled.
A class with the source's fields stands for each driver object, its methods are proved
against step functions (`RxStream.Recv`, `TxWake.Step`, `SocketTable.Table.Closing`, `Platform.Effect`,
`HttpSession.Advance`), and lemmas over whole runs are about those functions.

| file | part |
|---|---|
| `RxStream.dfy` | one socket's receive side, over runs of arrivals, announcements, reads and closes |
| `Modem.dfy`, `Stack.dfy` | AT transport, socket records, buffers; the socket stack's operations |
| `SocketTable.dfy` | the table of records: lookup by id, and what closing by id does to live records |
| `StackRuns.dfy` | runs of the class: it follows the receive model, end-to-end delivery, sends of several sockets, two sessions in a row |
| `Payloads.dfy` | which bytes the modem's log shows as accepted for which socket |
| `RxPool.dfy` | buffer ownership |
| `TxWake.dfy` | the deferred wake-up after a refused send |
| `TcpConnect.dfy` | the bounded-retry connect |
| `HexCodec.dfy`, `RsaGate.dfy` | credential text, DER lengths, the RSA size gate |
| `TlsProfiles.dfy` | keys and certificates in the sixteen profiles |
| `PdpChoice.dfy` | which PDP context is taken over |
| `HttpSession.dfy` | HTTP sessions and the order of their commands |

`Common.dfy` holds shared vocabulary. `dafny verify dfyconfig.toml` checks everything.

## Where the code does less than it seems to

Each of these is in the model as the code has it, with the exact condition proved where there is one.

- A receive of size 0 that has to fetch drops the segment, and so does one whose transfer breaks
  (`RecvKeepsStreamIff`); a remote close drops what was not read (`RemoteCloseKeepsStreamIff`,
  `RemoteCloseDropsRest`).
- Such a receive also takes back every other credit: announced segments stay queued at the modem, and the
  reader is told to wait until a later one is announced (`ReceiveExactIff`, `SizeZeroStrands`).
- An empty datagram is announced and taken, but its credit stays (`EmptyDatagramLeavesCredit`, `LeaksIff`). The
  comment at src/ST87M01_CellularStack.cpp:1052 says every `#IPREAD` takes one back.
- Reopening a UDP socket keeps its credits (`ReopenExactIff`, `ReopenLeavesCredit`) and loses its TLS profile
  (`ReopenUdp`). For an id above 6 the profile slot is read outside its table; the value read there is left open
  (`ProfileOf`).
- A close by the driver of an id whose record did not see the remote end close frees the buffer and leaves the
  record in the table as a live one (`BereavedIff`). When the modem gives the id out again that record is the one
  found under it (`FoundIsReached`, `TwoSessions`), and the new session, though it has a buffer, never learns of its data
  (`ShadowedStarves`, `SecondSessionStarves`).
- After a refused send only the socket that started the timer is called back (`WokenIff`,
  `SecondRefusalUnnoticed`). When no timer runs and none can be scheduled the socket is marked all the same, and
  stays so with no timer running (`RefusedArmedIff`, `UnscheduledStaysMarked`).
- The size gate lets every well-formed key through that spells a length before its modulus with more than four
  octets, however large the modulus (`ParserSucceedsIff`, `OversizedKeyPasses`). X.690, section 8.1.3, allows such
  lengths, though DER's shortest form does not use them below 2^32.
- The cap of 4096 counts the text of a hex upload, not its bytes: a DER of more than 2048 bytes is accepted, and
  no hex text of it is (`HexAcceptedIff`, `SameEffectIff`, `LongHexRefused`).
- The RSA parser looks at one octet beyond its data exactly when the data ends behind the length of a non-empty
  modulus (`PastEndIff`); never on a well-formed key (`GateIsExact`). The octet is a parameter, `beyond`, and can decide
  whether the upload is refused (`BeyondDecides`).
- The size gate is for certificates only; a key of any size is uploaded (`KeyShows`).
- Hex text is taken for DER exactly when its first character is the digit `0`, whose code is the SEQUENCE tag
  (`HexRecognisedIff`). Text of a DER SEQUENCE never starts that way (`CredentialNormalisation`).
- `add_ca_certificate` replaces whatever key the profile held (`LastKeyCallWins`, `EnsureKey`), also one uploaded
  for a device certificate, and also when the upload then fails.
- `volatile_storage` changes nothing that reaches the modem (`AddCertificate` fixes the commands without it),
  although the repository's own README.md:189 and the comment at include/st87m01/ST87M01_CellularStack.h:39 speak of RAM.
- The comment at src/ST87M01_CellularContext.cpp:327 ranks "other" contexts last; in fact an inactive context
  whose APN does not match is never taken (`SelectExistingCid`).
- An id the modem names before it fails the creation is not closed: the record never gets it (`CreateSocketImpl`,
  `NamedInVain`). And `close_tcp_session` issues no command for an id outside 0..6, and none when the record found is
  known to be closed. So a failing `http_open` closes the id it was given if and only if the answer was OK, no record
  before the new one has the id and is known to be closed, and the id is in 0..6 or the connect itself failed
  (`FailedOpeningCloses`).
- The context's `close_all_sockets` does not know of an open HTTP session: it closes the session's socket before the
  service is stopped, exactly when the record found under its id is not known to be closed
  (`HttpContext.CloseAllSockets`).
- A request that fails before its response leaves `response.success` as an earlier request set it (`Perform`).

## Model

| member | source | states |
|---|---|---|
| RxStream.StreamFidelity | src/ST87M01_CellularStack.cpp:662-788 | over every error-free run of arrivals, `#IPRECV` lines and reads of size > 0, delivered bytes, buffered bytes and queued segments (cut to the buffer size) are together all that arrived, in order, and the credits are the announced segments still queued |
| RxStream.RecvKeepsStreamIff | src/ST87M01_CellularStack.cpp:662-777 | one TCP receive keeps the stream whole if and only if it does not fetch a segment with size 0 or a broken transfer |
| RxStream.RemoteCloseKeepsStreamIff | src/ST87M01_CellularStack.cpp:1083-1092 | a remote close keeps the stream whole if and only if nothing was buffered |
| RxStream.RemoteCloseDropsRest | src/ST87M01_CellularStack.cpp:1083-1092 | a run in which a remote close behind a short read drops the rest of the segment for good |
| RxStream.ClosedForGood | src/ST87M01_CellularStack.cpp:655-657 | over every run of either protocol, with any faults, announcements, sizes and reopenings, a read is told that the connection is lost if and only if a remote close came before it |
| RxStream.AnswerIs | src/ST87M01_CellularStack.cpp:645-788 | the answer of a receive in every case, with the number of bytes as a minimum of size, buffered or segment, and buffer size |
| RxStream.BlocksIff | src/ST87M01_CellularStack.cpp:664-684 | in an error-free run a receive is told to wait exactly when buffer and announced queue are both empty |
| RxStream.DrainDelivers | src/ST87M01_CellularStack.cpp:664-788 | as many receives as there are bytes deliver the whole announced backlog in order, whatever positive sizes they ask for, and leave no credit |
| RxStream.EventualDelivery | src/ST87M01_CellularStack.cpp:662-788 | once every segment of an error-free run is announced, as many receives as there are bytes left deliver the whole arrived stream |
| RxStream.DatagramFidelity | src/ST87M01_CellularStack.cpp:703-723 | over every error-free UDP run the i-th read is the i-th datagram cut to its caller's size |
| RxStream.DatagramDelivery | src/ST87M01_CellularStack.cpp:662-723 | once every datagram of an error-free run is announced, as many receives as are queued have delivered each one, cut to its size |
| RxStream.CreditLedger | src/ST87M01_CellularStack.cpp:769-783 | over every run, with any faults, sizes, closes and reopenings, the credits are the announced segments the modem has not given up, plus one for each receive that leaks and the segments lost in reopenings, minus what receives strand, and never exceed the queue by more than the former |
| RxStream.LeaksIff | src/ST87M01_CellularStack.cpp:688-699 | a receive takes a segment from the modem and no credit back if and only if the modem gives the segment up without answering, or it is empty |
| RxStream.StrandsIff | src/ST87M01_CellularStack.cpp:686-788 | a receive takes back more credits than segments if and only if it ends without data after a header while more than one was outstanding |
| RxStream.ReceiveExactIff | src/ST87M01_CellularStack.cpp:686-788 | a receive keeps exact credits exact if and only if it does not leak one, and does not end without data after the header while more than one was outstanding |
| RxStream.EmptyDatagramLeavesCredit | src/ST87M01_CellularStack.cpp:696-699 | a run in which one empty datagram leaves a credit with nothing queued |
| RxStream.SizeZeroStrands | src/ST87M01_CellularStack.cpp:754-777 | a run in which a receive of size 0 leaves an announced segment queued that no further receive fetches, whatever its size and the modem's answer |
| RxStream.ReopenExactIff | src/ST87M01_CellularStack.cpp:553-558 | after a UDP reopen from an exact state the queue covers the credits if and only if the modem kept its segments or none were outstanding |
| RxStream.ReopenLeavesCredit | src/ST87M01_CellularStack.cpp:553-558 | a run in which a reopened socket has a credit and nothing queued |
| RxStream.StreamSafety | src/ST87M01_CellularStack.cpp:645-788 | over every TCP run, with any faults, sizes and closes, what is delivered or still to come is the arrived stream with some bytes left out: nothing repeated, reordered or made up |
| Stack.CellularStack.SocketRecvFromImpl | src/ST87M01_CellularStack.cpp:645-788 | connection lost if and only if the record is closed; out of memory if and only if a TCP segment comes through and its id has no buffer; bytes if and only if something is buffered, or a segment comes through without a fault: min(size, buffered) from the front of the buffer, or min(size, segment, buffer size) from its front; else told to wait; all of it as `RxStream.Recv` for the fault in the modem's own record; issues one `#IPREAD` for its id when the model turns to the modem and none otherwise; touches no other slot or queue nor the caller's buffer past `size`, and on delivery of a fetched segment has consumed the response to the last byte |
| Stack.CellularStack.FetchSegment | src/ST87M01_CellularStack.cpp:686-788 | the fetching half of a receive issues exactly one `#IPREAD` and is `RxStream.Fetch` for the modem's recorded fault |
| StackRuns.Drive | src/ST87M01_CellularStack.cpp:645-788 | over any run of arrivals, announcements, reads and a remote close, a socket of the class ends as `RxStream.Run` does for the faults in the modem's record, in their order, and its reads are the model's; no other slot or queue changes |
| StackRuns.DeliverStream | src/ST87M01_CellularStack.cpp:645-788 | from a new TCP socket, over any run: what its reads handed out, its buffer holds and the modem queues is the arrived stream with bytes left out, and all of it when the modem's record shows no fault, no line announces a segment twice, and there is no close, empty segment or read of size 0 |
| StackRuns.DeliverDatagrams | src/ST87M01_CellularStack.cpp:703-723 | from a new UDP socket, over any such run: the i-th read handed out the i-th datagram cut to its size, and the rest is still queued |
| StackRuns.ReadBehind | src/ST87M01_CellularStack.cpp:655-657 | the same on the class: after any run a read answers connection lost if and only if the record was closed or a remote close was among the operations |
| Stack.CellularStack.ReadTcp | src/ST87M01_CellularStack.cpp:735-752 | success leaves the segment cut to the buffer size in the slot and no byte of the response unread |
| Stack.CellularStack.ReadUdp | src/ST87M01_CellularStack.cpp:704-716 | success hands over the datagram cut to the caller's size and leaves no byte of the response unread |
| Modem.AtModem.ReadFramed | src/ST87M01_CellularStack.cpp:707-750 | a successful framed read consumes exactly the declared length and two more bytes |
| Modem.RxBuffer.CopyOut | include/st87m01/ST87M01_CellularStack.h:88-96 | hands out the front of data[head..tail], keeps the rest, keeps head <= tail <= size, and changes the caller's buffer nowhere else |
| Stack.CellularStack.UrcIpRecv | src/ST87M01_CellularStack.cpp:1050-1068 | one more credit and one call for the record that has the id with none before it that does, and neither for any other |
| Stack.CellularStack.UrcSocketClosed | src/ST87M01_CellularStack.cpp:1075-1098 | closes and disconnects the record found, drops its unread bytes, calls its owner once, and touches no other record or slot |
| Stack.CellularStack.FoundIsReached | src/ST87M01_CellularStack.cpp:1050-1098 | the record at a place of the table is the one lines and closes by id act on if and only if it has the id and no record before it does |
| SocketTable.TwoSessions | src/ST87M01_CellularStack.cpp:302-320 | a session opened, closed by id and followed by one under the same id: the first record stays live without a buffer and is the one found |
| StackRuns.ShadowedStarves | src/ST87M01_CellularStack.cpp:1050-1068 | a segment that arrives for a record not found under its id, and is announced, stays with the modem; the credit goes to the record found, the reader is told to wait, and no `#IPREAD` is issued |
| StackRuns.SecondSessionStarves | src/ST87M01_CellularStack.cpp:262-320 | from any state: the modem's log shows a creation, its close and another creation exactly as the two sessions issue them; the second has the first one's id if and only if the modem accepted that id twice, the id is in 0..6 and both last statuses were 5, and then it is told to wait whatever arrives and is announced for it |
| SocketTable.Table.BereavedIff | src/ST87M01_CellularStack.cpp:425-446 | a close by id keeps a buffer for every live TCP record in 0..6 if and only if no live one has the id, or the record found under it is known to be closed |
| SocketTable.Table.AddedBereavedIff | src/ST87M01_CellularStack.cpp:262-300 | closing a new record's id and dropping the record keeps every other live record's buffer if and only if no other live one has the id, or the record found under it is known to be closed |
| SocketTable.Table.TxAfterArmed | src/ST87M01_CellularStack.cpp:433-435 | a close by id keeps the wake-up state armed |
| SocketTable.Table.CloseScriptIs | src/ST87M01_CellularStack.cpp:155-191 | the commands of a sweep are exactly the closes of the ids in range that no closed record is found under |
| RxPool.NeverExhausted | include/st87m01/ST87M01_CellularStack.h:122-123 | with as many blocks as slots and exact ownership, an empty slot leaves a block free |
| RxPool.OwnedTake | src/ST87M01_CellularStack.cpp:894-900 | moving a free block to an empty slot keeps ownership exact and slots distinct |
| RxPool.OwnedReturn | src/ST87M01_CellularStack.cpp:910-913 | returning a slot's block keeps ownership exact and slots distinct |
| Stack.CellularStack.AllocateRxBuffer | src/ST87M01_CellularStack.cpp:883-902 | succeeds exactly for ids 0..6, leaves an empty buffer there and every other slot as it was |
| Stack.CellularStack.FreeRxBuffer | src/ST87M01_CellularStack.cpp:904-914 | empties its slot, gives the block back and leaves every other slot as it was |
| Stack.CellularStack.CreateSocketImpl | src/ST87M01_CellularStack.cpp:454-535 | asks the modem exactly when there is an IP address, and succeeds if and only if it names an id and says OK; then the record has the id, its slot holds an empty buffer and the profile asked for, nothing is queued for it, and the credits stay; otherwise record and slots are as they were, whatever id was named; live records keep their buffers |
| Stack.CellularStack.SocketCloseImpl | src/ST87M01_CellularStack.cpp:425-446 | issues one close, frees the slot, empties the modem's queue when it succeeds and unmarks the record found, or does nothing at all when that record already saw the remote end close |
| Stack.CellularStack.CloseAllSockets | src/ST87M01_CellularStack.cpp:155-191 | closes every id not known to be closed, once, in order; a tracked record found under 0..6 ends closed if and only if it was or its close did not fail; succeeds if and only if afterwards every record found is closed and no close of an untracked id failed without a device error; only records found are marked, and none is reopened |
| Stack.CellularStack.Destroy | src/ST87M01_CellularStack.cpp:77-90 | no timer is left, and every block is back in the pool |
| TcpConnect.Establish | src/ST87M01_CellularStack.cpp:356-412 | over every sequence of statuses and every clock: terminates, at most two attempts, no connect on 4, 5 or 6 and none without a status asked before, at most 1 + 2*130 queries with TLS and 1 + 2*30 without, connected if and only if the last query said 5, given up only on 6 or after both attempts; every wait on 4 is for 65000 ms with TLS and 15000 without and is waited out before anything else is tried, and a connect on 4 throughout is given up only after twice that; all of it about the queries, waits and commands in the modem's log |
| TcpConnect.AwaitConnect | src/ST87M01_CellularStack.cpp:367-376 | the poll issues no connect, asks at most timeout/500 times, and ends on "connecting" only past its deadline |
| TcpConnect.CarefulAt | src/ST87M01_CellularStack.cpp:361-384 | at every connect of such a trace a status had been asked and was none of 4, 5, 6, a second connect comes right after a pause of 500 ms; a wait starts only on 4, for 65000 or 15000 ms, after an earlier one is over, and pauses 500 ms at a time only while it is not |
| TcpConnect.WaitLasts | src/ST87M01_CellularStack.cpp:367-376 | a wait that still sees 4 is over exactly when its last query came 65000 ms after it began with TLS, 15000 ms without |
| Stack.CellularStack.SocketConnect | src/ST87M01_CellularStack.cpp:332-423 | creates a socket only when there is none, which then is fresh to its reader and has its buffer; unlocks as often as it locks on every path; succeeds on a TCP record if and only if the last status in the modem's log is 5, fails only on 6 or after two attempts, and on 4 throughout only after twice 65 or 15 s; no other id's bytes or queue change; live records keep their buffers |
| Stack.CellularStack.SocketSendToImpl | src/ST87M01_CellularStack.cpp:537-643 | for any id but -1: every send command it adds to the log is of the record's kind, names its id and carries hex that decodes to the first 1400 bytes; the modem's log accepts for that id just what a successful send reports, min(size, 1400) bytes, and nothing for any other; UDP issues at most four, TCP one, a closed socket none; the result follows from the last answer (159 with any error, 536 and 537 as device errors mean congestion) and, for a refused TCP socket, from whether a timer runs or can be scheduled; a UDP socket changing its IP version is reopened first, and otherwise nothing held by slots or modem changes; the wake-up state makes the refusal step, or none |
| StackRuns.SendAll | src/ST87M01_CellularStack.cpp:537-643 | over any run of sends on any sockets the payload the modem's log accepts for each protocol and id is what the successful sends on it reported, joined in order; TCP records send on their own id throughout |
| Payloads.SendLog | src/ST87M01_CellularStack.cpp:569-610 | a send adds commands of its own kind to its own id only, and its data to the accepted payload if and only if the last command was accepted |
| TxWake.RefusedArmedIff | src/ST87M01_CellularStack.cpp:626-639 | a refusal keeps at most one mark and a running timer if and only if a timer runs or can be scheduled |
| TxWake.UnscheduledStaysMarked | src/ST87M01_CellularStack.cpp:626-639 | a socket refused when no timer can be scheduled stays marked without one, however often it is refused again |
| Stack.CellularStack.ReopenUdp | src/ST87M01_CellularStack.cpp:553-558 | closes the old id, creates a socket with the profile read after the close, which cleared it unless it did nothing, and ignores either failure; afterwards nothing is buffered or queued for the new id and the credits stay (`RxStream.Reopened`), or what a failed half leaves; only the old and the named id are touched |
| Stack.CellularStack.MarkFull | src/ST87M01_CellularStack.cpp:626-639 | is the wake-up model's refusal step, or reports that no timer could be scheduled; it never starts a second timer |
| Stack.CellularStack.TxFullTimeout | src/ST87M01_CellularStack.cpp:1100-1112 | calls the marked records that have a callback, each once, in table order, with the mark already gone, and no other; only marks of records without a callback stay, and no timer is left |
| TxWake.RunArmed | src/ST87M01_CellularStack.cpp:626-639 | over every run of refusals, closes and expiries at most one socket is marked, and then the timer runs |
| TxWake.WokenIff | src/ST87M01_CellularStack.cpp:627-630 | a refused socket is called at the next expiry if and only if it was marked already or no timer ran |
| TxWake.SecondRefusalUnnoticed | src/ST87M01_CellularStack.cpp:627-630 | of two sockets refused in a row only the first is called |
| TxWake.ClosedNotWoken | src/ST87M01_CellularStack.cpp:433-435 | over any run without a further refusal a socket closed after one is not marked |
| StackRuns.CloseThenExpire | src/ST87M01_CellularStack.cpp:425-446 | the record found under an id that is closed is not among those the timer then calls |
| HexCodec.DecodeIff | src/ST87M01_TlsProvisioning.cpp:198-257 | a text decodes to given bytes if and only if it is digits and separators and its digits, in upper case, are the encoder's text of them |
| HexCodec.DecodeEncode | src/ST87M01_TlsProvisioning.cpp:717-721 | decoding what either encoder writes gives the bytes back |
| HexCodec.Alphabet | src/ST87M01_CellularStack.cpp:566-566 | digit n is the n-th character of 0123456789ABCDEF, read in either case; carriage return, line feed, dot and space are skipped |
| HexCodec.ConvertHexToBin | src/ST87M01_TlsProvisioning.cpp:191-258 | stores exactly the decoded bytes, or none on any malformed or too long text, and never writes past them |
| HexCodec.FillNibbles | src/ST87M01_TlsProvisioning.cpp:218-257 | the nibble loop is "drop separators, then pair digits" |
| HexCodec.IsHexString | src/ST87M01_TlsProvisioning.cpp:260-298 | accepts exactly the data that decodes to at least one byte and does not start with 0x30 |
| HexCodec.HexDataDecodes | src/ST87M01_TlsProvisioning.cpp:396-412 | accepted data fits the buffer its callers size, so the empty result they check for cannot occur |
| HexCodec.HexRecognisedIff | src/ST87M01_TlsProvisioning.cpp:267-271 | decodable text is accepted if and only if its first character is not the digit 0 |
| HexCodec.LooksLikePem | src/ST87M01_TlsProvisioning.cpp:44-60 | true exactly for data of at least 16 bytes with the text -----BEGIN at some place |
| HexCodec.HexDecode | src/ST87M01.cpp:60-73 | stores one strtol value for each pair of characters, or nothing when the length is odd or does not fit |
| HexCodec.StrtolByteIs | src/ST87M01.cpp:60-73 | on two characters the conversion is that of a strtol in base 16 with white space, sign and prefix, cut to a byte |
| HexCodec.DecodersAgree | src/ST87M01.cpp:60-73 | on digits alone both decoders store the same, failures included |
| HexCodec.DecodersAgreeIff | src/ST87M01.cpp:60-73 | for every text and capacity: they agree only on digits alone where the strict decoder takes the length, and elsewhere only where the tolerant one stores nothing either |
| HexCodec.EncodeToText | src/ST87M01_TlsProvisioning.cpp:705-722 | writes the hex text of the data and a closing zero |
| Stack.CellularStack.HexPayload | src/ST87M01_CellularStack.cpp:593-599 | writes the same text for a send |
| RsaGate.GateIsExact | src/ST87M01_TlsProvisioning.cpp:92-179 | on every well-formed key behind the first rsaEncryption identifier, whatever parameters without a BIT STRING tag stand between, whose lengths have at most four subsequent octets, the parser succeeds and reports more than 8k bits if and only if the modulus is at least 2^(8k) |
| RsaGate.ParserSucceedsIff | src/ST87M01_TlsProvisioning.cpp:121-168 | on every well-formed key the parser succeeds if and only if each of the three lengths has at most four subsequent octets, and otherwise does not take it for RSA |
| RsaGate.LongLengthUnread | src/ST87M01_TlsProvisioning.cpp:78-82 | a well-formed key of more than 2048 bits that it does not take for RSA |
| RsaGate.ReadDerLen | src/ST87M01_TlsProvisioning.cpp:63-89 | reads short and long lengths of up to a size_t without wrapping, refuses all others, and stops behind them |
| RsaGate.LengthAt | src/ST87M01_TlsProvisioning.cpp:63-89 | a definite length of X.690 section 8.1.3, of up to 126 subsequent octets, is read as the number it stands for if and only if it has at most four, and is refused otherwise |
| RsaGate.LengthIff | src/ST87M01_TlsProvisioning.cpp:63-89 | on any octets, a length is read up to a place if and only if what stands there is a definite length with at most four subsequent octets |
| RsaGate.FindOid | src/ST87M01_TlsProvisioning.cpp:98-118 | the jump-and-compare scan ends, and at the first occurrence of the identifier if there is one |
| RsaGate.OidIsRsaEncryption | src/ST87M01_TlsProvisioning.cpp:98-118 | the octets searched for are the identifier 1.2.840.113549.1.1.1 |
| RsaGate.ParseRsaModulusBits | src/ST87M01_TlsProvisioning.cpp:92-179 | computes the reference search on every input, malformed ones included |
| RsaGate.PastEndIff | src/ST87M01_TlsProvisioning.cpp:164-173 | the parser looks beyond its data if and only if they end behind the length of a non-empty modulus |
| RsaGate.TruncatedKeyReadsPastEnd | src/ST87M01_TlsProvisioning.cpp:170-173 | one such input |
| TlsProfiles.Platform.CapIsExact | src/ST87M01_TlsProvisioning.cpp:650-663 | a well-formed key is refused if and only if its modulus is at least 2 to the cap of 2048 and its lengths have at most four subsequent octets each |
| TlsProfiles.Platform.OversizedKeyPasses | src/ST87M01_TlsProvisioning.cpp:650-663 | a well-formed key of more than 2048 bits that is not refused |
| TlsProfiles.Platform.BeyondDecides | src/ST87M01_TlsProvisioning.cpp:170-173 | data that end behind a modulus length of 257 are refused if and only if the octet beyond them is not zero |
| TlsProfiles.Platform.CredentialNormalisation | src/ST87M01_TlsProvisioning.cpp:586-648 | a DER SEQUENCE and any hex text of it, in any case and with any separators, are normalised to the same bytes, and the text is at least twice as long |
| TlsProfiles.Platform.HexAcceptedIff | src/ST87M01_TlsProvisioning.cpp:570-663 | as key or certificate the hex text of a DER is accepted if and only if the DER is and the text itself has at most 4096 characters, and then has the same effect on the profiles |
| TlsProfiles.Platform.SameEffectIff | src/ST87M01_TlsProvisioning.cpp:579-648 | a CA certificate as DER and as hex text have the same effect if and only if the text has at most 4096 characters or the DER is not accepted |
| TlsProfiles.Platform.LongHexRefused | src/ST87M01_TlsProvisioning.cpp:383-387 | a DER of 2049 bytes that is accepted as key and certificate, and no hex text of which is |
| TlsProfiles.Platform.PemNormalisation | src/ST87M01_TlsProvisioning.cpp:611-647 | a PEM its parser takes is normalised as the DER it gives; one it does not take is no certificate, and as a key stays as it is |
| TlsProfiles.Platform.PemCertificate | src/ST87M01_TlsProvisioning.cpp:570-663 | a PEM certificate has the effect of its DER when each has at most 4096 bytes; one that does not parse, or whose DER is oversized, is refused |
| TlsProfiles.Platform.CertificateAcceptedIff | src/ST87M01_TlsProvisioning.cpp:570-663 | an RSA certificate given as DER, hex text or PEM is accepted if and only if the form has 1..4096 bytes, the profile is 0..15 and, for a device, holds a key, and the modulus is below 2^2048 or behind a length the gate cannot read |
| TlsProfiles.Platform.CertificateShows | src/ST87M01_TlsProvisioning.cpp:698-764 | an accepted one, in any form, leaves its DER as the certificate of its kind, a new key for a CA certificate, and everything else as it was |
| TlsProfiles.Platform.KeyShows | src/ST87M01_TlsProvisioning.cpp:375-521 | a key given as DER, hex text, PEM or unparsable PEM is accepted whenever it has 1..4096 bytes and the profile is 0..15, and its DER, or the unparsable text, becomes the key |
| TlsProfiles.Platform.LastKeyCallWins | src/ST87M01_TlsProvisioning.cpp:300-373 | over every run of calls on a modem that does not fail, a profile's key is the one set by the last accepted generate_key, add_key, delete_key or add_ca_certificate for it |
| TlsProfiles.Platform.OthersUntouched | src/ST87M01_TlsProvisioning.cpp:300-765 | over every such run a profile no call names stays as it is |
| TlsProfiles.TlsProvisioning.GenerateKey | src/ST87M01_TlsProvisioning.cpp:300-373 | deletes, then generates in flash unless OTP is asked for; success leaves a new key, failure the old one, none or, if only an answer was lost, the new one; nothing else changes |
| TlsProfiles.TlsProvisioning.AddKey | src/ST87M01_TlsProvisioning.cpp:375-521 | success leaves exactly the normalised bytes as key, a failure of the modem those, none or the old one; rejected uploads issue nothing |
| TlsProfiles.TlsProvisioning.NormaliseKey | src/ST87M01_TlsProvisioning.cpp:396-471 | hex is decoded, PEM parsed, and a PEM no parser takes goes up as it is |
| TlsProfiles.TlsProvisioning.NormaliseCertificate | src/ST87M01_TlsProvisioning.cpp:594-647 | hex is decoded, PEM parsed, and a PEM the parser rejects is rejected |
| TlsProfiles.TlsProvisioning.DeleteKey | src/ST87M01_TlsProvisioning.cpp:523-534 | success leaves no key, failure the old one or, if only the answer was lost, none; nothing else changes |
| TlsProfiles.TlsProvisioning.EnsureKey | src/ST87M01_TlsProvisioning.cpp:665-696 | success means the profile holds a key: a new one for a CA certificate, the old one for a device certificate |
| TlsProfiles.TlsProvisioning.InstallCertificate | src/ST87M01_TlsProvisioning.cpp:698-764 | is only called on a profile with a key; sends hex with the declared length, after which the profile holds exactly those bytes, or on failure those, none or the old ones |
| TlsProfiles.TlsProvisioning.AddCertificate | src/ST87M01_TlsProvisioning.cpp:570-765 | rejects exactly bad parameters, oversized or unparsable uploads and a missing device key; success issues one fixed command sequence; every certificate is added to a profile that holds a key at that moment; other profiles are untouched; on a modem that does not fail its effect is `Platform.Effect`, which the lemmas above pin for DER, hex and PEM |
| TlsProfiles.UploadCommands | src/ST87M01_TlsProvisioning.cpp:665-731 | the commands of an upload: delete and generate a 32 byte key in flash for a CA certificate, list the key for a device, then delete and add the certificate |
| PdpChoice.SelectExistingCid | src/ST87M01_CellularContext.cpp:311-368 | the one-pass choice is context 5 if listed and last reported active, else context 6 if so, else the first listed one last reported active, else the first whose APN is the non-empty configured one up to letter case, else none |
| PdpChoice.FirstBestIff | src/ST87M01_CellularContext.cpp:311-368 | the first context of least rank below 7 is the one these rules prefer, and none has such a rank if and only if none is active or has the configured APN |
| PdpChoice.ActiveIff | src/ST87M01_CellularContext.cpp:311-325 | a context counts as active if and only if its id is 0..6 and the last line about it says 1 |
| PdpChoice.SameNameIff | src/ST87M01_CellularContext.cpp:326-340 | two APNs count as equal if and only if they have the same characters but for the case of A to Z |
| PdpChoice.StaleApnHarmless | src/ST87M01_CellularContext.cpp:341-357 | ranking the incumbent with the current record's APN decides as its own APN would |
| PdpChoice.ReuseCid | src/ST87M01_CellularContext.cpp:208-227 | context 5 if listed, else 6, else none, in any order of listing |
| PdpChoice.CellularContext.GetContext | src/ST87M01_CellularContext.cpp:184-287 | takes over the preferred context, and its APN when none is configured, else 5 or 6 after reconfiguring it, else leaves it to the base class; always with the configured type |
| HttpSession.StartsAreStopped | src/ST87M01_HTTP.cpp:59-104 | in an orderly log every accepted start is followed by a stop, with no close of its socket before it |
| HttpSession.RequestsWithinRun | src/ST87M01_HTTP.cpp:106-250 | in an orderly log every method, header, send and read falls between a start and its stop, and a send names the socket of the start |
| HttpSession.StartedIff | src/ST87M01_HTTP.cpp:67-104 | the service runs for a socket if and only if an accepted start for it has not been ended |
| HttpSession.HttpClient.Start | src/ST87M01_HTTP.cpp:67-90 | keeps the log orderly; issues at most one start, and none when detached or running |
| HttpSession.HttpClient.Stop | src/ST87M01_HTTP.cpp:92-104 | keeps the log orderly; one stop if running, and stopped whatever the modem answers |
| HttpSession.HttpClient.AttachSocket | src/ST87M01_HTTP.cpp:43-57 | takes ids 0..6 only, and stops a running service before changing the socket |
| HttpSession.HttpClient.DetachSocket | src/ST87M01_HTTP.cpp:59-65 | stops a running service, then forgets the socket |
| HttpSession.HttpClient.Perform | src/ST87M01_HTTP.cpp:106-169 | keeps the log orderly; issues the request's commands in order, each only after the one before succeeded; a successful one has issued method, send and read, with the header command for a POST with a content type; with the last command the result, status and success flag are the modem's recorded answer, and success means a 2xx status; a failing request before that leaves the flag alone |
| HttpSession.HttpClient.Destroy | src/ST87M01_HTTP.cpp:36-41 | the service is stopped, by one stop if it was running |
| HttpSession.HttpContext.HttpOpen | src/ST87M01_CellularContext.cpp:91-134 | closes an open session first; ends with a running client attached to the socket the modem created and connected, or with no session; the log grows by exactly the closing commands of the old session and those of the opening, the modem's answers included; it stays orderly, and no other id's bytes or queue change |
| HttpSession.HttpContext.FailedOpeningCloses | src/ST87M01_CellularContext.cpp:91-134 | an id the modem names in a failing opening is closed later in it if and only if the answer was OK, no record before the new one has the id and is known to be closed, and the id is in 0..6 or the connect failed |
| HttpSession.HttpContext.NamedInVain | src/ST87M01_CellularStack.cpp:505-516 | an opening whose creation names any id and then fails consists of that creation alone |
| HttpSession.HttpContext.HttpClose | src/ST87M01_CellularContext.cpp:136-159 | exactly one stop, then the close of the session's socket unless the record found under its id is known to be closed; succeeds if and only if that close does or was not needed; no other id's bytes or queue change |
| HttpSession.HttpContext.CloseAllSockets | src/ST87M01_CellularContext.cpp:66-72 | keeps client and modem in step if and only if no session is open or the record found under its id is known to be closed; otherwise the socket is closed under the running service |
| HttpSession.HttpContext.Request | src/ST87M01_CellularContext.cpp:74-81 | a request keeps the session; without one it issues no command, with one the request's commands in order up to the first that failed, and its result is the modem's recorded answer |
| HttpSession.HttpContext.Destroy | src/ST87M01_CellularContext.cpp:36-43 | an open session is stopped and its socket closed as by `HttpClose`; then there is no client, no session and no running service |
| Stack.CellularStack.OpenTcpSession | src/ST87M01_CellularStack.cpp:262-300 | asks the modem for a socket exactly when name, a free place and an address are there; succeeds if and only if it gives one and the last status is 5, and then the first free place holds one connected record with that id, fresh to its reader and with its buffer; otherwise the table is as it was and the log ends with the close of the accepted id; no other id's bytes or queue change; the wake-up state changes at most by that close; live records keep their buffers unless it bereaves one |
| Stack.CellularStack.CloseTcpSession | src/ST87M01_CellularStack.cpp:302-320 | refuses ids outside 0..6, closes the rest unless the record found saw the remote end close; frees the slot of a tracked one, takes its wake-up mark and leaves the record in the table; no other id's bytes or queue change; every live record keeps its buffer if and only if none has the id or the one found is known to be closed |

## Left out

- The base classes `AT_CellularStack`, `AT_CellularContext` and `ATHandler` are not part of this model beyond what is
  used of them: a table of six places, of which a new record gets the first free one, lookup by id in its order,
  all-or-nothing reads, and the release of a record after a failed connect.
- Modem.AtModem.ReadFramed: reads the body and its closing bytes before the driver notes the new tail, where the
  source notes the tail between the two; a failure in between resets the buffer either way.
- Stack.CellularStack.SocketConnect: the remote address and the AT parameters of the connect are not modelled.
- Stack.CellularStack.SocketRecvFromImpl: the source address reported for a datagram is not modelled.
- Stack.CellularStack.SocketSendToImpl: the destination of a datagram, but for its IP version, is not modelled.
- PdpChoice.SelectExistingCid: assumes no CID of -1 and none in 7..99, for which the source's bound on its
  seven-entry table does not hold; the comment at src/ST87M01_CellularContext.cpp:203 limits CIDs to 1..6.
- RsaGate.GateIsExact: modulus lengths below 2^29, so that no 32-bit size_t wraps; callers cap uploads at 4096.
- Stack.CellularStack.TxFullTimeout: a marked record without a callback stays marked with no timer, as in the source;
  the wake-up model's expiry is met when every record has one.
- HttpSession.HttpClient.Perform: the body of a POST and the headers' texts are not part of the model's commands.
- TlsProfiles.TlsProvisioning.GenerateKey: the public key it can return is not modelled.
- TlsProfiles.TlsProvisioning.AddKey: the two phases of the upload are one command of the model.
- PEM parsing is an arbitrary partial function; certificate contents other than the RSA search do not matter.
- Null pointers for text and data; the output buffer of the hex decoder may be null.
- Credits are unbounded numbers, where the source counts in 32 bits.
- Modem start-up, network registration, device information, DNS, IP configuration text, `setsockopt` routing,
  orphan reaping, NVM flushing and profile queries: plumbing with little state.
- Response parsing of the HTTP client; a status code and a final result are whatever the modem answers.
- Threads: every section held under a mutex is one step, and unsolicited lines are handled between calls, not in
  the middle of one. Callbacks are recorded as called and do nothing else.
- The queue of a socket whose close failed is kept or emptied, as the modem may have got the command or not; so is
  that of an id named in a creation that failed. A start of the HTTP service counts as accepted when its answer says so.
- HttpSession.HttpContext.CloseAllSockets: a context that has made no stack yet, and so issues nothing, is not modelled.
- StackRuns.Drive: the runs are of one socket; what the operations of other sockets leave alone is in their contracts.
  Reopening a UDP socket, which may change its id, is not one of the operations.
- MBED_ERROR on a full event queue is modelled as the return that follows it.

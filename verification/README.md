# Verification of the industrial protocol clients

This project models the protocol cores of `go-iotclient` in Dafny and proves what they keep:

- the **Modbus client** (`clients/modbus/stub_clients.go`): one request layer over MBAP/TCP, RTU and ASCII framing, under one retry and reconnect cycle, against the register and coil maps of a Modbus server;
- the **Mitsubishi 3E client** (`mitsubishi_client.go`) together with the repository's own **mock server** (`mock/server.go`), both ends of the protocol over one word map, with many connections at once;
- the **Allen-Bradley client** (`clients/plc/allen_bradley_client.go`): the life cycle of its session and the layout of its command frames;
- the **address strings** of the Siemens, Mitsubishi and Modbus clients.

## How the model is built

`Network.dfy` is the world between a client and its peer. Every connection is a stream of bytes with a number of its own. A *plan* gives the environment's choices tick by tick: whether a dial succeeds, whether a write is reported as sent, whether the peer gets the request at all, how many bytes of the reply ever arrive, and whether somebody injects a failure just before the request. All these choices are independent, so a request may be lost, a reply may be lost or cut anywhere, and a write may be served although the client was told that it failed. `Wire.Read` hands out as many bytes as it pleases; `Wire.ReadFull` is shown not to depend on that. A time-out is one of these failures.

Each client exists twice. The classes (`ModbusClient`, `MitsubishiClient`, `AllenBradleyClient`, and on the other side `Device` and `Server`) have the fields, loops and branches of the Go types and change their state in place. The session modules (`ModbusSession`, `MelsecSession`, `AllenBradleySession`) say what each of those methods does to the state, as functions; every method is proved to do exactly that, and the theorems about runs, retries, bounds and connections are proved about the functions. `Config`, `State`, `Memory` and `Links` are the values both sides talk about.

What the clients and servers build is also read by a second set of functions that look at every byte by its offset and share nothing with the builders (`ModbusWire`, `MelsecWire`, `AllenBradleyWire`). They say in numbers where each field of a frame stands; the requests of the clients are accepted by them, on the wire and not only as they are built. `TypedEffects` does the same for values: which registers a typed write changes, and to which bytes.

Where callers or handlers run at the same time, the mutex and its users are transition systems: `OwnReply` for many callers of one Modbus client, stepping byte by byte, with a peer that may give any possible answer; `SharedClient` for the same callers with the device and its memory as the peer; `MockServerThreads` for many connections to one mock server, stepping word by word.

## Main results

- **Meaning.** From a quiet connection, or none, and under every plan, a Modbus or 3E call that reports success returned what a plain map says and left the map as one such operation does. A call that reports failure left the map untouched or as one operation does, however often it retried (`OperationMeans`). This holds for every Modbus operation and every 3E read, and for 3E writes exactly up to 32761 words (see below). Whole runs are runs on a plain map (`RunIsSequential`) as long as each call leaves its connection quiet, which is exactly what is needed (`OverlongReads.SequentialIsExact`), and over an environment that behaves, all four Modbus modes return the same as direct operations (`FairRunIsDirect`, `ModesAgree`).
- **Many callers.** With any number of callers sharing one Modbus client, whose calls leave nothing behind on the connection, and any losses, each successful call returned what the answer to a request of this very call means (`EveryCallerGetsItsOwnReply`), and the calls are linearizable to the device's maps in the order of the mutex (`CallersAreLinearizable`). Write replies are not compared with the request by the client (lines 486 and 503), so this rests on the invariant that a free mutex means a quiet connection, not on an echo. The 16-bit transaction id may wrap. Both the invariant and own reply hold exactly for calls that leave nothing behind (`OwnReply.QuietIsExact`, `OwnReply.OwnIsExact`); which these are is said below.
- **Checksums.** The CRC loop is polynomial division over GF(2), with the standard's generator; damage to a frame of known length goes unnoticed exactly when it is itself divisible; bursts of up to sixteen bits and odd numbers of flipped bits are always caught. In a reply read off the line the length is not known beforehand: the count byte says how much is checked, and one flipped bit of it can make the exchange accept a piece of the reply (`Damage.OneBitDeceives`, `Damage.CountByteIsUnprotected`). What holds is that no burst and no odd damage, in any byte, ever makes the *operation* succeed (`Damage.RtuDamageNeverSucceeds`). Likewise in ASCII mode: a newline for one character can make the exchange accept the beginning of the PDU, exactly when that beginning balances (`Damage.NewlineDeceives`, `AsciiFraming.NewlineForCharacter`), but no single damaged character ever makes an operation succeed with another PDU (`Damage.AsciiDamageNeverSucceeds`).
- **Framing.** Each framing round-trips on a stream and leaves what follows unread; a frame cut anywhere is never taken for a reply; RTU replies are self-delimiting.
- **On the wire.** Every frame in the log of a Modbus call is, by the letter of the standards, a request for what was asked, from the client's unit, and in TCP mode its transaction is one more than that of the frame before, modulo 65536 (`ModbusWire.RunWrites`, `ModbusWire.TransactionsFollow`). Every 3E frame carries the route that was set, each part at its offset, and so does the server's answer (`MelsecWire.RoutedRead`, `MelsecWire.RoutedWrite`, `MelsecWire.RouteComesBack`). Nothing is accepted for a reply that is not one: in each framing what the client takes for a PDU stood on the stream behind its own transaction or unit, with the right checksum (`AcceptsOnlyOwn`), and every error has its cause (`EachErrorHasItsCause`). A call that fails although it could always dial has made exactly its attempts.
- **Where laws fail, and exactly where.** Some laws are false of the code, and each comes with inputs and the exact condition.
  - *A Modbus read of 128 to 32766 registers in RTU mode* (`ReadString` with a length of 255 is enough) gets a reply whose count byte has wrapped. The reader takes the head of it for the reply; if the registers behind happen to hold its checksum, the call fails but keeps the connection with the rest unread, and the next caller reads those bytes as its own reply (`OverlongReads.NextReadIsForeign`). A read leaves a quiet connection, under every plan and for every content of the device, if and only if the mode is TCP or ASCII, or it asks for at most 127 registers or for more than 32766, or connections are closed after each call (`OverlongReads.QuietIsExact`).
  - *A 3E write of more than 32761 words* (a string of 65524 bytes, say) is refused and reported as failed, but its last bytes reach the server as further requests. At every address, for every such count, there are words that make the server store any value in any D register (`MelsecBounds.OverlongWriteStrays`). Writes of n words do what they should, for all words, plans and memories, if and only if n is at most 32761 (`MelsecBounds.MeaningIsExact`). The bound is on the count and not on the single write: 32762 zeros are harmless (`MelsecBounds.HarmlessOverlongWrite`).
  - *ReadString* cuts the number of words to sixteen bits. A text read with success is the whole text, under every plan and for every content of the device, if and only if at most 131070 bytes are asked for or the wrapped count is too large to succeed (`LongTexts.ModbusTextIsWhole`, `LongTexts.MelsecTextIsWhole`). A Mitsubishi read of 131071 or 131072 bytes succeeds with an empty text and sends nothing.
  - *An Allen-Bradley write* does not look at its reply. Against the test server a write on an open connection succeeds whenever everything gets through, and has stored its data exactly if no malformed reply was pending (`AllenBradleyTags.WriteStoresExactly`).
- **Other exact bounds.** Modbus reads succeed up to 127 registers, ASCII PDUs up to 508 bytes, 3E reads up to 32766 words; Allen-Bradley commands are understood for tags of up to 255 bytes and write frames of up to 65535 bytes of content. `validateAllenTag` measures the trimmed tag while the untrimmed one is sent, so white space behind a good tag passes the guard and is mis-encoded (`AllenBradleyFrames.GuardMissesWhiteSpace`).
- **Concurrency on the server.** The history that clients see is linearizable: every answer, with its data, belongs to one entry of a sequential history for the operation that was asked, no read is torn, injected failures have no effect, and the order respects real time.
- **Connections.** Dialled minus closed is one exactly when the client holds a connection; effort per call is bounded; once the environment behaves, a call with a retry left succeeds.
- **Read back.** Numbers and texts written with success are what a later successful read through the same client returns, for the Modbus, Mitsubishi and Allen-Bradley clients (`ClientRoundTrips`); a text read at a fixed length beyond its end shows what the device held there before.
- **Register before command.** On every connection of the Allen-Bradley client the first write is the registration, and commands come only later and only if that very write got through and the answer to it brought a nonzero session.

Behaviour worth knowing that came out of the proofs: section 6.3 of the MODBUS Application Protocol V1.1b3 limits a read to 125 registers, while the client accepts any count and can succeed up to 127; the mock server computes its read buffer size in 16 bits and does not survive reads of 32768 words or more; the parser of Siemens addresses accepts a plus sign and `-0`, and also the dotless i for area I, because upper-casing turns it into an ASCII letter.

## Model

| member | source | states |
|---|---|---|
| Network.Wire.ReadFull | mitsubishi_client.go:465-475 | Reading until the buffer is full terminates, succeeds exactly when enough bytes are there, and delivers exactly the next bytes of the stream, however the stream is cut into chunks; a failed read has consumed everything |
| Crc.ComputeCrc16 | clients/modbus/stub_clients.go:719-732 | The two nested loops, folding 0xA001 in whenever a one falls out, compute the register function that all checksum laws below are about |
| Crc.CrcResumes | clients/modbus/stub_clients.go:719-732 | The register after a concatenation is the register after the second part, started from that of the first |
| CrcBits.CrcIsBitSerial | clients/modbus/stub_clients.go:719-732 | Xor of a byte and eight shifts is the same as feeding its eight bits one by one, least significant first, for every message and start value |
| CrcBits.IntactMeansZero | clients/modbus/stub_clients.go:606-609 | The receiver's comparison of the two checksum bytes holds exactly when the register over the whole frame ends at zero |
| CrcBits.SealedIsIntact | clients/modbus/stub_clients.go:591-592 | Appending the checksum low byte first brings the register to zero, for every message |
| CrcBits.DamageGoesUnnoticed | clients/modbus/stub_clients.go:606-609 | Flipping bits of an intact frame passes the test if and only if the flipped bits alone, fed to a zero register, leave it at zero |
| CrcBits.BurstIsCaught | clients/modbus/stub_clients.go:606-609 | Any nonzero damage within sixteen consecutive bits, in line order, of a frame of any length, checksum included, is rejected |
| CrcBits.OddDamageIsCaught | clients/modbus/stub_clients.go:606-609 | Any odd number of flipped bits, wherever they are, is rejected |
| CrcPolynomial.CrcDivides | clients/modbus/stub_clients.go:719-732 | Dividend = quotient times x^16+x^15+x^2+1 plus register, as polynomials over GF(2), for every message and start value |
| CrcPolynomial.RemainderIsUnique | clients/modbus/stub_clients.go:719-732 | No other polynomial of degree below 16 completes that division, whatever the quotient |
| CrcPolynomial.StartIsOnes | clients/modbus/stub_clients.go:720-720 | Before any data the checksum is 0xFFFF, and its sixteen coefficients are ones |
| CrcPolynomial.Crc16IsTheRemainder | clients/modbus/stub_clients.go:719-732 | Sixteen coefficients complete the division of a message, its first sixteen line bits complemented, by some quotient if and only if they are those of its crc16 (section 6.2.2 of MODBUS over Serial Line V1.02) |
| RtuFraming.RoundTrip | clients/modbus/stub_clients.go:587-615 | A reply frame followed by anything is read and checked as its PDU (or its exception), and what follows stays unread |
| RtuFraming.AcceptsOnlyOwn | clients/modbus/stub_clients.go:601-614 | The converse, in bytes: a PDU is accepted from a stream if and only if it is a well-formed reply, no exception, and stood at the front between this unit and its checksum, low byte first |
| RtuFraming.EachErrorHasItsCause | clients/modbus/stub_clients.go:601-614 | For every stream: which error, or which PDU, comes of its bytes, and what is left unread; a reply of another unit is a unit mismatch whatever its checksum |
| RtuFraming.CutShort | clients/modbus/stub_clients.go:742-780 | A reply frame cut anywhere is an I/O error, never a reply |
| RtuFraming.RepliesAreSelfDelimiting | clients/modbus/stub_clients.go:742-780 | Any list of reply frames followed by any tail is read back frame by frame, in order, leaving the tail |
| RtuFraming.PrefixFree | clients/modbus/stub_clients.go:742-780 | No reply frame is the beginning of a different one: unit and PDU are determined |
| RtuFraming.DamagedReplyIsRejected | clients/modbus/stub_clients.go:601-614 | A burst of at most sixteen bits, or an odd number of flipped bits, anywhere in a reply, that leaves the length named by its head alone: the client consumes exactly the frame and reports a unit or a checksum error |
| Damage.RtuDamageNeverSucceeds | clients/modbus/stub_clients.go:444-507 | Whatever a burst of at most sixteen bits or an odd number of flipped bits does to any bytes of the reply to an operation, head included, and whatever follows on the line, the operation does not succeed |
| Damage.CountByteIsUnprotected | clients/modbus/stub_clients.go:751-763 | For any two different even byte counts there are data and following bytes with which a reply of one count that arrives with the other is accepted by the exchange |
| Damage.OneBitDeceives | clients/modbus/stub_clients.go:751-763 | A reply to a read of two registers, one bit of its count byte flipped, is accepted as an empty reply, for every unit and the rest of the data |
| TcpFraming.RoundTrip | clients/modbus/stub_clients.go:552-585 | A frame with the expected transaction and unit followed by anything comes back as its PDU or its exception, leaving what follows |
| TcpFraming.AcceptsOnlyOwn | clients/modbus/stub_clients.go:566-584 | The converse, in bytes: a PDU is accepted if and only if it stood behind this transaction, its own length and this unit, and is no exception |
| TcpFraming.EachErrorHasItsCause | clients/modbus/stub_clients.go:566-584 | For every stream: which error, or which PDU, comes of its bytes, in the order of the client's tests, and what is left unread |
| TcpFraming.CutShort | clients/modbus/stub_clients.go:566-581 | A frame cut anywhere is an I/O error |
| TcpFraming.LengthFieldWraps | clients/modbus/stub_clients.go:553-557 | The 16-bit length field tells the truth if and only if the PDU has at most 65534 bytes |
| AsciiFraming.ComputeLrc | clients/modbus/stub_clients.go:734-740 | The loop in wrapping 8-bit arithmetic computes the negated sum of the bytes modulo 256 |
| AsciiFraming.BalancedMeansZero | clients/modbus/stub_clients.go:652-655 | The receiver's LRC comparison holds if and only if all bytes, checksum included, add up to 0 modulo 256 |
| AsciiFraming.HexRoundTrip | clients/modbus/stub_clients.go:620-646 | Hexadecimal text, upper or lower case, decodes to the bytes it was made of |
| AsciiFraming.SpelledMeans | clients/modbus/stub_clients.go:642-645 | Text decodes to bytes if and only if it spells them, two characters each, from 0123456789ABCDEF or abcdef |
| WhiteSpace.WhiteMeans | clients/modbus/stub_clients.go:638-638 | What is trimmed as white space are the UTF-8 forms of the code points that Unicode gives the property White_Space, all of them and nothing else |
| AsciiFraming.RoundTrip | clients/modbus/stub_clients.go:617-661 | A frame of at most 1024 characters followed by anything comes back as its PDU or its exception, leaving what follows |
| AsciiFraming.AcceptsOnlyOwn | clients/modbus/stub_clients.go:631-660 | The converse: a PDU is accepted only from a line of at most 1024 characters, from a colon to the first newline, that spells this unit, the PDU and a checksum that brings their sum to 0 modulo 256, with white space at most around them |
| AsciiFraming.EachErrorHasItsCause | clients/modbus/stub_clients.go:635-660 | For every line: which error, or which PDU, comes of it: colon, digits, length, unit, sum, exception |
| AsciiFraming.FrameFitsExactly | clients/modbus/stub_clients.go:782-795 | A non-exception frame is accepted if and only if its PDU has at most 508 bytes |
| AsciiFraming.CutShort | clients/modbus/stub_clients.go:782-795 | A frame cut anywhere is an I/O error |
| AsciiFraming.OneDamagedCharacter | clients/modbus/stub_clients.go:635-660 | Replacing any one character, colon and carriage return included, by any byte but a newline: the line is still read whole and gives the same PDU or an error, with white space trimmed as Go trims it |
| AsciiFraming.NewlineForCharacter | clients/modbus/stub_clients.go:631-660 | Replacing one character by a newline: the client reads up to there, and accepts the line if and only if whole bytes are left, at least three, that balance and are no exception; the PDU is then the corresponding beginning of the one sent |
| AsciiFraming.NewlineLost | clients/modbus/stub_clients.go:631-660 | Replacing the newline itself: whatever follows, the line gives the same PDU or an error |
| Damage.AsciiDamageNeverSucceeds | clients/modbus/stub_clients.go:444-507 | Any one character of the reply to an operation, newline included, replaced by any byte, and whatever follows: the operation does not succeed with another PDU than the one sent |
| Damage.NewlineDeceives | clients/modbus/stub_clients.go:631-660 | A newline for the tenth character of a reply to a read of one register with high byte 250, unit 1: the exchange accepts two bytes of PDU |
| RegisterMap.LoadAfterStore | clients/modbus/modbus_client_test.go:433-460 | A block of up to 65536 words, stored at any address with wrap-around, is loaded back as it was |
| RegisterMap.StoreTwice | clients/modbus/modbus_client_test.go:451-460 | Storing a block twice is storing it once |
| RegisterMap.StoreHolds | mock/server.go:191-194 | After a store each register holds the word of the block that falls on it, counted from the address modulo 65536, or what it held before |
| ModbusDevice.RequestArrives | clients/modbus/modbus_client_test.go:287-408 | In every mode the peer reads the client's request frame as the transaction, unit and PDU the client meant |
| ModbusDevice.Device.ApplyPDU | clients/modbus/modbus_client_test.go:410-464 | The in-place server does to its maps and its pending exception what the specification function says, and answers likewise, in every branch |
| ModbusDevice.Device.Handle | clients/modbus/modbus_client_test.go:287-312 | Receiving a frame, applying it and framing the answer is one step of the peer that the client theorems assume |
| ModbusSession.PeerPerforms | clients/modbus/modbus_client_test.go:410-464 | For every read, register write and coil write that the client sends, the server does to its maps what the operation means, and the client interprets the reply as the operation's result |
| ModbusWire.RequestConforms | clients/modbus/stub_clients.go:444-507 | In every mode a reader that checks each byte by sections 6.3, 6.5 and 6.12 of the MODBUS Application Protocol V1.1b3 and the framing standards reads from the client's request the transaction, the unit and what was asked |
| ModbusWire.DeviceAnswers | clients/modbus/modbus_client_test.go:410-464 | For request PDUs of any shape that the server survives, by their bytes: the data, the coil, the registers or the exception, and what becomes of its maps |
| ModbusWire.InterpretsExactly | clients/modbus/stub_clients.go:451-506 | A reply is taken for an answer if and only if it has the function code and the length for the operation, and its words are read high byte first |
| ModbusWire.ExceptionIsReported | clients/modbus/modbus_client_test.go:410-432 | An exception that the device was asked for reaches the client as that exception in every mode, changes no data and is spent |
| ModbusSession.ReplyDecodes | clients/modbus/stub_clients.go:531-661 | In every mode the client decodes a well-formed reply to its PDU or exception, and any proper beginning of it to an error |
| ModbusSession.ArrivalMeans | clients/modbus/stub_clients.go:531-661 | Whatever part of the answer arrives: the map is untouched or as after the operation, the reply to an answerable operation is read as the right one or not at all, and nothing is left over unless the operation is an overlong RTU read |
| ModbusSession.SendMeans | clients/modbus/stub_clients.go:509-529 | All attempts of a call together leave the map untouched or as after one operation; success returns its result, failure leaves no connection |
| ModbusSession.OperationMeans | clients/modbus/stub_clients.go:444-529 | From a quiet connection or none, for every operation under every plan, success means the result and the map of exactly one operation, failure means the map untouched or as after one operation; at most one connection is left, and it is quiet unless the operation is an overlong RTU read |
| OverlongReads.QuietIsExact | clients/modbus/stub_clients.go:444-465 | A read of n registers leaves a quiet connection or none, under every plan and whatever the device holds, if and only if the mode is TCP or ASCII, or n <= 127, or n > 32766, or connections are closed after each call |
| OverlongReads.NextReadIsForeign | clients/modbus/stub_clients.go:587-615 | In RTU mode, for every n from 128 to 32766, there are registers for which the read of n is refused and the next read of any one register succeeds with any chosen value |
| ModbusSession.RunIsSequential | clients/modbus/stub_clients.go:444-529 | From a quiet connection or none, every run of operations that leave nothing behind is a run on a plain map in which each operation took effect once or, if it failed, perhaps not, and every success returned what the map held at that point |
| OverlongReads.SequentialIsExact | clients/modbus/stub_clients.go:444-529 | An operation followed by any reads of up to 127 registers is a run on a plain map, under every plan and against every memory, if and only if the operation leaves nothing behind |
| ModbusSession.FairRunIsDirect | clients/modbus/stub_clients.go:305-661 | Over an environment without losses, any sequence of reads of at most 127 and writes of at most 123 registers returns and leaves exactly what direct map operations do |
| ModbusSession.ModesAgree | clients/modbus/stub_clients.go:531-550 | Clients in any two modes over any two such environments return the same results and leave the same maps |
| ModbusSession.RetriesOutlastTrouble | clients/modbus/stub_clients.go:509-529 | If the environment behaves from some tick on, a call whose retries reach that far succeeds, even with an exception still pending |
| ModbusSession.EffortIsBounded | clients/modbus/stub_clients.go:509-529 | With any PDU and under any plan a call writes and dials at most once per attempt, at most retries+1 times in all, and a failed call ends without a connection |
| ModbusWire.SendWrites | clients/modbus/stub_clients.go:509-529 | A call writes one conforming request per attempt, at most retries+1 of them, under consecutive transactions, and nothing else; if it fails although every dial works, exactly retries+1; the last write of a success was reported as sent, and the connection is kept after it unless connections are closed after each call |
| ModbusWire.RunWrites | clients/modbus/stub_clients.go:444-529 | The same for the client's operations; writes of no or more than 123 registers write nothing |
| ModbusWire.TransactionsFollow | clients/modbus/stub_clients.go:553-557 | In every run in TCP mode each frame on the log has the transaction after that of the frame before, modulo 65536, retries included |
| ModbusWire.OneRequestSuffices | clients/modbus/stub_clients.go:509-529 | Where everything gets through, a call writes one request, dials only if there is no connection, and succeeds |
| ModbusSession.ConnectionsAreConserved | clients/modbus/stub_clients.go:262-297 | After any sequence of opens, closes and requests with any PDUs, the connections dialled and not closed are the one the client holds, or none when it holds none |
| ModbusSession.OverlongReadFails | clients/modbus/stub_clients.go:456-457 | A read of more than 127 registers fails under every plan, and over an environment that behaves a read succeeds if and only if it asks for at most 127 |
| ModbusClients.ModbusClient.SetUnitID | clients/modbus/stub_clients.go:233-240 | Unit 0 becomes 1 |
| ModbusClients.ModbusClient.SetRetryPolicy | clients/modbus/stub_clients.go:250-254 | A negative number of retries becomes 0 |
| ModbusClients.ModbusClient.Open | clients/modbus/stub_clients.go:262-283 | Whatever was open is closed first; success means exactly one fresh connection |
| ModbusClients.ModbusClient.Close | clients/modbus/stub_clients.go:285-297 | The connection is closed and forgotten, and nothing else changes |
| ModbusClients.ModbusClient.EnsureConnLocked | clients/modbus/stub_clients.go:663-677 | Dials only when there is no connection |
| ModbusClients.ModbusClient.CloseLocked | clients/modbus/stub_clients.go:679-686 | Closes and forgets the connection, if there is one |
| ModbusClients.ModbusClient.SendTcpFrameLocked | clients/modbus/stub_clients.go:552-585 | One exchange with the incremented, wrapping transaction id: state, stream and result are those of the specified exchange |
| ModbusClients.ModbusClient.SendRtuFrameLocked | clients/modbus/stub_clients.go:587-615 | One RTU exchange, checksum computed and checked by the loop, is the specified exchange |
| ModbusClients.ModbusClient.ReadRtuResponse | clients/modbus/stub_clients.go:742-780 | The reader takes off the stream what the pure reader takes, whose frames are self-delimiting, in each branch of the function code |
| ModbusClients.ModbusClient.SendAsciiFrameLocked | clients/modbus/stub_clients.go:617-661 | One ASCII exchange is the specified exchange, with all checks in the same order |
| ModbusClients.ModbusClient.ReadAsciiResponseLine | clients/modbus/stub_clients.go:782-795 | Byte by byte up to and including the first newline, and an error after 1024 characters |
| ModbusClients.ModbusClient.SendPduOnceLocked | clients/modbus/stub_clients.go:531-550 | Ensures a connection and makes one exchange in the client's mode |
| ModbusClients.ModbusClient.SendPdu | clients/modbus/stub_clients.go:509-529 | The retry loop does what the recursive specification does for the same number of attempts, closing after every failure |
| ModbusClients.ModbusClient.ReadRegisters | clients/modbus/stub_clients.go:444-465 | State and result are those of the read operation, whose meaning is OperationMeans |
| ModbusClients.ModbusClient.WriteRegisters | clients/modbus/stub_clients.go:467-490 | State and result are those of the write operation, including nothing at all for no values and an error above 123 |
| ModbusClients.ModbusClient.WriteCoil | clients/modbus/stub_clients.go:492-507 | State and result are those of the coil operation |
| ModbusClients.ModbusClient.ReadInt16 | clients/modbus/stub_clients.go:305-321 | The signed reading of the one register, or an error and nothing else for an address that does not parse |
| ModbusClients.ModbusClient.ReadInt32 | clients/modbus/stub_clients.go:323-342 | The signed reading of two registers, high word first, or an error and nothing else for a bad address |
| ModbusClients.ModbusClient.ReadString | clients/modbus/stub_clients.go:365-391 | The bytes of the registers cut to the requested length, trailing NULs removed, where the word count is cut to 16 bits; lengths of 0 or less and bad addresses are refused without any request |
| LongTexts.ModbusTextIsWhole | clients/modbus/stub_clients.go:378-390 | A text of n bytes read with success is the whole text, under every plan and memory, if and only if n <= 131070 or the wrapped word count is over 127 |
| ModbusClients.ModbusClient.Write | clients/modbus/stub_clients.go:393-442 | Every kind of value becomes the operation with that value's words; a bad address is refused without any request; what that does to the device is `TypedEffects.ModbusWrite` |
| ModbusClients.ModbusClient.BytesToRegisters | clients/modbus/stub_clients.go:700-709 | Bytes padded to even length, as big-endian words |
| ModbusClients.ModbusClient.RegistersToBytes | clients/modbus/stub_clients.go:711-717 | Words as big-endian bytes, the inverse of the above on even lengths |
| OwnReply.StepKeeps | clients/modbus/stub_clients.go:509-661 | Every step of callers, network and peer keeps the invariant: a free mutex means a quiet connection or none, a waiting caller has only its own request or reply in flight, and every success so far was the caller's own |
| OwnReply.DecodeTakesShortest | clients/modbus/stub_clients.go:552-661 | In every mode the client reads a stream exactly up to the first point at which what it has is complete (a bad TCP header, a whole frame, a newline, 1024 characters), judges that, and leaves the rest |
| OwnReply.DeviceAnswersPossibly | clients/modbus/modbus_client_test.go:410-464 | Whatever the device holds and whatever exception was asked for, its answer is one that the peer of the transition system may give, replies with a wrapped count byte included |
| OwnReply.FinishReadsOwnReply | clients/modbus/stub_clients.go:552-661 | A caller that has read all it asks for has read the peer's answer to its own request, judges it as that answer, and leaves the connection quiet, unless an ASCII line was too long, which is an error |
| OwnReply.EveryCallerGetsItsOwnReply | clients/modbus/stub_clients.go:444-661 | In every run of any number of callers whose operations leave nothing behind, in every mode, with any losses, time-outs and device contents, each successful call returned what the peer's answer to a request of that very call means, and no two successes share a request |
| OwnReply.ChecksNeverFire | clients/modbus/stub_clients.go:567-576 | As soon as seven header bytes are there, transaction and unit are the caller's own and the length is positive, also after the id wraps; and every frame read in full passes all tests, except for ASCII lines that are too long |
| OwnReply.FreeMutexMeansQuiet | clients/modbus/stub_clients.go:509-529 | In such runs, whenever nobody holds the mutex, nothing is outstanding and nothing is unread on the connection |
| OwnReply.QuietIsExact | clients/modbus/stub_clients.go:509-529 | In all runs whose calls are one operation a free mutex means a quiet connection, if and only if that operation leaves nothing behind: for an overlong RTU read there is a run, with an answer that a device gives, that ends otherwise |
| OwnReply.OwnIsExact | clients/modbus/stub_clients.go:509-529 | In all runs whose calls are one operation and others that leave nothing behind, every success is the caller's own, if and only if that operation leaves nothing behind: otherwise a second caller succeeds before its request was answered |
| OwnReply.AttemptsAreBounded | clients/modbus/stub_clients.go:509-529 | However callers interleave and whatever is lost, no call sends more than retries+1 requests |
| SharedClient.CallersAreLinearizable | clients/modbus/stub_clients.go:444-529 | With the device and its memory at the other end, any number of callers whose operations leave nothing behind, retries, losses, time-outs and injected exceptions: the calls in the order of the mutex are a run on a plain map in which each took effect once or, if it failed, perhaps not; every success a caller saw is in it with that result; the device's data are its end whenever the mutex is free; and the order respects real time |
| SharedClient.ServeIsNeverBlocked | clients/modbus/modbus_client_test.go:410-464 | In that system the device always serves a pending request that it survives |
| MockServer.Server.HandleStream | mock/server.go:74-89 | The handler's loop answers each whole request of what a client sent, in order, and stops at an incomplete one |
| MockServer.Server.ProcessRequest | mock/server.go:91-140 | Injected failure, length, subcommand, command: each branch with its end code, and the words changed only by a good write |
| MockServer.Server.HandleRead | mock/server.go:142-168 | The reply carries the block of words at the address, wrapping modulo 65536, or the end code of the failed test |
| MockServer.Server.HandleWrite | mock/server.go:170-200 | The words become the old ones with the whole block stored, or stay untouched with the end code of the failed test |
| MockServer.Server.SetWord | mock/server.go:55-59 | One word changes, nothing else |
| MockServer.Server.GetWord | mock/server.go:61-65 | The word at the address, or 0 if it was never written |
| MockServer.Server.FailNextRequest | mock/server.go:67-72 | The next request will be answered with this end code |
| MelsecSession.ServerPerforms | mock/server.go:91-200 | For every request that fits its length fields the server does to its map what the operation means and answers with end code 0 and the data |
| MelsecWire.RequestConforms | mitsubishi_client.go:363-385 | A reader of fixed offsets finds in every request the subheader, each part of the route, the timer, and what was asked; with the length field checked it reads the request if and only if that did not wrap, that is up to 32761 words |
| MelsecWire.ServerAnswers | mock/server.go:91-200 | For command data of any shape: the end code of the first test that fails, in numbers, or the data or the store that the bytes ask for; the answer has its subheader, the echoed route, its length, end code and data at their offsets |
| MelsecWire.StreamIsServed | mock/server.go:74-89 | The server takes nine bytes and as many more as the field at 7 says, answers them, and goes on behind them; it stops at an incomplete request |
| MelsecWire.RouteComesBack | mock/server.go:91-101 | In whatever the server answers to a request stand the network, station, module and multidrop station that the client sent |
| MelsecWire.EachErrorHasItsCause | mitsubishi_client.go:392-408 | For every stream: which error, or which data, comes of its bytes, and what is left unread |
| MelsecWire.InterpretsExactly | mitsubishi_client.go:303-343 | A read takes its words, low byte first, from data that are long enough, and nothing else is an answer; a write takes anything |
| MelsecSession.ReplyDecodes | mitsubishi_client.go:392-408 | The client decodes a reply of up to 65533 data bytes to its data or its end code, and leaves what follows unread |
| MelsecSession.CutShort | mitsubishi_client.go:392-408 | A reply cut anywhere is an error |
| MelsecSession.ArrivalMeans | mitsubishi_client.go:363-409 | Whatever part of the answer arrives, it is read as the right answer with nothing left over, or not at all, and never for a read of more than 32766 words |
| MelsecSession.OperationMeans | mitsubishi_client.go:303-361 | For every read, and every write of at most 32761 words, under every schedule of lost requests, lost and cut replies, refused connections and injected end codes: success leaves exactly the map of one operation and returns its result, failure leaves the map untouched or fully written, and any connection left is quiet |
| MelsecSession.RunIsSequential | mitsubishi_client.go:303-361 | Every run of reads of any count and writes of at most 32761 words is a run on a plain map in which each operation took effect once or, if it failed, perhaps not |
| MelsecSession.RetriesOutlastTrouble | mitsubishi_client.go:345-361 | If the environment behaves from some tick on, a call whose retries reach that far succeeds |
| MelsecSession.EffortIsBounded | mitsubishi_client.go:345-368 | At most one write and two dials per attempt; a failed call ends with no connection or a fresh one |
| MelsecWire.SendWrites | mitsubishi_client.go:345-361 | A call writes its own request at most once per attempt, and nothing else; if it fails although every dial works, exactly retries+1 times, and ends with a fresh connection |
| MelsecWire.RunWrites | mitsubishi_client.go:303-361 | The same for reads and writes of a client with its route; a read of no words writes nothing |
| MelsecWire.OneRequestSuffices | mitsubishi_client.go:345-361 | Where everything gets through, a call writes one request, dials only if there is no connection, and succeeds |
| MelsecSession.ConnectionsAreConserved | mitsubishi_client.go:96-136 | After any sequence of opens, closes and requests, the connections dialled and not closed are the one the client holds, or none |
| MelsecBounds.OverlongWriteIsRefused | mock/server.go:74-89 | A write of 32762 to 65535 words, whose request length wraps, is refused with a length error or the injected end code, and the bytes beyond the wrapped length are served as further requests |
| MelsecBounds.OverlongReadIsUnreadable | mock/server.go:157-167 | Of a read of more than 32766 words nothing readable comes back, however much of it arrives and whatever the server holds |
| MelsecBounds.MisfitFails | mitsubishi_client.go:345-361 | Under every plan and against every memory, reads of more than 32766 and writes of more than 32761 words fail, and leave at most one connection, a quiet one |
| MelsecBounds.SucceedsExactlyWhenItFits | mitsubishi_client.go:303-343 | A call succeeds only if it reads at most 32766 or writes at most 32761 words; over an environment that behaves it then does succeed, and does what it means |
| MelsecBounds.OverlongWriteStrays | mitsubishi_client.go:329-343 | For every address, every count from 32762 to 65535, every register and every value there are words whose write fails and makes the server store that value in that register and nothing else |
| MelsecBounds.MeaningIsExact | mitsubishi_client.go:329-361 | At every address, writes of n words leave the map of one write on success and the map untouched or fully written on failure, for all words, plans and memories, if and only if n <= 32761 |
| MelsecBounds.HarmlessOverlongWrite | mitsubishi_client.go:329-343 | Writing 32762 zeros to register 0 fails and changes nothing, under every plan: the exact condition is on the count, not on the single write |
| MitsubishiClients.MitsubishiClient.Open | mitsubishi_client.go:96-121 | A version other than Qna_3E is refused without touching anything; otherwise the old connection, if any, is closed, and success means one fresh connection |
| MitsubishiClients.MitsubishiClient.Close | mitsubishi_client.go:123-136 | The connection is closed and forgotten |
| MitsubishiClients.MitsubishiClient.SetRetryPolicy | mitsubishi_client.go:84-94 | A negative number of retries becomes 0 |
| MitsubishiClients.MitsubishiClient.SetRoute | mitsubishi_client.go:58-65 | Each part of the route is the one given |
| MitsubishiClients.MitsubishiClient.SetMonitoringTimer | mitsubishi_client.go:67-71 | The timer is the one given |
| MitsubishiClients.MitsubishiClient.ReconnectLocked | mitsubishi_client.go:411-422 | Closes what is open, then dials once |
| MitsubishiClients.MitsubishiClient.SendRequestOnceLocked | mitsubishi_client.go:363-409 | Builds the 3E frame from the route fields and makes the specified exchange; where the fields stand in it is `MelsecWire.RequestConforms` |
| MitsubishiClients.MitsubishiClient.SendRequest | mitsubishi_client.go:345-361 | The retry loop does what the recursive specification does, reconnecting after every failure |
| MitsubishiClients.MitsubishiClient.ReadWords | mitsubishi_client.go:303-327 | State and result are those of the read operation; no request at all for 0 words |
| MitsubishiClients.MitsubishiClient.WriteWords | mitsubishi_client.go:329-343 | State and result are those of the write operation, the payload written in place by offset |
| MelsecWire.RoutedRead | mitsubishi_client.go:303-327 | After setting route and timer, every frame that ReadWords puts on the wire carries them and the address and count, each at its offset |
| MelsecWire.RoutedWrite | mitsubishi_client.go:329-343 | The same for WriteWords and its words; the length field is right up to 32761 of them |
| MitsubishiClients.MitsubishiClient.ReadInt16 | mitsubishi_client.go:144-166 | The signed reading of the one word, or an error and nothing else for an address that does not parse |
| MitsubishiClients.MitsubishiClient.ReadInt32 | mitsubishi_client.go:168-191 | The signed reading of two words, low word first, or an error and nothing else for a bad address |
| MitsubishiClients.MitsubishiClient.ReadString | mitsubishi_client.go:218-246 | The bytes of the words cut to the requested length, trailing NULs removed, where the word count is cut to 16 bits; lengths of 0 or less and bad addresses are refused without any request |
| LongTexts.MelsecTextIsWhole | mitsubishi_client.go:233-245 | A text of n bytes read with success is the whole text, under every plan and memory, if and only if n <= 131070 or the wrapped word count is over 32766 |
| LongTexts.NoRequestForLongText | mitsubishi_client.go:233-245 | A read of 131071 or 131072 bytes succeeds with an empty text and sends nothing |
| MitsubishiClients.MitsubishiClient.Write | mitsubishi_client.go:248-301 | Every kind of value becomes the operation with that value's words, a flag as a word; 64-bit values and bad addresses are refused without any request |
| MitsubishiClients.MitsubishiClient.BytesToWords | mitsubishi_client.go:445-454 | Bytes padded to even length, as little-endian words |
| MitsubishiClients.MitsubishiClient.WordsToBytes | mitsubishi_client.go:456-463 | Words as little-endian bytes, the inverse of the above on even lengths |
| MockServerThreads.LeaveKeeps | mock/server.go:157-195 | A handler that leaves the mutex has done its operation as a whole on the sequential map, and the log stays legal |
| MockServerThreads.OtherStepsKeep | mock/server.go:74-200 | Receiving, checking, entering, touching a word, replying and injecting a failure keep the invariant |
| MockServerThreads.ReadsAreAtomic | mock/server.go:55-200 | Under every interleaving of any number of connections, and of SetWord and GetWord from inside the process, there is a sequential history, in the order of leaving the mutex, that explains what the clients see: each answer with data has exactly one entry, with the operation asked and those data, which are what the operation returns on the sequential map at that place; a request answered with a failure has none; and the words are the map at the end whenever the mutex is free |
| MockServerThreads.LogRespectsRealTime | mock/server.go:74-200 | The history respects real time: a request answered before another was received comes first |
| MockServerThreads.FailuresWereAskedFor | mock/server.go:103-116 | No request fails unless somebody asked for a failure, each wish fails one request at most, and the end code shown is the one asked for, C020 in place of 0 |
| MockServerThreads.UndisturbedRequest | mock/server.go:74-200 | Whenever the mutex is free and no failure is pending, a handler can take all its steps, and they do to the words what the operation means and answer with what it returns |
| AllenBradleyFrames.BuildReadCommand | clients/plc/allen_bradley_client.go:391-426 | The buffer filled by offset is the frame with its headers, path, length and slot; every store is in bounds for every tag |
| AllenBradleyFrames.BuildWriteCommand | clients/plc/allen_bradley_client.go:428-465 | The same for write commands with any data |
| AllenBradleyFrames.LengthsAgree | clients/plc/allen_bradley_client.go:428-465 | While the content fits 65535 bytes, the frame length, the item length and the message length each end where the frame, the item and the message end |
| AllenBradleyFrames.ReadLengthsAgree | clients/plc/allen_bradley_client.go:391-426 | The same for read commands |
| AllenBradleyFrames.ReadInverts | clients/plc/allen_bradley_client_test.go:181-208 | The server's offsets recover session, tag, length and slot of a read command if and only if the tag has at most 255 bytes |
| AllenBradleyFrames.GuardMissesWhiteSpace | clients/plc/allen_bradley_client.go:467-476 | A tag with any number of spaces behind it passes validateAllenTag if and only if the tag itself has at most 255 bytes, and its command is understood if and only if tag and spaces together do |
| AllenBradleyFrames.WriteInverts | clients/plc/allen_bradley_client_test.go:181-208 | The server's offsets recover session, tag, type, count, data and slot of a write command if and only if the tag has at most 255 bytes and the content at most 65535 |
| AllenBradleyWire.ReadConforms | clients/plc/allen_bradley_client.go:391-426 | A reader that checks every byte of a command by its offset, constants, lengths and padding included, reads a read command as what was asked if and only if the tag has at most 255 bytes |
| AllenBradleyWire.WriteConforms | clients/plc/allen_bradley_client.go:428-465 | The same for write commands, if and only if the tag has at most 255 bytes and the content at most 65535 |
| AllenBradleyWire.RegistrationBytes | clients/plc/allen_bradley_client.go:353-363 | The 28 bytes of the registration and of the test server's answer to it |
| AllenBradleyWire.RawDataExactly | clients/plc/allen_bradley_client.go:283-293 | The payload cut out of a reply is what stands at offset 46, of the length that the field at 38 says less 6, if the reply is long enough for it, and nothing otherwise |
| AllenBradleyWire.DataReplyBytes | clients/plc/allen_bradley_client_test.go:245-256 | The bytes of the test server's reply by offset |
| AllenBradleyWire.DecodesExactly | clients/plc/allen_bradley_client.go:325-338 | The client takes off its stream 24 bytes and as many more as the field at 2 says, or fails |
| AllenBradleyFrames.ReplyInverts | clients/plc/allen_bradley_client_test.go:245-256 | The client finds in the server's reply exactly the payload, up to 65513 bytes |
| AllenBradleySession.SendKeeps | clients/plc/allen_bradley_client.go:296-350 | A call with all its attempts keeps the session invariant, writes at most twice and dials at most once per attempt, and fails without a connection |
| AllenBradleySession.CallKeeps | clients/plc/allen_bradley_client.go:58-97 | Open, Close and commands keep the invariant: the registration on an open connection was granted by the answer to it, and the nonzero session it gave is the current one |
| AllenBradleySession.RegisterBeforeCommand | clients/plc/allen_bradley_client.go:296-379 | In every run, against every peer and under every failure, the first write on a connection is the registration; commands follow only if that write was delivered and at least 28 bytes of the answer to it arrived with a nonzero session, and all of them later than it; an open connection between calls has such a registration, and its session is the current one |
| AllenBradleyWire.EachErrorHasItsCause | clients/plc/allen_bradley_client.go:364-379 | A registration fails exactly when it was not sent, fewer than 28 bytes came, or the four bytes at 4 are 0; otherwise they are the session |
| AllenBradleyWire.ServerGivesSession | clients/plc/allen_bradley_client_test.go:155-166 | Whoever gets all of the test server's answer gets session 0x01020304 |
| AllenBradleyWire.AttemptsAreMade | clients/plc/allen_bradley_client.go:296-313 | A call that fails although every dial works has made exactly its attempts, each after the first on a connection of its own, and ends without one |
| AllenBradleyWire.OneCommandSuffices | clients/plc/allen_bradley_client.go:296-313 | When the reply arrives whole the call ends with it, and has written one command |
| AllenBradleyClients.BuiltCommandsAreCommands | clients/plc/allen_bradley_client.go:391-465 | Whatever the client builds counts as a command in that theorem |
| AllenBradleyClients.AllenBradleyClient.Open | clients/plc/allen_bradley_client.go:58-82 | Drops the old connection, dials and registers; a failed registration leaves no connection |
| AllenBradleyWire.OpenIsFresh | clients/plc/allen_bradley_client.go:58-82 | Open dials once and keeps the new connection if and only if its registration succeeds; otherwise there is none |
| AllenBradleyClients.AllenBradleyClient.Close | clients/plc/allen_bradley_client.go:84-97 | The connection, if any, is closed and forgotten, and the session is 0 afterwards in any case |
| AllenBradleyClients.AllenBradleyClient.EnsureConnLocked | clients/plc/allen_bradley_client.go:340-350 | A new connection is registered before anything else |
| AllenBradleyClients.AllenBradleyClient.RegisterSessionLocked | clients/plc/allen_bradley_client.go:352-379 | Sends the registration, reads 28 bytes, and refuses session 0 |
| AllenBradleyClients.AllenBradleyClient.CloseLocked | clients/plc/allen_bradley_client.go:381-389 | With a connection: it is closed and forgotten and the session is 0; without one nothing changes |
| AllenBradleyClients.AllenBradleyClient.SendCommandOnceLocked | clients/plc/allen_bradley_client.go:315-338 | Ensures a registered connection and reads header and content of one reply |
| AllenBradleyClients.AllenBradleyClient.SendCommand | clients/plc/allen_bradley_client.go:296-313 | The retry loop does what the recursive specification does, closing after every failure |
| AllenBradleyClients.AllenBradleyClient.WriteRaw | clients/plc/allen_bradley_client.go:267-272 | Builds the command with the session held at the start of the call and sends it; success means that some reply came |
| AllenBradleyClients.AllenBradleyClient.ReadRaw | clients/plc/allen_bradley_client.go:275-294 | Builds the command with the session held at the start of the call, sends it, and cuts the payload out of the reply or fails |
| AllenBradleyTags.SendMeans | clients/plc/allen_bradley_client_test.go:140-222 | Against the test server, with registrations, losses and retries, a call leaves the tags as before or as after its command, and a success as after it and returns the server's reply to it |
| AllenBradleyTags.TagComesBack | clients/plc/allen_bradley_client_test.go:140-222 | Under every plan without malformed replies, the data of a successful write are what a successful read returns, cut or filled with zeros; reads of more than 65513 bytes return nothing |
| AllenBradleyTags.WriteStoresExactly | clients/plc/allen_bradley_client_test.go:169-206 | Where everything gets through, a write on an open connection succeeds, and has stored its data if and only if no malformed reply was pending |
| TypedValues.SignedRoundTrip | clients/modbus/stub_clients.go:404-413 | 16- and 32-bit signed numbers come back from their bit patterns |
| TypedValues.DoubleBytes | clients/modbus/stub_clients.go:336-339 | A 32-bit number split into words and packed is its four bytes, from the highest on for Modbus and from the lowest on for 3E |
| TypedValues.QuadBytes | clients/modbus/stub_clients.go:415-423 | A 64-bit number is its eight bytes, from the highest on |
| TypedValues.QuadRoundTrip | clients/modbus/stub_clients.go:416-423 | 64-bit patterns come back from their four words |
| TypedValues.TextFromBig | clients/modbus/stub_clients.go:378-390 | A text, padded, packed into words, unpacked and cut to any length up to its own, is its beginning up to trailing NULs |
| TypedValues.TextFromLittle | mitsubishi_client.go:233-246 | The same for the little-endian word order |
| TypedValues.TrimNulRemovesZeros | clients/modbus/stub_clients.go:389-390 | Trimming removes trailing zeros, all of them and nothing else |
| TypedRoundTrips.ModbusReadsBack | clients/modbus/stub_clients.go:305-442 | A 16-, 32- or 64-bit value that the client wrote with success is what its next successful read of the same words gives, in every mode and under every plan; a text comes back at its front, and beyond its end a read of up to 131070 bytes shows what the device held before |
| TypedRoundTrips.MelsecReadsBack | mitsubishi_client.go:144-301 | The same for the Mitsubishi client, whose flags come back as words |
| ClientRoundTrips.ModbusInt16 | clients/modbus/stub_clients.go:305-321 | Write, then ReadInt16 through the same client: if both succeed, the number comes back |
| ClientRoundTrips.ModbusInt32 | clients/modbus/stub_clients.go:323-342 | Write, then ReadInt32: if both succeed, the number comes back |
| ClientRoundTrips.ModbusString | clients/modbus/stub_clients.go:365-391 | Write, then ReadString of any length up to 131070: if both succeed, the text comes back, cut to that length or followed by what the device held behind it, up to trailing NULs |
| ClientRoundTrips.MitsubishiInt16 | mitsubishi_client.go:144-166 | Write, then ReadInt16: if both succeed, the number comes back |
| ClientRoundTrips.MitsubishiInt32 | mitsubishi_client.go:168-191 | Write, then ReadInt32: if both succeed, the number comes back |
| ClientRoundTrips.MitsubishiString | mitsubishi_client.go:218-246 | Write, then ReadString of any length up to 131070: if both succeed, the text comes back, cut to that length or followed by what the server held behind it, up to trailing NULs |
| ClientRoundTrips.AllenBradleyTag | clients/plc/allen_bradley_client.go:264-294 | Write of a tag's bytes, then readRaw: if both succeed and all replies were the test server's, none of them malformed, the bytes come back, cut or filled with zeros to the length asked for |
| TypedEffects.ModbusWrite | clients/modbus/stub_clients.go:393-442 | What Write does to the device, in bytes: true or false switches exactly the addressed coil on or off, any other value puts its bytes, high end first, into the registers from the address on, modulo 65536, and nothing else changes; on failure all of this or nothing |
| TypedEffects.MitsubishiWrite | mitsubishi_client.go:248-301 | The same for 3E, low end first, a flag being 1 or 0; texts of up to 65522 bytes |
| TypedEffects.ModbusReadInt16 | clients/modbus/stub_clients.go:305-321 | A successful ReadInt16 is the number in 16-bit range that is congruent to the register; no outcome changes the device |
| TypedEffects.ModbusReadInt32 | clients/modbus/stub_clients.go:323-342 | The same for 32 bits, the register at the address being the higher half |
| TypedEffects.ModbusReadString | clients/modbus/stub_clients.go:365-391 | A successful ReadString is the bytes of the registers, high byte first, without the NULs at their end |
| TypedEffects.MitsubishiReadInt16 | mitsubishi_client.go:144-166 | As for Modbus |
| TypedEffects.MitsubishiReadInt32 | mitsubishi_client.go:168-191 | As for Modbus, the word at the address being the lower half |
| TypedEffects.MitsubishiReadString | mitsubishi_client.go:218-246 | As for Modbus, low byte first |
| Addresses.AtoiMeans | clients/plc/siemens_client.go:228-243 | The digit loop gives a number exactly for its signed numerals, any number of leading zeros included |
| Addresses.SiemensAcceptsExactly | clients/plc/siemens_client.go:218-265 | A string is accepted as an address if and only if it is, byte by byte, a spelling of that address with its letters in any case (the dotless i counting as I) between any Unicode white space, and the address is in range |
| Addresses.SiemensPrintsAndParses | clients/plc/siemens_client.go:218-265 | Every address in range comes back from its printed form, each capital letter of it as it is or 32 higher, with leading zeros and Unicode white space added |
| Addresses.DAcceptsExactly | mitsubishi_client.go:433-443 | A string is accepted as register n if and only if it is D or d and an unsigned numeral of n, up to 65535, between any Unicode white space |
| Addresses.DPrintsAndParses | mitsubishi_client.go:433-443 | Every D register comes back from D or d and its number, with leading zeros and white space added |
| Addresses.ModbusAcceptsExactly | clients/modbus/stub_clients.go:688-698 | A string is accepted as address n if and only if it is an unsigned numeral of n, up to 65535, between any Unicode white space |

## Left out

- Sockets, serial ports, deadlines, delays, time fields and error texts. They are the plan's choices: an error from setting a deadline is a write that was not sent, a time-out is a reply that did not arrive.
- Liveness against a server that never answers; only the number of attempts is bounded.
- The Siemens transport and all of the Omron client; the library code under the former is not part of this model.
- The wrapper types per Modbus transport, `Connected`, and setters that only concern time or the serial line.
- IEEE 754: floating-point numbers are their bit patterns, so `ReadFloat` is `ReadInt32` without the sign and has no method of its own.
- The Go types that `Write` does not accept. Those it accepts are their bit patterns of 16, 32 or 64 bits.
- ModbusDevice.RequestArrives: in RTU mode the peer is one that ignores a frame whose checksum is wrong, not `handleRTU` of the Modbus test server, which does not look at the request checksum of reads and coil writes. Where a handler would stop at a read error, the peer sends nothing.
- Network.Wire.ReadFull: a read gives bytes or an error, never bytes together with an error and never nothing without one, as TCP and serial connections do; Go's interface would allow it, and the two copies of readFull would then treat a full buffer as failed.
- ModbusDevice.Device.ApplyPDU: requires what keeps the Go code from running past the request or its reply buffer; for other requests the peer's handler is lost and it sends nothing.
- MockServer.Server.HandleRead: requires fewer than 32768 words, above which the Go code runs past its buffer; HandleStream then stops answering. That the process would end for all connections is not modelled.
- MockServer.Server.HandleWrite: requires data of at most 65529 bytes, which is what a request's 16-bit length can hold.
- MitsubishiClients.MitsubishiClient.Write: requires texts of at most 131070 bytes, for the reason given for WriteWords.
- TypedEffects.MitsubishiWrite: requires texts of at most 65522 bytes; what longer ones do is in `MelsecBounds`. TypedEffects.ModbusReadString and TypedEffects.MitsubishiReadString require lengths up to 131070; longer ones are in `LongTexts`.
- MitsubishiClients.MitsubishiClient.WriteWords: requires fewer than 65536 values, above which the Go code runs past its payload buffer.
- OwnReply.EveryCallerGetsItsOwnReply: unit and settings stay as they are during a run, and the peer sends at most one answer per request, in order, undamaged. A connection that is closed takes its pending requests with it. On a serial line a late answer to a request that timed out could still arrive after the port was opened again; if it does, it is a whole frame unread on the connection, and the next reader takes it, as `OverlongReads.NextReadTakesIt` says.
- ModbusSession.RunIsSequential: one client, and so is MelsecSession.RunIsSequential. With several clients a write whose reply was lost may be repeated around another client's write.
- MockServerThreads.ReadsAreAtomic: requests are abstract operations here, which `MelsecSession.ServerPerforms` connects to frames; reads are of fewer than 32768 words.
- AllenBradleySession.RegisterBeforeCommand: does not say which session a command carries. The command is built before a reconnect may register a new one (lines 279-280), so after a reconnect it carries the old session.
- The Allen-Bradley methods for single types, which wrap WriteRaw and ReadRaw, and the conversion of the tag string; tags are their bytes.
- AllenBradleyTags.TagComesBack: the server serves one frame for each write; a command whose length field wrapped, and so is more than one frame, is covered by `AllenBradleyFrames.WriteInverts` only.
- The value `true` for closing after each call is never set in the repository; the model covers both values.
- Addresses.SiemensAcceptsExactly: upper-casing is modelled for ASCII and for the two characters beyond ASCII whose upper case is an ASCII letter; other characters stay beyond ASCII and are refused.

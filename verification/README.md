# A verified model of go-tftp

This project models the parts of `pack.ag/tftp` that carry the protocol and proves, in Dafny, what
they promise: the windowed transfer of section 2 and section 6 of RFC 1350 and section 4 of
RFC 7440, the datagram formats of section 5 of RFC 1350 and the option lists of RFC 2347, the
negotiation of RFC 2348, RFC 2349 and RFC 7440, netascii, and the routing of single-port mode.
`dafny verify dfyconfig.toml` checks all of it.

## How the model is built

**The transfer (`conn.go`).** Each half of a connection is a class with the program's fields and one
method per state function (`SenderConn.Conn`, `ReceiverConn.Conn`); the replay cache is a class over
the program's two arrays (`RingBuffer.Ring`). Every state function is proved equal to a step of an
abstract machine (`SenderSpec`, `ReceiverSpec`) in which block numbers are unbounded, the 16-bit
counters are their projections, and the ring is the plain list of all blocks ever cut with a cursor.
The loops `for state != nil` are proved equal to a total function (`RunToIdle`) that runs the machine
against any finite script of inputs followed by silence, so they terminate. `ReplayIndex` describes
the ring exactly even after a rewind deeper than its memory, which the program does not prevent.

**Two parties.** `Fifo` joins the machines by order-preserving channels that may lose, duplicate in
place, delay and time out; streams and block numbers are unbounded, so the 16-bit numbers wrap any
number of times. `Reorder` joins them by a network that may deliver any packet ever sent at any later
time, any number of times. Application calls, timeouts, stray packets and failures may come at any
moment in both. `Wire` puts bytes into the channels of `Fifo`: packets are encoded, land in reused
receive buffers, are validated and read back, and every such run is shown to be a run of `Fifo`.

**How transfers end.** `LossFree` counts packets on reliable channels, `Termination` gives the measure
by which such transfers must end, and `Delivery` constructs a successful one for every stream and every
way to write it. `ReorderCompletion` decides exactly when a nil `Close` can be believed on a network
that reorders. `FifoRuns` constructs runs over ordered channels in which a transfer falls short.

**Codec and the rest.** `Codec` describes datagrams as byte strings inside larger, reused buffers;
`DatagramBuffer` fills them in place, walking option maps in any order. `Negotiation` composes
encoding, `parseOptions` at the server, the OACK and `parseOptions` at the client. `Netascii` holds
the encoder and the look-ahead decoder, `ConnManager` the event loop of the server.

Where code and documentation differ the model follows the code:

- A timeout in `getAck` sets `c.err` and nothing clears it (conn.go:737), so a single timeout makes
  every later `Write` and `Close` fail even when the transfer goes on. `SenderLaws.ErrorFree` states
  exactly which moves leave the connection usable; `FifoRuns.TimeoutSpoilsClose` gives, for every stream
  and all sizes, a run in which the receiver has the whole stream and `Close` reports a timeout.
- `UnreadSlots` is unguarded although its comment speaks of unreading up to the number of slots
  (conn.go:846-847, conn.go:900-904). Bytes at the receiver stay right, but completion can be lost when
  the network reorders. With N = ⌊L/blksize⌋ + 1 blocks, below 65536, a nil `Close` can hide the loss of
  the last block if and only if N > windowsize (`ReorderCompletion.NilCloseExact`). However
  large N is, below 65536, it cannot happen in a run whose rewinds stay within the ring (`ReorderCompletion.CompletionInRing`).
- "Out of order ACKs can cause this scenario" (conn.go:782) is said of every ACK above the current
  block, but an ACK that is in order and below it also compares as greater when the 16-bit number has
  wrapped in between. `Fifo.WrappedAckIgnored` gives the exact condition, `FifoRuns.WrapIgnoresAck` a run
  for every window size and every stream that is long enough.
- `validate` panics on a request whose buffer holds no NUL byte (datagram.go:237-240); see
  `Codec.ValidateCrashes`.

## Model

| member | source | states |
|---|---|---|
| Fifo.Safety | conn.go:358-402 | in every state of every run over lossy, duplicating, ordered channels, what the receiver has accepted is a prefix of what was written, for streams of any length and any number of block wraps |
| Fifo.Completion | conn.go:603-645 | a nil `Close` after setup means that the receiver is done and holds the whole stream; `done` at the receiver means the stream was closed and is held completely |
| Fifo.StepLinked | conn.go:724-801 | every step of either end or of a channel keeps the invariant that ties both counters, the ACKs and the DATA packets in flight |
| Fifo.AckIsExact | conn.go:780-793 | an ACK read off an ordered channel is at most a window old; equality of 16-bit numbers is exact for it, an accepted one rolls back by its true length, and it is accepted if and only if it and the cursor have wrapped equally often |
| Fifo.WrappedAckIgnored | conn.go:781-785 | an ACK in order is ignored, at the cost of a try and without a rollback, if and only if the block number has wrapped since it |
| Fifo.NextIsExact | conn.go:540-541 | the 16-bit distance is 1 exactly for the true next block, with windows up to 65535 |
| Fifo.RollbackFits | conn.go:786-789 | in every run, an accepted ACK puts the sender at the acknowledged block, and everything from there on is replayed as it was first sent |
| Fifo.SentIsRight | conn.go:366-374 | every DATA packet carries the block of its number |
| Reorder.Safety | conn.go:539-554 | below 65536 blocks, under any loss, duplication and reordering, every DATA packet in the network is right or numbered at or below the receiver's block; accepted bytes are a prefix of the stream; `done` means all of it |
| Reorder.SentIsHarmless | conn.go:877-904 | after a rewind past the ring's memory a wrong block can only be sent under a number the receiver has passed |
| ReorderCompletion.NilCloseExact | conn.go:786-792 | for all sizes and every stream of N < 65536 blocks: a reachable state exists in which `Close` has returned nil and the receiver is not done, if and only if N > windowsize |
| ReorderCompletion.OneWindowCompletes | conn.go:603-645 | a transfer of at most a window of blocks: nil `Close` means that the receiver is done and holds the stream |
| ReorderCompletion.CompletionInRing | conn.go:786-792 | a transfer of any number of blocks below 65536: the same in every run in which no accepted ACK rewinds past the ring |
| ReorderCompletion.NilCloseCanLoseData | conn.go:902-904 | a transfer of more than a window and fewer than 65536 blocks: a run, for every stream, in which such a rewind makes `Close` return nil although the receiver has exactly the full blocks and not the short one |
| LossFree.Totals | conn.go:384-401 | on reliable channels, in every state of every interleaving: no end fails, one DATA packet per block; once the receiver is done, exactly ⌊L/blksize⌋+1 DATA packets and one ACK per started window have carried the stream; a nil `Close` means that it is done |
| LossFree.AcceptChannel | conn.go:585-599 | the two windows stay aligned: the only ACK in flight is the one that the sender is waiting for |
| LossFree.NeverStuck | conn.go:603-645 | until `Write` or `Close` has returned, one of the ends can move, or the receiver waits for its caller |
| Termination.StepBound | conn.go:267-270 | every step of a reliable transfer that is not a call of `Write`, `Close` or `Read` lowers a measure of what is left to do; a call raises it by an amount known from its argument |
| Termination.PathBound | conn.go:267-270 | so the number of steps of a run is bounded by the measure at its start and the calls made |
| Termination.EndsWell | conn.go:603-645 | every loss-free transfer ends, and where it stops with `Close` called and no `Read` to wait for, `Close` has returned nil and exactly ⌊L/blksize⌋+1 DATA packets and one ACK per started window have carried the stream |
| Delivery.Delivers | conn.go:261-273 | for all sizes, with or without an OACK, and for every stream in any pieces, a reliable run exists in which `Close` returns nil, the caller at the other end has read the whole stream and its end, and no packet was superfluous |
| FifoRuns.TimeoutSpoilsClose | conn.go:735-739 | for all sizes with `retransmit` ≥ 2 and every stream: a run in which the receiver is done with the whole stream and `Close` ends with the error of a timeout |
| FifoRuns.WrapIgnoresAck | conn.go:781-785 | for every window size and every stream with 65535 + windowsize full blocks: a run in which the first ACK in its channel, of an earlier block, is ignored at a wrap |
| Wire.StepMatches | conn.go:517-536 | a step on encoded datagrams in reused buffers, with only 16 bits of the block number, is a step of the abstract system, and `validate` does not panic |
| Wire.Safety | conn.go:807-844 | safety and completion over channels of bytes: the accepted bytes are a prefix of the stream, all of it when the receiver is done and when `Close` returns nil |
| Wire.DataReadBack | conn.go:517-536 | an encoded DATA packet in a longer, used buffer is read back by `readData` as the same 16-bit number and payload |
| Wire.AckReadBack | conn.go:759-781 | the same for an ACK and `getAck` |
| Wire.ReadEventExact | conn.go:514-534 | what `readData` makes of arbitrary bytes: an error for every datagram that is refused or whose opcode is not 3, else DATA with the number and payload at their places |
| Wire.AckEventExact | conn.go:760-780 | the same for `getAck` and opcode 4 |
| Wire.ErrorReadBack | datagram.go:159-166 | an encoded ERROR with any code and message ends the transfer at either end |
| Endpoints.AcceptedIsPrefix | conn.go:573-583 | what a receiver with the first blocks holds is a prefix of the stream, and all of it when it is done; having taken the short block it is done |
| SenderLaws.MoveKeepsInv | conn.go:277-402 | every call, ACK, timeout and failure keeps the sender's invariant on window, blocks and `done` |
| SenderLaws.WindowBound | conn.go:384-401 | for every ACK and timeout sequence the sender is never more than a window ahead of the last accepted ACK, and the window counter is that distance |
| SenderLaws.BlocksOfStream | conn.go:345-375 | block k is the slice of the written bytes from k·blksize on, however they were split over calls; only the last block of a closed stream is short |
| SenderLaws.SentBlocks | conn.go:359-391 | no short block is sent before `Close`, and none is cut after the short one |
| SenderLaws.AcceptEffect | conn.go:780-795 | any accepted ACK, however old, moves the cursor back by the 16-bit difference, never below zero, to a position with the same 16-bit number |
| SenderLaws.ErrorsStick | conn.go:261-265 | a recorded error is never cleared; an idle connection with an error does nothing more |
| SenderLaws.ErrorFree | conn.go:724-779 | after any sequence of moves the connection is without error if and only if it started so and no wait for an ACK was given up, timed out or met a fatal packet |
| SenderLaws.SendsFull | conn.go:359-402 | as long as a full block of the stream is missing, the next one is sent, and the sender waits exactly when it fills the window |
| SenderLoop.RunToIdle | conn.go:267-270 | the state loop of `Write` and `Close` ends on every script of inputs followed by silence, in an idle state that keeps the invariant |
| SenderLoop.GivesUp | conn.go:724-739 | without an acceptable ACK `getAck` reads at most `retransmit` inputs, then sends one ERROR and fails with the cursor where it was |
| SenderLoop.PeerErrorStops | conn.go:759-777 | an ERROR, an invalid datagram or a foreign opcode ends the call at once with the error of the peer: the rest of the input is left unread, nothing is sent, and cursor, blocks, buffer and stream are as before |
| SenderLoop.OackLog | conn.go:277-334 | a call of `Write` starts with an OACK if and only if it is the first and options are acknowledged; it sends no other; and in that case no DATA is sent unless an ACK of block 0 was read, whatever else arrives |
| SenderLoop.ErrorLog | conn.go:726-731 | a call sends an ERROR if and only if it fails for too many tries |
| SenderLoop.WriteCommits | conn.go:277-355 | the bytes of a `Write` enter the stream exactly once, also through the OACK detour, or not at all when it fails |
| SenderLoop.LoopCommits | conn.go:797-800 | the same from any state of the loop, whatever is rolled back later |
| SenderLoop.TurnIsMove | conn.go:267-270 | every turn of the loop is a move of the abstract sender; DATA goes on the wire exactly for its sent blocks, an OACK only from its own state, an ERROR only on giving up; one input is read per wait and none otherwise |
| SenderSpec.ReplayIndex | conn.go:877-887 | the ring returns the last block of a slot, which is the block asked for exactly when it is at most `slots` behind the head |
| SenderSpec.ReplaySlot | conn.go:878-879 | that block is the one that shares the slot of the cursor |
| RingBuffer.Ring.constructor | conn.go:860-867 | an empty ring with room for `slots` blocks |
| RingBuffer.Ring.Read | conn.go:877-898 | at the head, cuts the next block off the buffer and remembers it; behind the head, replays as much of block `ReplayIndex` of the list of all blocks ever cut as the caller's buffer takes |
| RingBuffer.Ring.Store | conn.go:891-892 | overwrites the oldest slot and leaves the other remembered blocks as they were |
| RingBuffer.Ring.Len | conn.go:870-873 | the buffer plus one full slot for every block to be replayed: never less than the unread bytes, and equal to their number if and only if every block to be replayed is full |
| RingBuffer.Ring.UnreadSlots | conn.go:902-904 | moves the cursor back and keeps the ring valid however far it goes |
| RingBuffer.StoreHolds | conn.go:889-896 | storing a block keeps the last `slots` blocks readable |
| RingBuffer.LenBound | conn.go:869-873 | one full slot per block is at least the bytes of the blocks, with equality if and only if all are full |
| SenderConn.Conn.Write | conn.go:261-273 | refused after an error; else state, inputs used and packets sent are those of the abstract loop |
| SenderConn.Conn.Close | conn.go:603-645 | nothing after an error or before setup; else the abstract loop of a closing empty write |
| SenderConn.Conn.StartWrite | conn.go:277-322 | chooses between the OACK and the write as the abstract call does |
| SenderConn.Conn.DoSendOack | conn.go:324-334 | the OACK step of the abstract sender |
| SenderConn.Conn.DoWrite | conn.go:345-355 | the buffering step of the abstract sender |
| SenderConn.Conn.DoWriteData | conn.go:358-402 | the DATA step of the abstract sender, keeping the 16-bit block number equal to the ring position modulo 65536 |
| SenderConn.Conn.DoGetAck | conn.go:724-801 | the ACK step of the abstract sender, for every input |
| SenderConn.Conn.Rollback | conn.go:786-792 | rewinds the ring by the 16-bit difference and keeps counter and ring coupled |
| ReceiverLaws.MoveKeepsInv | conn.go:473-600 | every read, packet and timeout keeps the receiver's invariant: nothing lost between wire and caller, window equal to the blocks since the last ACK |
| ReceiverLaws.Reacts | conn.go:539-571 | the true next block is taken, a gap within the window is answered once, an old block is passed over |
| ReceiverLaws.AckIsCurrent | conn.go:590-597 | every ACK carries the block just reached or waited after |
| ReceiverLaws.AckDiscipline | conn.go:493-600 | ACK numbers never decrease, fewer than a window of blocks is above the last ACK, or above block 0 before the first one, and at most one ACK is provoked by a gap between two blocks taken in order |
| ReceiverLoop.RunToIdle | conn.go:414-418 | the state loop of `Read` ends on every script of inputs followed by silence |
| ReceiverLoop.GivesUp | conn.go:494-512 | at most `retransmit` timeouts in a row, each answered by the ACK of the current block, before the ERROR |
| ReceiverLoop.GivesUpInSilence | conn.go:494-512 | in numbers: in silence the ACK is repeated `retransmit` times, then an ERROR is sent |
| ReceiverLoop.PeerErrorStops | conn.go:515-531 | an ERROR, an invalid datagram or a foreign opcode ends the call at once with the error of the peer: no ACK, nothing more read, and nothing taken or returned |
| ReceiverLoop.DataRestoresPatience | conn.go:534-536 | after any DATA packet, also one that is passed over, all tries are available again: only timeouts in a row count |
| ReceiverLoop.ErrorLog | conn.go:494-499 | a call sends an ERROR if and only if it fails for too many tries |
| ReceiverLoop.LoopReturns | conn.go:473-490 | a `Read` returns the next accepted bytes, fills its buffer unless it reports an error, and reports the end exactly when the transfer is done and everything was returned |
| ReceiverLoop.TurnIsMove | conn.go:415-417 | every turn of the loop is a move of the abstract receiver and sends its ACKs, or the ERROR of giving up; one input is read per wait and none otherwise |
| ReceiverConn.Conn.ReadInto | conn.go:407-419 | `Read` as the abstract loop; the bytes returned so far grow by exactly what is put in the caller's buffer |
| ReceiverConn.Conn.DoRead | conn.go:473-490 | the hand-over step of the abstract receiver |
| ReceiverConn.Conn.DoReadData | conn.go:493-536 | the network step of the abstract receiver, for every input |
| ReceiverConn.Conn.DoAckData | conn.go:539-600 | the sequence step of the abstract receiver, on 16-bit numbers only |
| Codec.ValidIffWellFormed | datagram.go:307-357 | `validate` accepts exactly the well-formed datagrams, whatever is left in the buffer beyond them |
| Codec.ValidateCrashes | datagram.go:237-240 | `validate` panics exactly on requests without any NUL in the buffer |
| Codec.RequestParses | datagram.go:237-276 | on a valid request the fields are an even list of NUL-free strings that renders to exactly the datagram, `filename` and `mode` are its first two and `options` never indexes out of range |
| Codec.OackParses | datagram.go:264-276 | the same for a valid OACK |
| Codec.RenderSplit | datagram.go:267-267 | splitting on NUL gives NUL-free fields that join back to the string |
| Codec.RequestRoundTrip | datagram.go:191-276 | an encoded request validates and its accessors return file name, mode and options, in any order and any buffer |
| Codec.OackRoundTrip | datagram.go:176-188 | an OACK is valid if and only if it is not empty, and then gives back its options |
| Codec.PlainRoundTrip | datagram.go:216-234 | block, payload, code and message of DATA, ACK and ERROR are read back; ERROR is valid exactly for a message without NUL |
| Codec.ValidByOpcode | datagram.go:307-357 | told by literal first bytes: nothing above 6 is valid, and what a datagram of each of 0, 3, 4, 5 and 6 needs to be valid |
| Codec.RequestValidExact | datagram.go:316-331 | a request with opcode bytes 0 1 or 0 2 is valid if and only if it has a file name and its mode is "netascii" or "octet" |
| Codec.ModeNames | datagram.go:62-64 | the two modes, letter by letter |
| Codec.BigEndian | datagram.go:293-296 | two bytes encode a number if and only if the first is its high byte and the second its low byte |
| Codec.OptionsCrash | datagram.go:264-276 | `options` panics if and only if there are fewer than three bytes or an unpaired key |
| Codec.PairsExact | datagram.go:264-276 | of a repeated option the last value counts, and no other option is listed |
| Codec.ErrorRoundTrip | datagram.go:159-166 | code and message of an ERROR given by its bytes |
| Codec.OackHeader | datagram.go:176-188 | an OACK starts with 0 6, followed by its options |
| DatagramBuffer.Datagram.Reset | datagram.go:136-141 | empties the datagram, reusing the buffer when it is large enough |
| DatagramBuffer.Datagram.WriteBytes | datagram.go:279-282 | appends in place and keeps what was written before |
| DatagramBuffer.Datagram.WriteUint16 | datagram.go:293-296 | appends a number in big-endian order |
| DatagramBuffer.Datagram.WriteOption | datagram.go:298-303 | appends a pair of NUL-terminated strings |
| DatagramBuffer.Datagram.WriteAck | datagram.go:144-149 | the buffer holds 0 4 and the block, high byte first, which validates and gives back the block |
| DatagramBuffer.Datagram.WriteData | datagram.go:151-157 | the buffer holds 0 3, the block and the data, in exactly the length computed, which validates to the same block and payload |
| DatagramBuffer.Datagram.WriteError | datagram.go:159-166 | the buffer holds 0 5, code, message and NUL; code and message are read back; valid exactly for a message without NUL |
| DatagramBuffer.Datagram.MeasureOptions | datagram.go:196-199 | the first walk over the map computes a length that does not depend on the order |
| DatagramBuffer.Datagram.WriteOptions | datagram.go:208-210 | the second walk, in an order of its own, lists every entry once and fills exactly that length |
| DatagramBuffer.Datagram.WriteReq | datagram.go:191-211 | opcode, file name and mode come first; the request fills the precomputed length, validates, and gives back file name, mode and options |
| DatagramBuffer.Datagram.WriteReadReq | datagram.go:168-170 | the same with opcode bytes 0 1 |
| DatagramBuffer.Datagram.WriteWriteReq | datagram.go:172-174 | the same with opcode bytes 0 2 |
| DatagramBuffer.Datagram.WriteOptionAck | datagram.go:176-188 | the buffer holds 0 6 and every option once, in the precomputed length, and the options are read back |
| DatagramBuffer.Datagram.Options | datagram.go:264-276 | the pairwise loop computes the map of keys and values, and panics exactly on an unpaired key |
| Negotiation.Conn.ParseOptions | conn.go:649-693 | succeeds exactly when every known option can be read; parameters and acknowledgement do not depend on the map order |
| Negotiation.Conn.constructor | conn.go:25-27 | a connection starts with block size 512, window size 1 and a timeout of one second |
| Negotiation.OptionNames | datagram.go:67-70 | the four option names, letter by letter |
| Negotiation.ReadableExact | conn.go:655-686 | which values can be read: 0 to 65535 for block and window size, 0 to 255 for the timeout, and 64 signed bits, with an optional sign, for the size; never an empty value |
| Negotiation.NegotiatedExact | conn.go:655-686 | every parameter takes the value of its own option and keeps its own without it; a sender that knows the size keeps it |
| Negotiation.AcknowledgedExact | conn.go:660-686 | for every key: it is acknowledged if and only if it was requested and is blksize, windowsize or timeout, or is tsize at a sender that knows the size; with the requested value, or the known size |
| Negotiation.SizeUnknown | conn.go:674-679 | a request for the size alone, to an end that does not know it, is not acknowledged |
| Negotiation.DecimalDigits | conn.go:656-676 | numbers are decimal, and leading zeros do not matter |
| Negotiation.DecimalRoundTrip | conn.go:669-676 | every 64-bit size survives formatting and parsing |
| Negotiation.AckReadable | conn.go:661-686 | what is acknowledged was requested, can be read by the other end, and can be encoded |
| Negotiation.OackAgreement | conn.go:288-334 | request, server parsing, OACK and client parsing over the wire leave both ends with equal block size, window size and timeout, and the client with the size set by the handler |
| Negotiation.AckZeroAgreement | conn.go:447-451 | when nothing is acknowledged, ACK 0 leaves both ends with the defaults |
| Netascii.Writer.Write | netascii/netascii.go:83-120 | appends the encoding of its argument after the last byte written, and returns the length of the argument |
| Netascii.EncodeSplit | netascii/netascii.go:83-120 | the encoding does not depend on how the input is split over calls |
| Netascii.EncodeIdempotent | netascii/netascii.go:87-112 | encoding twice is encoding once; every LF follows CR and every CR that is not last precedes LF or NUL |
| Netascii.Reader.Read | netascii/netascii.go:37-68 | fills the buffer with the next decoded bytes and stops short only at the end of the source |
| Netascii.Reader.ReadAll | netascii/netascii.go:37-68 | the bytes read do not depend on the sizes of the buffers |
| Netascii.RoundTrip | netascii/netascii.go:48-62 | decoding encoded text is decoding the text; it gives the text back if and only if it has no CR LF or CR NUL pair and does not end in CR |
| Netascii.WindowsRoundTrip | netascii/netascii.go:48-62 | on Windows it gives the text back if and only if every LF follows a CR and no CR is last or before NUL |
| Netascii.DecodePlain | netascii/netascii.go:48-62 | on either platform, the decoder leaves a source alone if and only if it is plain, and shortens every other |
| ConnManager.Manager.Handle | server.go:138-177 | one turn of the select loop, for every event |
| ConnManager.RequestIsOpcode | server.go:141-153 | for every datagram that `validate` accepts, the loop takes for a request exactly RRQ and WRQ; the first byte is never looked at |
| ConnManager.RequestOpens | server.go:140-153 | in single-port mode a datagram with opcode bytes 0 1 or 0 2 always opens a new, empty channel for its address and disturbs no other |
| ConnManager.OthersRouted | server.go:154-172 | any other opcode opens nothing: the packet goes to the channel of its address, or gets an error |
| ConnManager.Manager.Serve | server.go:134-179 | the loop over a history of events |
| ConnManager.Routing | server.go:134-179 | each channel holds exactly, in order, the packets of its address between its request and the next request or done message of that address; every other packet gets one error |
| ConnManager.MapMeansConnected | server.go:156-160 | an address is in the map exactly when its last request has not been followed by a done message |
| ConnManager.NoRouting | server.go:154-171 | without single-port mode no channel exists and every packet that is not a request gets an error |

## Left out

- Sockets, deadlines, timers, goroutines and write errors: a network read is an input event, a network write an entry in a log or a channel.
- Block sizes of 0 or above 65531 and window size 0, which `parseOptions` accepts from a peer: `blksize + 4` wraps in 16 bits and the ring divides by the window size. Every other size is covered, also below the client's minimum of 8.
- RingBuffer.Ring.Read: models buffers of at most one block, since a longer one would run into the next slot; `writeData` passes exactly one block.
- RingBuffer.Ring.UnreadSlots: models distances that do not lead before the first block; the rollback never asks for more.
- The reply to a read request by DATA instead of OACK (conn.go:235-247), where options are parsed from a DATA packet.
- Sending the request and waiting for its reply (conn.go:138-227): the machines start after setup, with any number of setup ACKs still in flight.
- The error of a first `Write` whose peer sent options that cannot be read (conn.go:292-295): the sending machine starts with options that could be.
- Netascii layered on a live transfer: transfers are in octet mode, the decoder reads a complete source.
- SenderConn.Conn.Close: the error of closing the socket is not modelled.
- Fifo.Completion: does not claim that a lossy transfer gets anywhere; progress is proved on reliable channels, where no ACK is ever read late.
- Packets of other senders in `getAck` (conn.go:748-758) are an ignored input that costs one try; the courtesy error is not sent.
- The capacity of the channels in `connManager`, the handlers it starts, and closing the server.
- URL parsing, configuration setters, file handlers, logging, examples and string formatting, which take no part in the protocol.

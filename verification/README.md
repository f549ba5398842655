# cpp2tnt: a verified model of the connector

cpp2tnt is a non-blocking Tarantool connector: a MessagePack writer and reader, the iproto message layer on
top of them, and a connection that sends, receives, shakes hands, times out and reconnects. This project
models those four pieces together with the connection string parser, and proves what they promise one
another.

`dafny verify dfyconfig.toml` checks everything.

## How it is built

| files | what they hold |
|---|---|
| `Options`, `Bytes`, `MsgPack`, `Frames` | big-endian numbers; MessagePack as the section "Formats" of the MessagePack specification defines it, as a tree parser `Parse` and as the flat walk of msgpuck's `mp_next`; iproto frames |
| `Writer` | `mp_writer` and `iproto_writer` on values: bytes, the stack of open containers, and every call as a step. Beside it an independent reference: the same calls building a forest of value trees with no bytes at all |
| `Spellings`, `WriterTheorems`, `WriterResults`, `Ledgers`, `Plans`, `Fills`, `Undo`, `Requests` | the bytes represent the forest after every call, with headers that are true exactly while no counter has wrapped; round trips; when calls throw, told by a ledger of counts; what fill appends and when it ends; undo; call and eval on the wire |
| `WtfBuffer`, `MpWriter`, `IprotoWriter` | the classes, over an array, patched in place; every method is proved against `Writer` |
| `Iproto`, `Reader` | `proto_id` and the handshake bodies; `mp_reader`, `mp_span`, `mp_map::find` |
| `Sending`, `Receiving`, `Capacities` | the two halves of the connection, with their stream theorems; the memory of the sending buffers |
| `Connections`, `ConnectionHalves`, `ConnectionClass` | the connection as a function from state and event to state; the class, whose public methods each take one such step and keep the invariant of all runs |
| `Lifecycle`, `Sessions`, `Survival`, `Timing`, `Ownership`, `EndToEnd` | the invariant of every step; theorems over whole runs: the streams and the handshake, what a session survives, the timer and the resolver, the caller's buffer and the greeting; writer, connection and reader together |
| `Dialing`, `Handshakes` | single events and runs from creation in terms of bytes, codes and counters: how an attempt starts and ends, what goes out during the handshake, where each reply leads |
| `CsParser` | `parse_cs` |

Results over runs are about any list of events: caller appends, flushes, socket readiness with any answers of
`send` and `recv` (short sends, EAGAIN, EINTR, errors, end of stream), `input_processed` at any time, open,
close, resolver notifications, timer ticks, new parameters, request numbers taken.

## What the code needs, and what was found

Hypotheses that appear in the theorems or in the model:

- The peer's frames start with 0xce. The scanner accepts any unsigned head (connection.cpp:79-80), while
  `iproto_message` insists on 0xce (mp_reader.h:434). The stream theorems are about peers that send 0xce
  heads (`Frames.MessageBytes`); the scanner itself is modelled for every head.
- User callbacks do not call back into the connector, except `input_processed()` inside `on_response`. An
  exception from `on_response` counts as `input_processed()` (connection.cpp:246-250).
- Callers only append to the output buffer, and reserve the space first, as connection.h:142-144 asks.
- The MessagePack writers get the free space that mp_writer.h:54-57 asks callers for. `write` and
  `start_message`, which look for space themselves, are modelled with and without it.
- The corked tail must fit the old send buffer, because the copy at connection.cpp:821 comes before the resize
  at :822. `Sender.corrupt` records a copy that does not fit, and a request of the handshake that is longer than
  the space `start_message` leaves it (iproto_writer.cpp:43-45). `Sending.OverrunExactly` says for one write when
  it can happen; the stream theorems assume for every sending step of the run that it cannot
  (`Sessions.TailsFit`, a condition on the state before the step); a caller who flushes after every append
  always satisfies it (`Sessions.FlushingCallerNeverOverruns`). Requests of the handshake fit a kilobyte up to
  982 bytes of authentication name, and 987 of user, scheme and scramble (`Sessions.RequestSizes`).
- At most 16 containers are open (mp_writer.h:277-288). The model refuses the seventeenth (`TooDeep`); the
  code stores past its array. Round trips need no such bound stated: they assume only that nothing was refused.
- For byte conservation inside a session the connection has to stay in that session, which it does unless the
  caller closes, a send or recv fails, or the stream ends (`Survival.UndisturbedStays`): closing and the handshake
  clear the send buffer (connection.cpp:114, :485-488, :744), so bytes flushed while disconnected are dropped.
- A 64-bit length head is decoded by the code from nine bytes although only five need have arrived; the
  model reads the missing ones as 0.
- recv returns no more than it is offered (`ConnectionHalves.Offered`).

Facts about the code that a reader might not expect, with the lemma that states them where there is one:

- The 32-bit item counter wraps: a container of 2^32 items or more may be finalized without an exception, and
  its header then declares too few (`WriterTheorems.FinalizeEncodesExactly`, `WriterTheorems.CountWraps`).
- `write` into a buffer that has to grow copies to where the buffer was (`MpWriters.MpWriter.Write`, outcome
  `Stale`).
- The report "uncorked data is stuck" of the timer is reachable (`Sessions.SlowPeerIsReported`), but only while
  the watcher waits to send: it means a slow peer, not a lost wake-up. The report in `write()` is unreachable
  (`Sessions.NeverJams`, `ConnectionClass.Connection.Write`).
- A resolver failure that arrives after `close()` schedules a reconnect that nobody asked for
  (`Timing.StaleFailureReschedules`, reached in `Timing.StaleFailureReached`). Stale addresses, in contrast,
  are ignored.
- `flush()` without a socket, when there is output and the send buffer is empty, sends on no socket. That
  fails, ends whatever the connection was doing, name resolution included, and counts a reconnect from now:
  a connection that was never opened dials by itself (`Timing.FlushWithoutSocket`, `Timing.FlushDialsUnasked`).
- `flush()` is documented to return true if any data was moved (connection.h:169). It also returns true when
  the output buffer is empty, and of the calls that do nothing it does so exactly then
  (`ConnectionClass.Connection.Flush`).
- `operator>>` into an `mp_span` never resets its cardinality: a span filled again gives stale bounds past the
  new items (`Reader.NilPastTheEnd`, `Reader.RefilledSpanIsStale`). Its bounds have 32 bits
  (`Reader.SpanAgreesWithWalk`, `Reader.LongItemIsCut`).
- `fill` with an undeclared empty view, or with undeclared items whose number lets the 32-bit count jump past
  the target for ever, does not end (`Fills.FillEnds`, `Fills.FillForever`).
- If the caller is still busy when the connection closes, responses waiting behind it become part of the next
  greeting and are lost (`Ownership.GreetingIsPureExactly`, reached in `Ownership.BusyGreetingReached`); with
  an idle caller this cannot happen (`Ownership.IdleAtCloseGetsPureGreeting`).
- `set_state` after an open container was finalized restores the stack but not the patched header; when the
  count then reaches the guess, `finalize` returns early and the bytes are wrong
  (`Undo.UndoExactly`, `Undo.UndoOfFinalize`, `Undo.UndoAfterFinalizeCorrupts`).
- Reading a negative integer into `uint64_t` silently wraps (`Reader.IntegerReadsBack`).
- A 64-bit length head of 2^64 - 5 wraps to size 0, which the scanner takes for "unknown": it stalls for good
  without an error (`Receiving.WrappedSizeStalls`), and only such a head stalls it (`Receiving.StallsExactly`);
  a round advances by at least 5 bytes exactly when the head does not wrap (`Receiving.RoundAdvances`).
- `unix/:` with an empty path after `:password@` yields a result that is neither empty nor an address
  (`CsParser.ResultShape`, `CsParser.StrayExample`).
- `env/:` strings that refer to each other in a circle make `parse_cs` recurse without end
  (`CsParser.EnvironmentEnds`, `CsParser.SelfReference`).
- When the peer closes in the same `read()` that delivered its last responses, those are not scanned and are
  cut off by `close()` (`Ownership.ClosingReadDropsArrivals`).
- If `connect()` fails at once for one address, the remaining addresses are not tried (connection.cpp:335-337).
- Neither a failed `socket()` for a unix path nor a connect that succeeds at once starts the counter
  (connection.cpp:320-325, :422-426, :434-439), so the retry theorems are about connects that went in progress.

## Model

| member | source | states |
|---|---|---|
| Bytes.BigEndianRoundTrip | mp_writer.cpp:87-94 | a stored number is read back, for every width it fits |
| Bytes.BigEndianInverse | mp_writer.cpp:87-94 | every byte string is the storage of the number it is read as |
| Bytes.MostSignificantFirst | mp_writer.cpp:87-94 | the first byte stored weighs most |
| MsgPack.WalkAgreesWithParse | mp_reader.h:405-414 | the flat counter loop passes exactly the items the tree parser reads, and fails exactly when it does |
| MsgPack.WalkSplit | mp_reader.h:405-414 | skipping a then b items is skipping a + b |
| MsgPack.ParseExtend | mp_reader.h:405-414 | items are self-delimiting: bytes after them change nothing |
| MsgPack.ParseSplit | mp_reader.h:405-414 | a list of items may be read in two parts |
| MsgPack.EncodesAppend | mp_writer.cpp:112-132 | concatenating encodings encodes the concatenation |
| MsgPack.EncodesUnique | mp_reader.h:405-414 | the same bytes never encode two different lists of values |
| MsgPack.HeaderEncodes | mp_writer.cpp:9-22 | a header of any sufficient width with the right count, then the items, encodes the container |
| MsgPack.IntEncodes | mp_writer.h:176-181 | every integer from -2^63 to 2^64 - 1 is written so that it parses back |
| MsgPack.StrEncodes | mp_writer.cpp:170-181 | every string shorter than 2^32 parses back |
| MsgPack.LengthsAreRead | mp_reader.h:405-414 | str, bin and ext with a length field of 1, 2 or 4 bytes are one item each, however short the payload; 0xd9, 0xc4 and 0xc7 are the first of their kinds |
| MsgPack.FixedSizes | mp_reader.h:405-414 | floats, doubles and the five fixed ext sizes are one item each |
| Spellings.EncodesHonestly | mp_reader.h:405-414 | bytes encode values exactly when they spell them and no header declares fewer items than follow |
| Spellings.SpelledAppend | mp_writer.cpp:112-132 | spellings are put together, and are encodings together |
| Spellings.HeaderSpells | mp_writer.cpp:24-98 | a header with the count modulo 2^32 spells the container, and encodes it exactly when the items are encoded and the count is not cut |
| Frames.MessageParts | mp_reader.h:429-444 | iproto_message takes exactly the payload and leaves exactly what follows |
| Frames.TakeMessageExtend | mp_reader.h:429-444 | a complete message is the same message whatever arrives after it |
| Frames.UnpackWire | mp_reader.h:429-444 | repeated iproto_message over a concatenation of frames gives back the payloads, in order |
| Frames.UnpackedIsWire | mp_reader.h:429-444 | only concatenations of frames unpack completely |
| WtfBuffers.WtfBuffer.Reserve | wtf_buffer.cpp:61-88 | content is kept; capacity grows exactly when asked for more; throws exactly when a raw buffer would have to grow |
| WtfBuffers.WtfBuffer.Resize | wtf_buffer.cpp:90-95 | the kept prefix stays, both shrinking and growing |
| WtfBuffers.WtfBuffer.Clear | wtf_buffer.cpp:97-100 | empty |
| WtfBuffers.WtfBuffer.Append | wtf_buffer.h:37 | bytes stored at the write position follow the content, nothing else changes |
| WtfBuffers.WtfBuffer.Overwrite | mp_writer.cpp:87-94 | bytes patched over existing content change only their own positions |
| MpWriters.MpWriter.BeginArray | mp_writer.cpp:9-15 | counts in the parent, pushes the guess, writes the header of the guess |
| MpWriters.MpWriter.BeginMap | mp_writer.cpp:17-22 | the same for a map |
| MpWriters.MpWriter.Finalize | mp_writer.cpp:24-98 | pops, and patches the header in place, with the early returns and errors of the code, as the specification FinalizeContainer says |
| MpWriters.MpWriter.FinalizeAll | mp_writer.cpp:100-104 | finalizes everything open, stopping at the first error |
| MpWriters.MpWriter.Increment | mp_writer.cpp:106-110 | only the innermost container counts |
| MpWriters.MpWriter.Write | mp_writer.cpp:112-132 | with enough space, appends the bytes and counts them, by declared number or by skipping; without, a buffer that cannot grow throws with nothing changed, and one that can moves away under the destination taken before (Stale) |
| MpWriters.MpWriter.Store | mp_writer.cpp:112-132 | write with the space at hand: the bytes are appended and the innermost container counts them |
| MpWriters.CountItems | mp_writer.cpp:121-129 | the skipping loop counts exactly the items a parser finds |
| MpWriters.MpWriter.Fill | mp_writer.cpp:134-147 | for any number of rounds the loop computes the specification Fill while there is space, and ends with the exception or the stale destination of write when a copy finds none; throws with nothing open |
| MpWriters.MpWriter.PutNil | mp_writer.cpp:149-154 | appends nil as one item |
| MpWriters.MpWriter.PutInt | mp_writer.h:176-186 | appends the integer as one item |
| MpWriters.MpWriter.PutStr | mp_writer.cpp:170-181 | appends the string as one item, a null view as nil, or throws on 2^32 bytes and more with nothing changed |
| MpWriters.MpWriter.GetState | mp_writer.cpp:165-168 | the length and the stack |
| MpWriters.MpWriter.SetState | mp_writer.cpp:156-163 | restores both, or throws exactly when the buffer was truncated |
| Fills.FillReachesTarget | mp_writer.cpp:134-147 | what is appended is copies of the item, each adding its items to the innermost count modulo 2^32; every copy is made at a count below the target that the declared number does not take past it, and the loop is done at the first count where this fails; it throws only on undeclared bytes that are no items |
| Fills.FillEnds | mp_writer.cpp:134-147 | the loop ends exactly when the items are declared, or are none, or the count has reached the target, or the highest count it can come to has: 2^32 - g + count mod g, where g is the largest power of two dividing the number of items |
| Fills.EmptyNeverEnds | mp_writer.cpp:134-147 | for an undeclared empty view that is exactly when the count has reached the target |
| Fills.ShortItemsEnd | mp_writer.cpp:134-147 | undeclared items always end it when they are no longer than what is left above the target |
| Fills.FillForever | mp_writer.cpp:134-147 | an open array, an empty undeclared view and five items wanted: every number of rounds leaves the loop where it was |
| WriterTheorems.CountingIsParsing | mp_writer.cpp:121-129 | bytes are an encoding of some items exactly when the skipping count sees just those items |
| WriterTheorems.FinalizeThrows | mp_writer.cpp:24-98 | finalize throws exactly when the 32-bit count, wrapped as the code wraps it, needs a wider header than the guess or is odd for a map; it pops in either case and changes no byte when it throws |
| WriterTheorems.FinalizePatchesHeader | mp_writer.cpp:24-98 | otherwise exactly the header is rewritten: the count becomes the wrapped number of items (pairs for a map), its width and all other bytes stay |
| WriterTheorems.FinalizeEncodesExactly | mp_writer.cpp:24-98 | after a finalize that does not throw, the bytes from the header on encode the container exactly when those of the items encode them and there are fewer than 2^32 |
| WriterTheorems.CountWraps | mp_writer.h:317 | the counter does wrap: an array of 2^32 items opened for 0 is finalized without an exception and declares 0 |
| WriterTheorems.FinalizeSealsMessage | iproto_writer.cpp:52-74 | finalize on a message stores the exact number of bytes after the five-byte head and leaves an encoding of the items behind its lead, or throws exactly when 32 bits do not hold the size |
| WriterTheorems.StartClosesFirst | iproto_writer.cpp:38-53 | start_message finalizes whatever is open first, and an exception of that comes before the one for missing room; then the new message is the only open entry, behind a head 0xce |
| WriterTheorems.StepSimulates | mp_writer.cpp:9-132 | every call keeps the bytes and the open stack a picture of the value forest the calls describe, and keeps all its headers true exactly when what it closes has fewer than 2^32 items |
| WriterTheorems.RunSimulates | mp_writer.cpp:9-132 | so does any run that throws nothing, with any guesses: the headers are true exactly when no container was closed after its counter had wrapped |
| WriterResults.ClosedRunParsesBack | mp_writer.cpp:9-110 | with nothing left open, the bytes added are an encoding of exactly those values, exactly when no container was closed after its counter had wrapped |
| WriterResults.MessagesAreFrames | iproto_writer.cpp:38-80 | any sequence of messages, each closed by finalize, finalize_all or the next start_message, is a concatenation of frames carrying what was put between |
| Ledgers.RunThrows | mp_writer.cpp:24-110 | any run of calls, messages and containers in any nesting, throws nothing exactly when a ledger of counts and lengths, which has no bytes, allows every call |
| Ledgers.RunThrowsFromStart | iproto_writer.cpp:38-80 | in particular every run of a new writer |
| Ledgers.SameFinalizeAll | mp_writer.cpp:100-104 | with containers only, mp_writer and iproto_writer finalize alike |
| Plans.TreeRoundTrip | mp_writer.h:253-274 | for every value tree and all guesses: throws nothing exactly when the tree fits the guesses and the nesting, and then parses back to exactly that tree exactly when none of its containers has 2^32 items or more |
| Plans.ExactSizesFit | mp_writer.h:214-274 | vectors, maps and tuples pass their size, truncated to 32 bits as the code truncates it, so only nesting can fail |
| Undo.UndoRestores | mp_writer.cpp:156-168 | of any writer at all, also one whose open headers were overwritten: the snapshot comes back if nothing open at it was finalized |
| Undo.UndoExactly | mp_writer.cpp:156-168 | set_state(get_state()) after any further calls, thrown or not, gives back the writer of the snapshot exactly when every entry open at the snapshot was finalized, if at all, with its count equal to its guess, by a finalize that throws, or with its message length stored already |
| Undo.RunLaid | mp_writer.cpp:9-132 | its assumption, that open entries hold what they were opened with, holds in every writer any run leaves behind |
| Undo.FinalizeRewrites | mp_writer.cpp:24-98 | that guard is exact for one finalize: some byte changes exactly when the count differs from the guess, or the stored length from the message's, and nothing is thrown |
| Undo.UndoOfFinalize | mp_writer.cpp:41-42 | for a container that fits its header: undone exactly when its count equals the guess |
| Undo.UndoAfterFinalizeCorrupts | mp_writer.cpp:41-42 | a concrete run whose bytes declare the wrong count |
| IprotoWriters.IprotoWriter.StartMessage | iproto_writer.cpp:38-50 | finalizes what is open, keeps a kilobyte free or throws when a buffer that cannot grow has less, places a message head |
| IprotoWriters.IprotoWriter.Finalize | iproto_writer.cpp:52-74 | a message or a container, by the byte at its head |
| IprotoWriters.IprotoWriter.FinalizeAll | iproto_writer.cpp:76-80 | finalizes everything open |
| IprotoWriters.IprotoWriter.EncodeRequestHeader | iproto_writer.cpp:82-88 | a new message with code and the next request number, or the exception of start_message |
| IprotoWriters.IprotoWriter.EncodeIdRequest | iproto_writer.cpp:126-150 | exactly one frame with header and proto_id body is appended, or the exception of start_message |
| IprotoWriters.IprotoWriter.EncodePing | iproto_writer.cpp:152-157 | exactly one frame is appended, or the exception of start_message |
| IprotoWriters.IprotoWriter.BeginCall | iproto_writer.cpp:159-168 | a message left open, its body map one value short |
| IprotoWriters.IprotoWriter.BeginEval | iproto_writer.cpp:170-179 | the same for eval |
| Requests.InvocationOnTheWire | iproto_writer.h:50-67 | call and eval with any argument trees throw nothing exactly when the arguments fit their guesses, the nesting and 32 bits; then one frame is appended, whose payload is the header and the body map with the name and exactly the arguments |
| Requests.CallAndEvalSay | iproto_writer.cpp:159-179 | the codes and keys of the two: a call says 10 and the name under 0x22, an eval 8 and the script under 0x27, the arguments are under 0x21 |
| Iproto.MakeProtoId | iproto.cpp:7-15 | the constructor's loop keeps exactly the features inside the bitset |
| Iproto.ListFeatures | iproto.cpp:22-31 | the loop computes the list Below |
| Iproto.BelowLists | iproto.cpp:22-31 | that list is exactly the known features set, in ascending order |
| Iproto.IdBodyEncodes | iproto_writer.cpp:126-150 | the body declares exactly the pairs it writes |
| Iproto.RequestHeadEncodes | iproto_writer.cpp:82-88 | the header is a map of code and request number |
| Iproto.AuthBodyEncodes | iproto_writer.cpp:100-124 | the body is the user and an array of scheme and scramble |
| Iproto.ProtoIdRoundTrip | connection.cpp:150-173 | what encode_id_request writes, the client's loop reads back: version, scheme and the features below feature::invalid |
| Iproto.ProtoIdFromBytes | connection.cpp:150-173 | the same from the bytes: parsing the body of encode_id_request gives back the proto_id |
| Iproto.ProtoIsRead | connection.cpp:150-173 | what the loop over the features body comes to: the last version, modulo 2^64, the last scheme, and of all features named those below 32; an exception exactly when a key is no 32-bit number, a version no integer, a scheme no string or a feature list no array of bytes |
| Iproto.BodyIsRead | connection.cpp:150-173 | the body is read exactly when it starts with a map of such pairs |
| Iproto.IdMessageSays | iproto_writer.cpp:126-150 | header and body of encode_id_request encode {0: 0x49, 1: sync} and the version if any, the known features in ascending order, the scheme if any |
| Iproto.PingMessageSays | iproto_writer.cpp:152-157 | encode_ping_request encodes {0: 0x40, 1: sync} and an empty map |
| Reader.MpReader.Skip | mp_reader.h:391-414 | passes exactly one item or throws with the position unchanged, and keeps the cursor `ind` items past the beginning |
| Reader.MpReader.ItemAt | mp_reader.h:548-567 | the same item whatever has been read before |
| Reader.IndexIsItem | mp_reader.h:548-567 | that item encodes the i-th value; throws exactly when there is none, or when the reader is limited to fewer |
| Reader.MpReader.ReadSpan | mp_reader.h:670-682 | the loop computes ReadInto: the bounds array of the destination is overwritten from its start, its count of items goes on from the old one |
| Reader.MpSpan.At | mp_reader.h:291-299 | indexing gives the static nil past the count, a pair of positions, or a look past the array |
| Reader.ReadIntoFills | mp_reader.h:670-682 | each item read puts where one more skip ends, cut to 32 bits; the other bounds stay; it stops at the array's or the data's end, or at the item that cannot be skipped |
| Reader.SpanAgreesWithWalk | mp_reader.h:270-299 | for every item read, element i is the slice linear skipping reaches exactly when it ends less than 2^32 bytes after the span begins |
| Reader.NilPastTheEnd | mp_reader.h:291-299 | every index past the items read gives nil exactly when the span held nothing before |
| Reader.RefilledSpanIsStale | mp_reader.h:670-682 | a span filled twice: a stale bound, and a look past the array |
| Reader.LongItemIsCut | mp_reader.h:677 | an item of 2^32 + 4 bytes: its bound is cut to 4 |
| Reader.ParseConsumes | mp_reader.h:405-414 | reading depends on no byte beyond the items |
| Reader.Find | mp_reader.h:1050-1068 | the loop computes FindIn |
| Reader.EqualsWritten | mp_reader.h:974-1039 | a key equals exactly the value the writer writes for it: a number, a string, a bool, or nil |
| Reader.FindIsFirst | mp_reader.h:1050-1068 | find returns the value of the first equal key, and nothing exactly when no key is equal |
| Reader.FindStops | mp_reader.h:1050-1068 | in any bytes at all: find gives nothing when all pairs can be read and no key is equal, the value of the first equal key when everything up to it can be read, and throws at the first pair that cannot be read before that |
| Reader.IntegerReadsBack | mp_reader.h:845-862 | the bytes of an integer written are read back exactly when the type holds it; the read throws otherwise, except that a negative one read as uint64_t wraps, which follows from the comparison being made unsigned there |
| Reader.ReadIntegerByValue | mp_reader.h:845-862 | for an integer that parses, the two branches of the read amount to its value lying in the range of the type |
| Sending.SendLoopKeeps | connection.cpp:789-826 | whatever the socket answers, nothing is lost, duplicated or reordered and nothing past the flush mark moves |
| Sending.SendLoopNeverJams | connection.cpp:789-830 | the loop ends drained only with nothing flushed left, and blocked only with bytes to send |
| Sending.SendLoopContinues | connection.cpp:789-826 | on further answers of send the loop does what it does from where it stood; it goes on after EINTR and after every short send |
| Sending.OneAnswer | connection.cpp:792-817 | each single answer: EAGAIN ends the loop with everything as it was and an error fails it; EINTR is nothing; otherwise exactly the front of the unsent bytes is on the wire, and the loop is drained exactly when nothing is unsent |
| Sending.SendLoopStops | connection.cpp:794-803 | the first EAGAIN or error is the last answer asked for: blocked or failed, unless everything was sent before |
| Sending.FailureIsReported | connection.cpp:794-803 | the loop fails only if the socket reports an error |
| Sending.OverrunExactly | connection.cpp:818-824 | no answers of the socket make the copy overrun exactly when nothing is flushed behind the send buffer or the tail fits |
| Receiving.HeadSizeOfFrame | connection.cpp:76-86 | five bytes of a frame give its true size |
| Receiving.HeadSizeOfNumber | connection.cpp:76-98 | a head that is a number, written the shortest way, announces its value and the head's five bytes, modulo 2^64 |
| Receiving.HeadSizeOfOther | connection.cpp:76-98 | exactly the other heads are bad ones |
| Receiving.ScanTracks | connection.cpp:69-96 | the scan keeps whole frames before the offset and a true remembered size, and leaves less than one frame |
| Receiving.ScanSearches | connection.cpp:69-96 | after a scan what is left is shorter than a head or than the response its head announces, or its size has wrapped to zero |
| Receiving.SearchedHoldsNone | connection.cpp:69-96 | so no complete iproto message is left |
| Receiving.PassTracks | connection.cpp:223-259 | handing over whole responses and moving the rest to the front keeps all of it |
| Receiving.RunTracks | connection.cpp:69-96 | over any chunks and any caller timing |
| Receiving.ChunkingDoesNotMatter | connection.cpp:69-259 | the payloads taken by the caller are the first messages sent, in order, none lost, split or repeated, and while it is idle exactly those complete in the bytes received, however cut; also when the caller is still busy with an earlier session |
| Receiving.EveryMessageArrives | connection.cpp:69-259 | when all has arrived and the caller is idle, it has taken exactly the messages sent |
| Receiving.BusyCallerOwnsInput | connection.h:63-69 | no arrival touches a busy caller's buffer |
| Receiving.HandedOver | connection.cpp:223-259 | each hand-over goes to an idle caller, is the next buffer of whole responses, and leaves it busy exactly if it keeps the buffer; without on_response nothing is handed over |
| Receiving.RunHolds | connection.h:63-69 | over any inputs, the buffer of a busy caller is the one handed over last |
| Receiving.PromptCallerGetsAll | connection.cpp:223-259 | a caller that is done with each buffer before on_response returns, and any caller that has just said input_processed() and is done with what that gave it, has taken exactly the messages sent |
| Receiving.RoundAdvances | connection.cpp:76-93 | a round advances by at least five bytes exactly when the head does not wrap |
| Receiving.WrappedSizeStalls | connection.cpp:76-80 | behind a head that wraps to zero every later byte piles up, for any bytes after it, any arrivals and any caller: nothing is found whole again |
| Receiving.StallsExactly | connection.cpp:76-93 | a complete head never gets the scanner past it, whatever follows, exactly when it wraps to zero |
| Receiving.WrappingHead | connection.cpp:76-80 | there is such a head |
| ConnectionHalves.SendSide.BytesToSend | connection.cpp:571-575 | the number of flushed bytes not yet accepted |
| ConnectionHalves.SendSide.SendPending | connection.cpp:789-826 | the send loop computes SendLoop |
| ConnectionHalves.SendSide.SwapFlushedPart | connection.cpp:811-825 | the flushed part moves, the corked tail is copied back |
| ConnectionHalves.SendSide.SwapBuffers | connection.cpp:597-600 | the two buffers trade places |
| ConnectionHalves.ReceiveSide.DetectResponses | connection.cpp:69-96 | the scan loop computes Scan |
| ConnectionHalves.ReceiveSide.PassToCaller | connection.cpp:223-259 | computes Pass |
| ConnectionHalves.ReceiveSide.InputProcessed | connection.cpp:609-614 | computes Processed |
| ConnectionHalves.ReceiveSide.MakeRoom | connection.cpp:706-712 | recv is always offered at least 512 bytes, so it returns 0 only at the end of the stream |
| ConnectionHalves.ReceiveSide.Receive | connection.cpp:704-732 | the recv loop, growing its buffer, appends exactly what arrives before EAGAIN, end of stream or an error, and never past the capacity |
| ConnectionClass.Connection.constructor | connection.cpp:45-52 | a new connection is ready and disconnected, with the invariant of every run |
| ConnectionClass.Connection.NoJam | connection.cpp:779-787 | in a ready connection flushed bytes stand behind unsent ones and the watcher waits to write exactly while there are unsent bytes |
| ConnectionClass.Connection.NothingWaits | connection.cpp:69-214 | in a session no complete message is left unfound; with an idle caller of an established connection none is in the receive buffer |
| ConnectionClass.Connection.Close | connection.cpp:459-507 | takes the step CloseCall: disconnected, without a socket, a busy caller's buffer untouched |
| ConnectionClass.Connection.SetTarget | connection.cpp:509-514 | takes effect only while disconnected and throws otherwise |
| ConnectionClass.Connection.SetRequiredProto | connection.cpp:516-519 | takes the step Require |
| ConnectionClass.Connection.AppendOutput | connection.h:142-144 | the bytes join the end of the stream, and the flushed part stays |
| ConnectionClass.Connection.BytesToSend | connection.cpp:571-575 | the flushed bytes not yet accepted, zero exactly when nothing unsent or flushed is left |
| ConnectionClass.Connection.Write | connection.cpp:756-831 | takes the step WriteReady for every answer of the socket, and never reports stuck data; a connecting one waits for the greeting exactly when SO_ERROR is clear, and is otherwise closed with a reconnect counted from now; an established one survives every answer but an error |
| ConnectionClass.Connection.Flush | connection.cpp:588-607 | takes the step FlushCall; in an established connection all that was appended is flushed, with nothing lost, duplicated or reordered; returns true exactly when nothing was left corked behind unsent bytes, and of a call that did nothing exactly when the output buffer was empty; an established connection survives it unless the socket reports an error |
| ConnectionClass.Connection.NextRequestId | connection.cpp:551-554 | request numbers count up and wrap at 2^64, in a ready connection |
| ConnectionClass.Connection.Handshake | connection.cpp:101-208 | by stage and code: the next request, connected, or closed with a reconnect scheduled, as the function Handshake says, about which see Handshakes.ReplyLeads |
| ConnectionClass.Connection.SendAuth | connection.cpp:107-122 | computes SendAuth, about which see Handshakes.AuthRequestSays; a request longer than the space of the send buffer is recorded as running past it |
| ConnectionClass.Connection.Greet | connection.cpp:734-751 | computes Greet |
| ConnectionClass.Connection.ProcessReceiveBuffer | connection.cpp:69-214 | computes Process |
| ConnectionClass.Connection.Read | connection.cpp:697-754 | takes the step ReadReady for every sequence of recv results, leaves a busy caller's buffer alone, and closes an established connection only on an error or the end of the stream |
| ConnectionClass.Connection.InputProcessed | connection.cpp:609-614 | takes the step InputProcessed |
| ConnectionClass.Connection.AddressResolved | connection.cpp:288-342 | the loop over the addresses computes TryAddresses, about which see Dialing.AddressesDial |
| ConnectionClass.Connection.AddressesArrived | connection.cpp:390-394 | takes the step AddressesFound; addresses of an attempt that was given up change nothing |
| ConnectionClass.Connection.ResolverFailed | connection.cpp:404-411 | takes the step AddressesFailed |
| ConnectionClass.Connection.Open | connection.cpp:344-457 | takes the step OpenCall: guards, delay, the two kinds of target |
| ConnectionClass.Connection.Tick | connection.cpp:616-653 | takes the step TimerTick; an established connection survives it |
| Lifecycle.NextInv | connection.cpp:288-831 | every event keeps: buffers consistent, socket, resolver, counter and connection string belonging to the stage, the watch mode matching unsent bytes, the replies the stage needs, what the server said kept for its session only, no jam, a searched receive buffer in a session and nothing found whole waiting for an idle caller |
| Lifecycle.RunInv | connection.cpp:288-831 | so does every run |
| Sessions.NothingLostInOrder | connection.cpp:588-607 | over any run in one session in which the corked tails fit, accepted ++ unsent ++ output is everything appended, in order; the socket gets nothing past the last flush mark; bytes_to_send is the flushed rest |
| Sessions.NoOverrun | connection.cpp:818-824 | over any run, if at every sending step nothing is flushed behind the send buffer or the tail fits, and the requests of the handshake fit the space start_message leaves them, nothing runs past a buffer |
| Sessions.RequestSizes | iproto_writer.cpp:100-150 | those requests have at most 42 bytes more than the authentication name, and 37 more than user, scheme and scramble |
| Sessions.FlushingCallerNeverOverruns | connection.cpp:588-607 | a caller who flushes after every append meets that condition |
| Sessions.AnsweredWriteSends | connection.cpp:789-826 | a write event in which the socket takes something at once lowers bytes_to_send |
| Sessions.FlushedIsAccepted | connection.cpp:756-831 | over any run in one session in which the tails fit: after as many such events as there were bytes to send, the socket has accepted everything flushed at the start, whatever was appended and flushed meanwhile |
| Sessions.NeverJams | connection.cpp:779-787 | over every run from creation: flushed bytes always stand behind unsent ones, write() never reports stuck data, the timer only about bytes being watched, and the watcher waits to write exactly while there are unsent bytes |
| Sessions.SlowPeerIsReported | connection.cpp:635-643 | the timer's report is reachable with a slow peer |
| Sessions.StageOwnsResources | connection.cpp:288-507 | over every run from creation: a socket exactly from connecting on; resolving exactly with this attempt's resolver; connected is not timed; in a session no complete message is left unfound, and none at all is in the buffer while the caller of an established connection is idle |
| Sessions.ConnectedIsFresh | connection.cpp:203-207 | the step that establishes a connection leaves an empty receive buffer and a reset scanner |
| Sessions.ConnectedMeansAuthenticated | connection.cpp:101-207 | over every run from creation, for the connection string in force: connected as a user that is neither empty nor "guest" only after a features reply and an authentication reply with code 0 in this session, and no other; connected otherwise after one features reply, of code 0 or 0x30 |
| Sessions.ReplyAdvances | connection.cpp:101-207 | every whole reply moves the handshake strictly on or closes and schedules a reconnect |
| Survival.ReceiveStops | connection.cpp:706-732 | recv is called until it has nothing more: all data before the first answer that stops the loop is taken, in order, and the session ends exactly when that answer is an error or the end of the stream |
| Survival.SessionEndsExactly | connection.cpp:697-831 | an established session ends at exactly these events: the caller closes it; a read comes upon an error or the end of the stream; a write, or the write inside a flush, fails; and then a reconnect is counted from now unless the caller closed |
| Survival.UndisturbedStays | connection.cpp:697-831 | over every run whose events are no close, no send error, no recv error and no end of stream, an established session stays established |
| Survival.BlockedWriteWaits | connection.cpp:794-799 | EAGAIN at once changes nothing: the bytes stay, and so does the watch for writing |
| Survival.NumbersCountUp | connection.cpp:551-554 | over every undisturbed run of a session request numbers are given out one after the other, modulo 2^64 |
| Survival.UndisturbedStream | connection.cpp:756-831 | over every such run in which the tails fit: the session stays; accepted ++ unsent ++ output is everything appended, in order; nothing past the last flush is out; bytes_to_send is the flushed rest; and after as many answered write events as there were bytes to send, everything flushed at the start is accepted |
| Capacities.SendLoopWithin | connection.cpp:811-825 | whatever the socket answers, write() neither grows nor shrinks the two buffers, and what they hold fits their memory unless a copy ran past it |
| Capacities.OutputWithin | connection.cpp:595-602 | an append reserves exactly what it needs; flush exchanges the buffers with their capacities |
| Capacities.RunWithin | connection.cpp:756-831 | over any run in which the tails and the handshake requests fit, what the two buffers hold fits their memory |
| Dialing.OpenStartsAttempt | connection.cpp:344-457 | open() makes an attempt exactly on a closed connection without delay and with no resolver running, with the connection string now in force and a timeout of ten ticks: a host name is resolved; a unix path is dialled, timed and watched for writing when in progress, watched for reading and untimed when established at once, and counted for a retry when connect() fails |
| Dialing.OpenWhileBusy | connection.cpp:344-365 | otherwise it changes nothing |
| Dialing.LastSettingsCount | connection.cpp:509-519 | an attempt is made with the connection string and the proto_id set last, and while it is under way another connection string is refused |
| Dialing.AddressesDial | connection.cpp:288-342 | the addresses arrive while resolving: those that give no socket are passed over, and the first other one decides in the same way; a failed connect(), or no socket at all, closes with a reconnect counted from now |
| Dialing.NameFails | connection.cpp:404-411 | a name that cannot be resolved: closed, with a reconnect counted from now |
| Dialing.ConnectOutcome | connection.cpp:756-773 | a connecting socket becomes writable: without SO_ERROR only the watch changes, to reading; with it the connection is closed and waits for its reconnect from tick 0 |
| Dialing.DelayStarts | connection.cpp:355-360 | close() and open() with a delay count from zero to exactly that delay |
| Dialing.CloseCallsOff | connection.cpp:459-507 | close() without one calls off any reconnect |
| Dialing.CloseWithoutSocket | connection.cpp:477-478 | without a socket close() leaves alone what was appended and received, and a resolver goes on |
| Dialing.WaitLasts | connection.cpp:616-623 | a wait lasts: with fewer ticks than its limit no attempt is made |
| Dialing.ClosedReopens | connection.cpp:459-507 | after close(delay) the next attempt is made by the tick number `delay` and by no earlier one, unless the caller opens, closes or flushes |
| Dialing.SocketGivenUp | connection.cpp:459-507 | whatever event gives up a socket, in whatever stage: greeting, server features, request numbers, all sending buffers and partial responses are gone and nothing is watched; the caller keeps its buffer |
| Dialing.WholeOnesStay | connection.cpp:489-493 | an established session leaves exactly the responses it had found whole |
| Handshakes.IdRequestSays | iproto_writer.cpp:126-150 | the features request is one whole message: the header {0: 0x49, 1: sync} and a map of the version if any under 0x54, exactly the known features under 0x55 and the scheme if any under 0x5b |
| Handshakes.AuthRequestSays | iproto_writer.cpp:100-124 | the authentication request is one whole message: {0: 7, 1: sync}, the user under 0x23 and, under 0x21, the scheme and the scramble in that order |
| Handshakes.AuthRequestMade | iproto_writer.cpp:100-124 | it is made whenever user, scheme and scramble leave room in 32 bits |
| Handshakes.RequestOverrunsExactly | iproto_writer.cpp:38-53 | sending a handshake request runs past the buffer exactly when it is longer than the buffer, of which start_message has made at least 1024 bytes |
| Handshakes.ReplyIsRead | connection.cpp:143-173 | a reply is a message whose payload starts with a map; its code is the value of the first pair with key 0, when that is a 32-bit number without sign; anything else is an error |
| Handshakes.GreetingLeads | connection.cpp:734-751 | fewer than 128 bytes are kept waiting; from then on all of them are the greeting, and what goes out is the features request of the next request number, then what was flushed |
| Handshakes.PartialReplyWaits | connection.cpp:69-101 | an incomplete reply is kept, and nothing else happens |
| Handshakes.ReplyLeads | connection.cpp:101-207 | a whole reply, by its code: to the features request, 0 with a readable body or 0x30 settles the features, and then a named user's authentication is requested with the server's scheme while anyone else is connected; to the authentication request 0 connects; everything else closes, with a reconnect counted from now |
| Handshakes.FeaturesAreRequested | connection.cpp:734-751 | so the step into the features stage puts on the wire and into the send buffer exactly that message |
| Handshakes.AuthenticationIsRequested | connection.cpp:107-121 | and the step into the authentication stage exactly the message with the user of the connection string and the scheme of the server's proto_id |
| Handshakes.GreetingReached | connection.cpp:288-342 | a run from creation: open, resolve, connect in progress, writable without an error, greeting; then the features are being asked for |
| Handshakes.ConnectionCompletes | connection.cpp:101-207 | and on, with replies of code 0: connected after the second reply for a named user, after the first for anyone else |
| Timing.StaleAddressesAreIgnored | connection.cpp:288-292 | addresses are used only by the attempt that asked for them |
| Timing.StaleFailureReschedules | connection.cpp:404-411 | a stale failure restarts the counter; harmless exactly when it stood at zero |
| Timing.StaleFailureReached | connection.cpp:404-411 | it happens: open, close, and the failure comes in, from creation |
| Timing.TimerSparesConnected | connection.cpp:616-630 | the timer never closes an established connection |
| Timing.TickOfEstablished | connection.cpp:632-644 | a tick leaves an established connection as it is, unless flushed bytes have waited since a write long ago: then it reports how many bytes are unsent and flushed, and its flush only moves the mark |
| Timing.PendingStep | connection.cpp:616-630 | timeout minus ticks ranks a connect in progress: ticks lower it, nothing raises it |
| Timing.ConnectIsDecided | connection.cpp:327-332 | a connect in progress is connected or disconnected within the remaining ticks, whatever else happens |
| Timing.PendingEndsWaiting | connection.cpp:459-507 | every way for a connect in progress to fail ends in the wait for the reconnect, its counter at zero |
| Timing.TimeoutStartsWait | connection.cpp:624-629 | the timeout closes it and starts the wait |
| Timing.RetryFollows | connection.cpp:616-623 | a new attempt follows within as many ticks again, unless the caller opens, closes or flushes |
| Timing.ConnectedOrRetried | connection.cpp:616-630 | a connect in progress is established within the ticks left to it, or a new attempt is made within as many ticks again as the timeout, whatever made it fail, unless the caller opens, closes or flushes |
| Timing.DialedConnectsOrRetries | connection.cpp:327-332 | the same from the moment connect() is in progress |
| Timing.FlushWithoutSocket | connection.cpp:588-607 | without a socket flush only moves the mark while the output buffer is empty or the send buffer is not; otherwise it fails to send, whatever the connection was doing is ended, and a reconnect is counted from now, also one nobody asked for |
| Timing.FlushDialsUnasked | connection.cpp:595-602 | a run from creation: append, flush, and ten ticks later a connection that was never opened makes its first attempt |
| Ownership.CallerOwnsInput | connection.h:63-69 | no event but input_processed, not even closing and reconnecting, changes a busy caller's buffer or hands over another |
| Ownership.CallerOwnsInputThroughout | connection.h:63-69 | nor does any run without it |
| Ownership.ClosingReadDropsArrivals | connection.cpp:714-729 | a read that ends with the peer's close or an error hands over and keeps nothing of what it received |
| Ownership.GreetingIsPureExactly | connection.cpp:734-740 | over every run from creation: the greeting is the whole responses still waiting for a busy caller, then exactly the bytes read from its socket; it is those bytes alone exactly when none was waiting; waiting ones are never handed over |
| Ownership.IdleAtCloseGetsPureGreeting | connection.cpp:489-493 | if the caller is idle when the connection is closed, the next greeting is exactly the bytes read from its socket, however many attempts fail before it |
| Ownership.BusyGreetingReached | connection.cpp:734-740 | a run from creation in which a waiting response becomes the start of the next greeting |
| EndToEnd.SessionIsInputs | connection.cpp:697-754 | inside a session the receiver sees exactly the reads and the input_processed calls |
| EndToEnd.ResponsesArriveInOrder | connection.cpp:69-259 | the chunking theorem for the whole connection |
| EndToEnd.SessionDeliversInOrder | connection.cpp:69-259 | from the step that establishes the connection, even with a busy caller |
| EndToEnd.ComposedIsReceived | iproto_writer.cpp:38-80 | messages composed by any run of iproto_writer on the peer reach the idle caller as exactly those payloads |
| EndToEnd.ComposedIsSent | connection.cpp:756-831 | requests composed by any run, appended and flushed piecewise with tails that fit, are accepted by the socket as exactly their frames |
| EndToEnd.UndisturbedDelivery | connection.cpp:69-259 | the chunking theorem over every undisturbed run, by its events alone |
| EndToEnd.UndisturbedComposedIsReceived | iproto_writer.cpp:38-80 | so the peer's messages reach the idle caller over every undisturbed run |
| EndToEnd.UndisturbedComposedIsSent | connection.cpp:756-831 | and composed requests are accepted as exactly their frames |
| CsParser.ParseCs | cs_parser.cpp:15-147 | the loop ends, as its tail shrinks in every round, and computes Parse, about which see the reading theorems below |
| CsParser.ParseCsIn | cs_parser.cpp:106-113 | the recursion over environment variables computes ParseIn |
| CsParser.EnvironmentEnds | cs_parser.cpp:106-113 | the recursion ends exactly when no variable is looked up twice, and then as many nested calls as there are variables are enough |
| CsParser.SelfReference | cs_parser.cpp:106-113 | a variable that names itself: no stack is deep enough |
| CsParser.LoginsThenAddress | cs_parser.cpp:59-143 | any run of logins before an address is read as the last user and the last password given |
| CsParser.ReadAs | cs_parser.cpp:59-143 | every string is such a run and an address, and is read that way |
| CsParser.ResultShape | cs_parser.cpp:15-147 | a result is nothing, a unix path without host and port, or TCP with a valid port, a host and a user, exactly when the string is not a stray password |
| CsParser.StrayExample | cs_parser.cpp:102-120 | such a string |
| CsParser.TcpReads | cs_parser.cpp:73-143 | printing logins and host:port, [host]:port or a port alone, and parsing, gives back user, password, host and port, with "guest" and "localhost" for empty ones |
| CsParser.TcpIsRead | cs_parser.cpp:73-143 | only such strings give a TCP result |
| CsParser.CanonicalParses | cs_parser.cpp:73-143 | writing a TCP result canonically and parsing it changes nothing |
| CsParser.PortsAreNumbers | cs_parser.cpp:35-57 | the valid ports are the numbers up to 65535 in one to five decimal digits |
| CsParser.UnixReads | cs_parser.cpp:73-120 | a unix path comes out exactly as written: after logins that leave no user, anything free and a path that starts with a slash but not with `/:`, or `unix/:` and a path; after any logins, anything free, a colon and a path that starts with a slash, with user and password kept |
| CsParser.UnixIsRead | cs_parser.cpp:73-120 | only such strings give a unix path |
| CsParser.EnvironmentReads | cs_parser.cpp:106-113 | `env/:` and a name, after any logins, names that variable |
| CsParser.EnvironmentIsRead | cs_parser.cpp:106-113 | only such strings do |
| CsParser.VariableCounts | cs_parser.cpp:106-113 | the variable is named up to the first NUL; unset, the result is empty; set, its value is parsed instead of the whole string, logins included |

## Left out

- System calls, DNS, threads, libev glue and descriptors (ev4cpp2tnt, unique_socket): only their outcomes appear, as arguments of the steps. The resolver thread is a running attempt that later delivers addresses or a failure.
- SHA1, base64 and the scramble: the twenty bytes are a parameter of the handshake.
- Floats and ext types (decimal, uuid, datetime, interval, error): items of these formats are passed over and kept as raw bytes, their values are not interpreted. 0xc1, which the MessagePack specification never uses, is invalid.
- `to_string`, `hex_dump`, `get_trace` and all error texts.
- `mp_array::operator[]` (mp_reader.h:181-191): its loop condition never becomes false.
- `mp_span::sub` of a sub-span: right bounds are copied without rebasing (mp_reader.h:282-285, :311-315).
- `strict_uint`, optional and chrono operators, `encode_response_header`, `operator<<` for readers: they would only add members like those present.
- The `strtoul` variant of the port check, compiled only without charconv.
- The idle counter and on_idle, cork() and uncork() (a flag nothing reads), on_opened, on_closed and on_error.
- ConnectionClass.Connection: buffers are byte sequences with a capacity each instead of arrays, so their aliasing is not modelled; the arrays are in WtfBuffers. The fields of the sending and the receiving half sit in two member objects. A caller who swaps the buffer it was handed is not modelled.
- MpWriters.MpWriter.Write: after a growth in which the destination went stale, what the content is past the old end.
- Reader.Find: floating-point keys.
- Reader.SpanAgreesWithWalk: says nothing about elements past the items read last, which Reader.NilPastTheEnd tells apart.
- WtfBuffers.WtfBuffer.Reserve: the capacity of the vector is taken to be its size.
- Timing.RetryFollows: says nothing about a caller who opens, closes or flushes while waiting, since each of these moves the counter.
- Timing.ConnectedOrRetried: the same.
- ConnectionClass.Connection.SetRequiredProto: an authentication name of 2^32 - 64 bytes or more, whose request would not be a message.
- EndToEnd.ComposedIsReceived: the peer composes with iproto_writer and nothing is pending when the session starts.
- The request number is taken modulo 2^64; sizes are otherwise unbounded except where the code checks, truncates or wraps them.

# Blueth: a verified model of its protocol and data cores

Blueth is a header-only C++ networking toolkit.  This project models the parts of it that stand on
their own and carry hard properties, and proves those properties with Dafny 4.11:

- **The incremental HTTP/1.1 parsers and the printers they should invert.**  `RequestAutomaton` and
  `ResponseAutomaton` give the byte-at-a-time automata with their look-back of one byte and their
  resumption from a state held by the caller; `RequestParser` and `ResponseParser` are the loops over
  the buffer, which fill a message object in place and are proved to compute the automata.
  `RequestGrammar` and `ResponseGrammar` state the accepted language declaratively and prove it equal
  to the automata; `RequestRoundTrip` and `ResponseRoundTrip` say exactly which messages survive
  printing and parsing; `RequestStream` and `ResponseStream` parse a message that arrives in windows.
- **IOBuffer** (`IOBuffers`), the offset-based buffer under them, as a byte queue with headroom.
- **ThreadPoolExecutor** (`ThreadPool`), as interleaved atomic steps of workers, submitters and shutdown.
- **Base64** (`Base64`), with the source's shifts and masks on bit-vectors.
- **The vectorised byte search** (`Simd`) and **the CRLF frame decoder** (`FrameDecoder`) on top of it.
- **The growth of `containers::vector`** (`Vectors`).

Whatever the source updates in place is a class or a method with a loop here, proved against a
function on values; the properties are proved about those functions.

## Where the code departs from its evident intent

The model keeps the code as it is and says exactly when it does what one would expect.

- The request loop never ends in `HeaderEndLF` on a byte other than LF, or on LF when the method is
  not one of the four it knows.  `RequestAutomaton.Termination` and `RequestGrammar.HangsExactlyAtHeadEnd`
  give the exact condition; `hangs` stands for it in `RequestParser.Parse`.
- Methods are compared by prefix, so `GETAWAY` is a GET (`RequestAutomaton.TypeOfIsPrefix`).
- A request header value may contain a space only directly after a `:`, and such spaces are not stored.
- In a response header value every text byte that follows a `:` is dropped, so a value with an inner
  `:` does not survive (`ResponseRoundTrip.KeptOfPrinted`, `RoundTrip`).
- The response parser takes the first non-empty window of the body for all of it.
  `ResponseAutomaton.WindowsDoNotMatter` proves that cutting a message into windows is harmless iff no cut
  is inside the body; `ResponseGrammar.CutInsideBody` says which cuts those are, and
  `ResponseGrammar.CutBodyIsLost` is the loss on any head that announces a body.
- Appending one IOBuffer to another reserves the source's capacity; `IOBuffers.BufferAppendIsExact` says
  when that works, when it writes past the block and when it recurses for ever.
- A frame is one byte shorter than its line, and the length of the frame of an empty line wraps around:
  `FrameDecoder.DecodedBytes` proves that a frame stays within the buffer iff its line is not empty, and
  that it then holds all of the line but its last byte.
- `submit` does not look at the shutdown flag: a task pushed before shutdown is run, one pushed later
  is run iff a worker still lives (`ThreadPool.PushedTaskIsRun`, `PushedBeforeShutdownIsRun`), and
  `PushedAfterLastExitIsLost` is a run that loses one.
- The printer gives a 307 response the phrase of 305 (`ReasonPhrases.PrintedPhrase`).  The parser reads
  over any phrase, so the round trip holds for every text in its place.

## Conventions

Bytes of text are Dafny characters; only 0..255 occur in the source and no statement depends on that
bound.  Base64 works on `bv8`.  Sizes are naturals, except where `size_t` wrap-around shows: the free
space of a buffer and the length of a frame.  `isprint` and `isdigit` are those of the C locale.  The
order in which an unordered map enumerates its entries and the bytes of uninitialised memory are
universally quantified parameters.

## Model

| member | source | states |
|---|---|---|
| Lexical.StrCmpIsPrefix | blueth/http/HTTPParserCommon.hpp:9-22 | the three- and four-byte method comparisons with a NUL-free word hold iff the word is a prefix of the method |
| Lexical.TokenBytes | blueth/http/HTTPParserCommon.hpp:24-61 | the token bytes, one by one: letters, digits and fifteen marks |
| Lexical.TextBytes | blueth/http/HTTPParserCommon.hpp:55-67 | the text bytes are tab and everything from space on but 127; the printable ones and the digits likewise |
| Headers.FirstValueWins | blueth/http/HTTPHeaders.hpp:28-31 | a name is in the container iff some added field bears it, with the value of the first such field |
| Headers.CollectEnumeration | blueth/http/HTTPHeaders.hpp:28-31 | adding the entries of a map in any order gives that map |
| Headers.LinesText | blueth/http/HTTPHeaders.hpp:54-64 | the printed lines, byte for byte |
| Headers.HTTPHeaders.AddHeader | blueth/http/HTTPHeaders.hpp:28-31 | adds the entry unless the name is present |
| Headers.HTTPHeaders.RemoveHeader | blueth/http/HTTPHeaders.hpp:33-37 | removes the entry and no other, and says whether there was one |
| Headers.HTTPHeaders.GetHeaderValue | blueth/http/HTTPHeaders.hpp:48-52 | the value stored under the name, if there is one |
| Headers.FieldsAreUnique | blueth/http/HTTPParserStateMachine.hpp:143-185 | a header part, followed by anything, can be read as fields and trailing name in one way only |
| Headers.HTTPHeaders.BuildRawHeader | blueth/http/HTTPHeaders.hpp:54-64 | the text is every entry exactly once as a line, in some order, and an empty line |
| IOBuffers.IOBuffer.Reserve | blueth/io/IOBuffer.hpp:224-234 | new capacity, offsets unchanged, every byte that fits is kept, headroom included |
| IOBuffers.IOBuffer.AppendRawBytes | blueth/io/IOBuffer.hpp:373-384 | contents and headroom are the old ones followed by the bytes; the recursion is at most one deep; exact new capacity |
| IOBuffers.IOBuffer.AppendBuffer | blueth/io/IOBuffer.hpp:386-399 | under the exact condition, concatenation with the source unchanged, for a buffer appended to itself as well |
| IOBuffers.BufferAppendIsExact | blueth/io/IOBuffer.hpp:386-399 | the recursion copies in bounds iff the data fits or the source's capacity is at least end offset plus data size; it copies past the end iff neither holds and that capacity is below the end offset; otherwise it recurses at every depth |
| IOBuffers.BufferAppendCanFail | blueth/io/IOBuffer.hpp:386-399 | two pairs of buffers, one for which the append writes past the end and one for which it recurses for ever |
| IOBuffers.Replay | blueth/io/IOBuffer.hpp:224-260 | over any run of appends, advances and clears the buffer is a byte queue: its view is what was appended since the last clear minus what was consumed, and the consumed bytes stay in the headroom |
| RequestAutomaton.StuckIsNoProgress | blueth/http/HTTPParserStateMachine.hpp:188-210 | a pass that makes no progress is exactly one in `HeaderEndLF` on a non-LF byte or with an unknown method, and every fixed point is such |
| RequestAutomaton.RunIsLoop | blueth/http/HTTPParserStateMachine.hpp:27-221 | the value of a call is what the loop ends with within remaining + 1 passes, or the loop is stuck within remaining passes |
| RequestAutomaton.TypeOfIsPrefix | blueth/http/HTTPParserStateMachine.hpp:188-208 | the type is Get, Post, Put or Head iff the method begins with that word, and Unsupported iff with none of the four |
| RequestAutomaton.Termination | blueth/http/HTTPParserStateMachine.hpp:27-221 | the loop ends iff it never gets stuck, and then within remaining + 1 passes |
| RequestAutomaton.RunConcat | blueth/http/HTTPParserStateMachine.hpp:14-224 | two calls on successive windows are one call on both, from any state, for any split and outcome, look-back included |
| RequestAutomaton.WindowsDoNotMatter | blueth/http/HTTPParserStateMachine.hpp:14-224 | the same for any number of windows |
| RequestAutomaton.LookBackOnlyInHeaderValue | blueth/http/HTTPParserStateMachine.hpp:162-169 | the byte before a window matters only to a call that resumes in a header value |
| RequestMessages.RequestMessage.AddTempHeadersHolderToMessage | blueth/http/HTTPMessage.hpp:244-250 | the held name and value become a header, the first value winning, and the holders are empty |
| RequestMessages.RequestMessage.PushBackRawBody | blueth/http/HTTPMessage.hpp:252-255 | the bytes are appended to the body; everything else is unchanged |
| RequestMessages.RequestMessage.BuildRawMessage | blueth/http/HTTPMessage.hpp:203-232 | the text is start line, headers in some enumeration, empty line and body |
| RequestMessages.PrintedText | blueth/http/HTTPMessage.hpp:203-232 | the printed text byte for byte, with its start line for each of the six types |
| RequestMessages.StartLineIsUnique | blueth/http/HTTPMessage.hpp:205-228 | two start lines are the same only if type and target are |
| RequestMessages.TypesPrintDifferently | blueth/http/HTTPMessage.hpp:203-232 | two messages that print alike have the same type |
| RequestParser.OnByte | blueth/http/HTTPParserStateMachine.hpp:28-211 | one pass of the switch on the message object does what the automaton's step says |
| RequestParser.Parse | blueth/http/HTTPParserStateMachine.hpp:14-224 | the loop over the buffer leaves the state and message of the automaton's run, or hangs exactly when it does |
| RequestStream.ParseNext | tests/test-http/test-http-state-machine.cpp:95-186 | append, advance past the old data and resume: state and message are those of one parse of everything written |
| RequestStream.ParseWindows | tests/test-http/test-http-state-machine.cpp:95-186 | any list of windows over one growing buffer gives the outcome of one parse of their concatenation |
| RequestGrammar.Explain | blueth/http/HTTPParserStateMachine.hpp:27-221 | for every input, the parts of a head that the automaton has read, in every state, with the text they make up |
| RequestGrammar.RunHead | blueth/http/HTTPParserStateMachine.hpp:27-221 | a well-formed head with a supported method is accepted, with its parts, and the rest becomes the body for POST and PUT |
| RequestGrammar.AcceptsExactlyTheGrammar | blueth/http/HTTPParserStateMachine.hpp:29-215 | the run is accepted iff the input begins with a head of the grammar whose method begins with GET, HEAD, POST or PUT; the configuration is then decided by the head and the rest |
| RequestGrammar.AcceptedMessage | blueth/http/HTTPParserStateMachine.hpp:188-215 | what is found then: the type by the prefix, the target, the first-wins fold of the values without spaces, and for POST and PUT all that follows as body |
| RequestGrammar.SqueezedByte | blueth/http/HTTPParserStateMachine.hpp:162-173 | byte by byte, what is stored of a value is all of it but the spaces, in place |
| RequestGrammar.HangsExactlyAtHeadEnd | blueth/http/HTTPParserStateMachine.hpp:188-210 | the run hangs iff the input begins with a head up to its last CR and goes on with a byte other than LF, or with LF when the method has none of the four prefixes |
| RequestGrammar.HeadIsUnique | blueth/http/HTTPParserStateMachine.hpp:29-211 | the grammar is unambiguous: two heads that stand at the front of one text, up to their last CR, are equal in every part |
| RequestGrammar.RejectsExactlyTheHopeless | blueth/http/HTTPParserStateMachine.hpp:27-221 | the parser is in the error state iff the input neither begins with a head, up to the last CR, nor is the beginning of one, so errors come at the first hopeless byte |
| RequestGrammar.ErrorKeepsMessage | blueth/http/HTTPParserStateMachine.hpp:27-221 | an error leaves the message as the last good byte made it, and changes the state only |
| RequestRoundTrip.RoundTrip | blueth/http/HTTPMessage.hpp:203-232 | for every message and header order, parsing the printed text gives the message back iff it is a GET, HEAD, POST or PUT with printable space-free target, token names, space-free text values, and no body for GET and HEAD |
| RequestRoundTrip.RoundTripInWindows | blueth/http/HTTPParserStateMachine.hpp:14-224 | the same when the text arrives in any windows |
| RequestRoundTrip.AcceptedIsParseable | blueth/http/HTTPParserStateMachine.hpp:27-221 | every message the parser finds, in any text, is one that survives printing and parsing |
| RequestRoundTrip.UnsupportedMethodHangs | blueth/http/HTTPParserStateMachine.hpp:206-208 | printing a CONNECT or UNSUPPORTED message and parsing it hangs |
| ResponseAutomaton.AlwaysEnds | blueth/http/HTTPParserStateMachineResponse.hpp:27-224 | the loop ends within remaining + 1 passes on every input, with the value of the call |
| ResponseAutomaton.RunConcat | blueth/http/HTTPParserStateMachineResponse.hpp:15-227 | two calls on successive windows are one call on both iff the cut is not inside the body |
| ResponseAutomaton.WindowsDoNotMatter | blueth/http/HTTPParserStateMachineResponse.hpp:15-227 | the same for any number of windows, both directions |
| ResponseAutomaton.CutBody | blueth/http/HTTPParserStateMachineResponse.hpp:214-218 | when some cut is inside the body, parsing ends with strictly fewer body bytes than one parse gives, and with everything else the same |
| ResponseMessages.ResponseMessage.PushBackResponseCode | blueth/http/HTTPMessage.hpp:718-724 | the first three bytes are held, later ones dropped, and nothing else changes |
| ResponseMessages.ResponseMessage.BuildRawMessage | blueth/http/HTTPMessage.hpp:353-693 | the text is status line with the phrase the printer gives the code, headers in some enumeration, empty line and body; nothing for another version or the invalid code |
| ResponseMessages.PrintedText | blueth/http/HTTPMessage.hpp:353-693 | the printed text byte for byte: the status line of a named code, a bare one for another number, nothing for another version or the invalid code |
| ResponseMessages.ListedMeansNamed | blueth/http/HTTPConstants.hpp:4-46 | the codes the printer knows are the values of the names other than InvalidHttpCode, and those that have a phrase |
| ResponseCodes.NameOfValue | blueth/http/HTTPConstants.hpp:4-46 | no two names have the same value |
| ResponseCodes.PhrasesFrom403 | blueth/http/HTTPParserCommon.hpp:69-160 | the values and phrases of three names; its fourteen companions state the others |
| ResponseCodes.PrintedPhrases | blueth/http/HTTPMessage.hpp:489-496 | 307 is printed with "Use Proxy", every other code with its own phrase |
| ResponseParser.OnByte | blueth/http/HTTPParserStateMachineResponse.hpp:28-213 | one pass of the switch on the message object does what the automaton's step says |
| ResponseParser.Parse | blueth/http/HTTPParserStateMachineResponse.hpp:15-227 | the loop over the buffer leaves the state and message of the automaton's run |
| ResponseStream.ParseWindows | blueth/http/HTTPParserStateMachineResponse.hpp:15-227 | any list of windows over one growing buffer gives the outcome of the resumed runs, growth keeping the byte looked back at |
| ResponseGrammar.Explain | blueth/http/HTTPParserStateMachineResponse.hpp:27-224 | for every input, the parts of a head that the automaton has read, in every state, with the text they make up |
| ResponseGrammar.RunHead | blueth/http/HTTPParserStateMachineResponse.hpp:27-224 | a well-formed head is accepted with its parts, and its body is taken iff Content-Length is there and bytes follow |
| ResponseGrammar.AcceptsExactlyTheGrammar | blueth/http/HTTPParserStateMachineResponse.hpp:29-218 | the run gets past the head iff the input begins with a head of the grammar; the configuration is then decided by the head and the rest |
| ResponseGrammar.AcceptedMessage | blueth/http/HTTPParserStateMachineResponse.hpp:188-218 | what is found then: code, the first-wins fold of the kept values, and all that follows as body iff some field is named "Content-Length" |
| ResponseGrammar.KeptByte | blueth/http/HTTPParserStateMachineResponse.hpp:170-182 | byte by byte, what is stored of a value is all of it but the bytes that a colon precedes, in place |
| ResponseGrammar.CutInsideBody | blueth/http/HTTPParserStateMachineResponse.hpp:198-218 | a cut is inside the body iff a head with a field named "Content-Length" and at least one more byte come before it |
| ResponseGrammar.CutBodyIsLost | blueth/http/HTTPParserStateMachineResponse.hpp:198-218 | after any head that announces a body, two body bytes in windows of their own: the second is lost, though one parse gives both |
| ResponseGrammar.AnnouncesBody | blueth/http/HTTPParserStateMachineResponse.hpp:198-203 | there is such a head |
| ResponseGrammar.HeadIsUnique | blueth/http/HTTPParserStateMachineResponse.hpp:29-213 | two heads that stand at the front of one text, up to their last CR, are equal in every part |
| ResponseGrammar.RejectsExactlyTheHopeless | blueth/http/HTTPParserStateMachineResponse.hpp:27-224 | the parser is in the error state iff the input neither begins with a head nor is the beginning of one |
| ResponseGrammar.CodeOfThreeDigits | blueth/http/HTTPParserStateMachineResponse.hpp:113-125 | with three digits or more, the code is the number the first three write, whatever the holder contained |
| ResponseGrammar.CodeOfFewerDigits | blueth/http/HTTPParserStateMachineResponse.hpp:113-125 | with one or two digits, the code is their number if the next byte the holder began with is no digit |
| ResponseGrammar.HolderBytes | blueth/http/HTTPMessage.hpp:718-729 | pushing digits fills the holder from the front, three at most, and touches nothing else |
| ResponseGrammar.ErrorKeepsMessage | blueth/http/HTTPParserStateMachineResponse.hpp:27-224 | an error leaves the message as the last good byte made it, and changes the state only |
| ResponseRoundTrip.KeptOfPrinted | blueth/http/HTTPParserStateMachineResponse.hpp:170-187 | a printed value is stored unchanged iff its only colon, if any, is its last byte |
| ResponseRoundTrip.RoundTrip | blueth/http/HTTPMessage.hpp:353-693 | for every message, header order, phrase and holder, parsing the printed text gives the message back iff its code is listed, names are tokens, values are text with at most a final colon, and a body comes with Content-Length; it is complete iff no announced body is empty |
| ResponseRoundTrip.EveryCodeRoundTrips | blueth/http/HTTPMessage.hpp:362-687 | of the named codes, printed with their phrases, every one comes back but InvalidHttpCode |
| ResponseRoundTrip.RoundTripInWindows | blueth/http/HTTPParserStateMachineResponse.hpp:15-227 | when the text arrives in windows, the message comes back iff it would in one parse and no cut is inside the body |
| ThreadPool.ThreadPoolExecutor.Push | blueth/concurrency/ThreadPoolExecutor.hpp:145-148 | the critical section of submit is the push step: task last in the queue and one notification owed |
| ThreadPool.ThreadPoolExecutor.Check | blueth/concurrency/ThreadPoolExecutor.hpp:105-118 | the worker's critical section is the check step: sleep, exit, or take the front task |
| ThreadPool.ThreadPoolExecutor.NotifyAll | blueth/concurrency/ThreadPoolExecutor.hpp:163-163 | every sleeping worker is awake afterwards and one owed notify_all is paid |
| ThreadPool.Replay | blueth/concurrency/ThreadPoolExecutor.hpp:102-174 | any run on the executor object keeps the invariant and ends in the state of the run |
| ThreadPool.NoWakeupIsLost | blueth/concurrency/ThreadPoolExecutor.hpp:106-149 | in every reachable state, a non-empty queue with a live worker has an awake worker or an owed notification, and sleepers after shutdown are owed a notify_all |
| ThreadPool.TakenInOrderAndOnce | blueth/concurrency/ThreadPoolExecutor.hpp:111-150 | in every run, tasks taken followed by tasks queued are the submissions in order, and each taken task is finished or run by exactly one worker |
| ThreadPool.EveryThreadCanGoOn | blueth/concurrency/ThreadPoolExecutor.hpp:102-174 | in every reachable state submits and shutdowns can go on, owed notifications can be paid to any sleeper, and every live worker has a step |
| ThreadPool.WorkGetsDone | blueth/concurrency/ThreadPoolExecutor.hpp:105-150 | with no shutdown: once submits stop, every run is bounded, and it can stop only with every worker asleep and, if there is a worker, the queue empty and every task run |
| ThreadPool.MeasureDrops | blueth/concurrency/ThreadPoolExecutor.hpp:105-120 | after shutdown every step but a submit or another shutdown lowers the measure, spurious wake-ups included |
| ThreadPool.Progress | blueth/concurrency/ThreadPoolExecutor.hpp:159-173 | after shutdown, while a worker lives, a step other than a spurious wake-up is enabled |
| ThreadPool.QuiescentMeansExited | blueth/concurrency/ThreadPoolExecutor.hpp:166-174 | after shutdown nothing can happen any more iff all workers have exited and no notification is owed |
| ThreadPool.RunByTheEnd | blueth/concurrency/ThreadPoolExecutor.hpp:111-150 | when all workers have exited, everything submitted while one lived has finished; later submissions change nothing of that |
| ThreadPool.PushedTaskIsRun | blueth/concurrency/ThreadPoolExecutor.hpp:111-150 | in a run at whose end no worker lives, the task of a given push has been run iff a worker lived when it was pushed |
| ThreadPool.PushedBeforeShutdownIsRun | blueth/concurrency/ThreadPoolExecutor.hpp:142-164 | with at least one worker, a task pushed before shutdown has been run when all have exited |
| ThreadPool.PushedAfterLastExitIsLost | blueth/concurrency/ThreadPoolExecutor.hpp:142-150 | a run with one worker in which a task is accepted after shutdown and no continuation ever runs it |
| ThreadPool.JoinFinishes | blueth/concurrency/ThreadPoolExecutor.hpp:166-174 | once shutdown is set and submits stop, every run is bounded by the measure and can stop only with all workers exited; if one was alive at the start the queue is then empty and every task run |
| Base64.Base64Encode | blueth/utils/Base64.hpp:29-70 | the loop and tails write exactly the encoding of the source bytes and fill the buffer |
| Base64.B64Decode | blueth/utils/Base64.hpp:80-105 | the loop and tail give the decoding of the text, for every length and content |
| Base64.DecodeInvertsEncode | blueth/utils/Base64.hpp:29-105 | decoding the encoding of any bytes gives them back |
| Base64.EncodedCharacter | blueth/utils/Base64.hpp:47-67 | every character of an encoding: the sextet at its place, or "=" after the last bits |
| Base64.DecodedByte | blueth/utils/Base64.hpp:82-103 | every byte of a decoding, for every text: its eight bits of the characters' indices |
| Base64.DecodeLength | blueth/utils/Base64.hpp:82-103 | how many bytes a text gives, for every length and padding |
| Base64.SextetsAreTheBits | blueth/utils/Base64.hpp:48-51 | the four sextets are the 24 bits of three bytes, from the left |
| Base64.TableIsTheAlphabet | blueth/utils/Base64.hpp:18-19 | the table is the alphabet of section 4 of RFC 4648, in order |
| Base64.IndexOutsideTheAlphabet | blueth/utils/Base64.hpp:72-78 | outside it "-" and "." count as "+", "_" and "," as "/", all else as zero |
| Base64.Examples | blueth/utils/Base64.hpp:29-70 | the encodings of "f", "fo", "foo" and "foobar" from section 10 of RFC 4648 |
| Base64.EncodeLength | blueth/utils/Base64.hpp:35-35 | the encoding has 4 * ceil(n / 3) characters |
| Base64.PaddingPlaces | blueth/utils/Base64.hpp:55-67 | "=" stands exactly in the last two, one or no places, as n mod 3 requires |
| Base64.EncodeIsCanonical | blueth/utils/Base64.hpp:47-67 | encodings are padded standard-alphabet texts whose unused bits are zero |
| Base64.EncodeInvertsDecode | blueth/utils/Base64.hpp:80-105 | encoding the decoding of a text gives it back iff it is such a text |
| Base64.PaddingIsOptional | blueth/utils/Base64.hpp:82-103 | removing trailing "=" of the last quartet changes nothing, for any text |
| Base64.DecodesUnpadded | blueth/utils/Base64.hpp:82-103 | the unpadded encoding decodes to the original bytes |
| Base64.AlikeDecodeAlike | blueth/utils/Base64.hpp:72-103 | only the indices of characters and the places of "=" matter to the decoder |
| Base64.DecodesBothAlphabets | blueth/utils/Base64.hpp:72-103 | the encoding rewritten to the alphabet of section 5 of RFC 4648 decodes to the original bytes |
| Base64.TableInvertsIndex | blueth/utils/Base64.hpp:72-78 | the decoder's table inverts the encoder's exactly on the standard alphabet |
| Simd.MaskFindsFirstLane | blueth/utils/simd.hpp:31-40 | the mask is non-zero iff a lane is set, and its trailing zeros are the first such lane |
| Simd.MaskWidth | blueth/utils/simd.hpp:31-33 | the mask of 16 or 32 lanes fits in as many bits |
| Simd.BlockFindsFirstMatch | blueth/utils/simd.hpp:125-135 | a block has a zero mask iff no byte matches, and else the mask leads to its first match |
| Simd.FindChar256 | blueth/utils/simd.hpp:123-140 | the first match or the end, with no block load past the end |
| Simd.FindChar128 | blueth/utils/simd.hpp:142-159 | the first match or the end, with no block load past the end |
| Simd.FirstMatchIsScan | blueth/utils/simd.hpp:137-139 | the first match is what the plain scan finds, and nothing else is |
| FrameDecoder.LineBasedFrameDecoder | blueth/codec/LineBasedFrameDecoder.hpp:33-47 | the frames appended to the results are those of the bytes between begin and end and the byte after them |
| FrameDecoder.Split | blueth/codec/LineBasedFrameDecoder.hpp:39-47 | every input is CR-free lines, each followed by CRLF, and a tail at which decoding stops, the last LF being possibly the byte just after the input; the frames are those of the lines |
| FrameDecoder.FramesAreTheLines | blueth/codec/LineBasedFrameDecoder.hpp:39-47 | any such split gives the frames, one for each line |
| FrameDecoder.ViewAt | blueth/codec/LineBasedFrameDecoder.hpp:43-46 | the i-th frame starts where the i-th segment starts; its length is one less than the line's, wrapped around |
| FrameDecoder.ViewedBytes | blueth/codec/LineBasedFrameDecoder.hpp:43-44 | a frame stays within the text iff its line is not empty, and it then views the line without its last byte |
| FrameDecoder.DecodedBytes | blueth/codec/LineBasedFrameDecoder.hpp:33-47 | the same for what the decoder finds in memory |
| FrameDecoder.EmptyLineLeavesTheText | blueth/codec/LineBasedFrameDecoder.hpp:43-44 | the frame of an empty line has the largest length there is |
| FrameDecoder.StraddlingLine | blueth/codec/LineBasedFrameDecoder.hpp:41-46 | an input that lacks only the LF of its last line, standing just beyond the end, has all its lines framed |
| FrameDecoder.DecodeInParts | blueth/codec/LineBasedFrameDecoder.hpp:39-47 | after a fully consumed part, the rest is decoded as if alone, its frames shifted |
| Vectors.Vector.PushBack | blueth/containers/vector.hpp:74-83 | the item is appended; capacity and copy count keep their relation to the number of growths |
| Vectors.Vector.Reserve | blueth/containers/vector.hpp:207-215 | a larger block with the same elements; as many copies as elements |
| Vectors.CapacityIsLeastPower | blueth/containers/vector.hpp:74-83 | the capacity is the least power of two that holds the elements, and one less than it is below twice their number |
| Vectors.PushAll | blueth/containers/vector.hpp:74-83 | after any pushes on a fresh vector: the contents, the least power of two as capacity, and capacity - 1 < 2n elements copied in all |

## Left out

- Sockets, DNS, TLS, stream clients, the event loop, the proxy, response templates and `UnixTime`: calls into the system and other libraries.
- `MutexSynchronize`, `ThreadSafeQueue`, `Matrix` and `StackArray`: delegation to the standard library.
- The `NewLineNewLine` branch of the frame decoder: its guard accepts a lone newline, so its frames follow no framing rule.
- IOBuffer: moving a buffer, and appending raw bytes that lie in the buffer's own block; `char` is the only element type.
- ThreadPool: memory order inside the critical sections, tasks that never return or throw, a destructor that runs while another thread still submits, and the queries `getActiveThreads` and `getTaskCount`.
- Base64.B64Decode: a text whose length is 1 modulo 4 is followed by a NUL, as a `std::string` is; the decoder reads it.
- Base64: the overflow guard `olen < len`, which cannot fire on sizes without a bound.
- vector: every operation but the default constructor, `push_back` and the growth under it; the others do not keep the elements in a sequence.
- Allocation failure, everywhere.

# Verification of rzsz-nd

rzsz-nd moves files between a server and a terminal over OSC escape sequences. This
project models the parts of it on which the bytes depend, in Dafny 4.11, and proves what
they are for. `dafny verify dfyconfig.toml` checks everything.

**The LZ4 block codec.** `Lz4Format` describes blocks as sequences of literals and matches;
`Lz4Spec` says what each of the two decoders of lz/lz4.c computes on every input, error
positions included. `Lz4Decoder` is the optimised decoder with its fast loop, shortcuts,
wild copies and overlap tables (`Lz4Memory`, `Lz4Overlap`), proved equal to its
specification; `Lz4PlainDecoder` is the byte-at-a-time one, and `Lz4Refinement` says exactly
when the two agree. `Lz4Search`, `Lz4Emit` and `Lz4Compressor` are the match finder and its
three output disciplines for an arbitrary hash function; `Lz4Greedy` says which sequences
they find and what a budget keeps of them, `Lz4Runs` what becomes of a run of equal bytes.
`Lz4Stream` holds the entry points and the table renormalisation. `Lz4RoundTrip` and
`Lz4Streaming` put both sides together.

**The ring buffer.** `Kfifo` is the class with its wrapping 32-bit indices;
`KfifoConcurrent` interleaves one producer and one consumer byte by byte.

**Timers and sessions.** `MinHeap` is the indexed heap, `Worker` the pass over due timers
with callbacks that arm and cancel. `FsmBuild` shows how declarations make a machine, and
that those of osc/RfSession.cpp make the table in `Fsm`; `Session` runs that machine under
the worker, in every order of jobs and timers and against every peer, and says exactly
which course each takes.

**The transport.** `Base64` is the encoder and decoder; `OscFraming` says what a reader of a
whole stream sees, `OscFlow` what parsePkg leaves in the buffer and when reading stops,
`OscRejects` what it does with texts that are no package, and `OscMisses` which streams
that can harm; `OscReceiver` is the receive buffer with its resynchronising parser, under
any order of reads and parses; `OscTransport` joins sendPkg, parsePkg, base64 and LZ4. `ZmodemFile` and
`FileTransfer` are the resume-capable transfer of a file between the two ends.

**The serializers.** `VectorDownward`, `FlatFormat` and `FlatBuilder` are the FlatBuffers
buffer, reader and builder, `FlatDocument` whole programs of builder calls, what they mean,
and that every list of objects has one; `FlexBuilder` is the FlexBuffers builder with its
width choice, `FlexDocument` whole documents, nested vectors and maps included, and their
reader. `Arithmetic`, `Bytes` and `Options` are shared.

Parameters stand for what lies outside: the hash function, the encoder of sendPkg (any
encoder of well-formed blocks), the packages that arrive and the sends that fail, clock
readings, callbacks, the CRC table, and the order in which the worker, the two ends of a
transfer, or the two sides of the ring buffer take their steps.

Where the code does less than its surroundings suggest, the model follows the code:

- The optimised decoder accepts some blocks that break the end-of-block rules
  (lz/lz4.c:2156-2181), and for an empty output it refuses some that the plain decoder
  accepts (lz/lz4.c:1979-1983): `Lz4Refinement.PlainExactly` gives the exact condition,
  `ShortcutAcceptsMore` and `EmptyOutputExample` the blocks. Neither decoder rejects offset 0.
- With a large acceleration the search can step over a whole run of equal bytes, which then
  stays uncompressed (lz/lz4.c:1021-1030): `Lz4Runs.RunLaw` says exactly when.
- The overlap copy may write 12 bytes behind the copied end, where the comment at
  lz/lz4.c:513-515 speaks of 8: `Lz4Overlap.RoomBehind` says exactly when. Its caller leaves 32.
- After a text that is no package, parsePkg keeps its index on that text's end. If it is
  called again when neither a NUL nor a frame start has arrived, the skip loop moves past the
  received bytes (osc/OscSession.cpp:79-85), or, behind an empty text, drops the beginning of
  the next frame. `OscReceiver.ReceiveBuffer.ParsePkg` proves exactly when in one call,
  `OscMisses.MissesExactly` exactly for which streams some order of reads and parses does;
  `SkipPastEndExample` and `LostFrameExample` run into both.
- The reading guard (osc/OscSession.cpp:212-221) can stop a session for good, because bytes
  before an unfinished frame stay in the buffer: `OscFlow.StallsExactly` proves exactly for
  which streams, and `OscTransport.Exchange` that all others are delivered under every
  schedule with enough turns to read.
- base64_decode accepts padding characters anywhere and missing padding.
- An empty source file is declared complete without a look at the receiver's file:
  `FileTransfer.Transfer.HandleFileComplete` says exactly when the file is then the source,
  and `FileTransfer.EmptySourceExample` ends without one.
- A transfer whose remaining bytes fill whole 4096-byte blocks never sends FileComplete:
  `FileTransfer.Transfer.RunToEnd` proves exactly when it is handled, and
  `FileTransfer.WholeBlocksExample` is a transfer in which it is not.
- ToTypedVector gives a fixed vector of keys, which EndVector's assertions allow, the type of
  a fixed vector of numbers (flatbuffers/flexbuffers.h:104-126):
  `FlexDocument.FixedKeysNeverRead`.

## Model

| member | source | states |
|---|---|---|
| Lz4Format.CopyMatchAt | lz/lz4.c:1889-1893 | every byte of a match copy equals the byte `offset` places earlier in the result itself (so short offsets repeat a pattern), offset 0 gives zeros, and nothing before the copy changes |
| Lz4Format.CopyMatchIs | lz/lz4.c:1889-1893 | conversely, bytes already related at distance `offset` are exactly what the copy yields: the characterisation the compressor's matches are checked against |
| Lz4Theorems.ReadRun | lz/lz4.c:1915-1941 | the length reader undoes the 255-run encoding for every length, under the reader's own input limit |
| Lz4Theorems.DecodeSequence | lz/lz4.c:1948-2361 | one encoded sequence (token, literals, offset, match length) decodes to its meaning whichever of the decoder's paths handles it |
| Lz4Theorems.DecodeInvertsEncode | lz/lz4.c:1948-2361 | any list of sequences that keeps the end-of-block rules, with its last literals, decodes to exactly what it denotes |
| Lz4Theorems.BlockDecodes | lz/lz4.c:1948-2361 | every well-formed block for a content decodes to that content, for every history below it and every capacity that holds it |
| Lz4Decoder.ReadVariableLength | lz/lz4.c:1915-1941 | the loop computes the specified length, end position and overrun position, and never reads past the limit |
| Lz4Decoder.FastLiterals | lz/lz4.c:2003-2036 | a fast-loop token leaves what remains to be decoded unchanged in meaning; all writes stay inside the output |
| Lz4Decoder.FastMatch | lz/lz4.c:2038-2122 | same for the fast loop's match, with its 18-byte shortcut and its wild copies |
| Lz4Decoder.FastLoop | lz/lz4.c:2002-2123 | the fast loop terminates, stays in bounds, and hands over to the safe loop a state with the same meaning |
| Lz4Decoder.SafeToken | lz/lz4.c:2132-2193 | the two-stage shortcut means what the long path means |
| Lz4Decoder.SafeLiterals | lz/lz4.c:2196-2267 | last literals end the block exactly at the end of the input, or decoding fails at the position the code reports |
| Lz4Decoder.SafeMatch | lz/lz4.c:2281-2357 | match copies near the end of the buffer, with the bootstrap tables, equal the byte-wise copy and leave what lies beyond the output's end alone |
| Lz4Decoder.DecompressGeneric | lz/lz4.c:1948-2367 | for every input and capacity the optimised decoder terminates, touches nothing outside its output range, and returns exactly the specified size or error position, with exactly the specified bytes |
| Lz4Refinement.DecodedFits | lz/lz4.c:1948-2367 | whatever the input, a success only extends the prefix and never exceeds the capacity |
| Lz4Overlap.ShortOffsetRepeats | lz/lz4.c:456-457 | why inc32table and dec64table work: after 4 and then 8 bytes the adjusted source lies a multiple of the offset back, at least 4 and then 8 bytes |
| Lz4Overlap.CopyFirst8 | lz/lz4.c:477-497 | the bootstrap writes the first eight bytes of the self-overlapping copy and returns a source from which any number of 8-byte strides is right |
| Lz4Overlap.PatternBytes | lz/lz4.c:516-554 | eight bytes of a pattern of length 1, 2 or 4 are the next eight bytes of the copy, at every multiple of eight |
| Lz4Overlap.RoomBehind | lz/lz4.c:513-515 | how many bytes behind the end are written: never more than twelve, and more than the eight of the source's comment exactly for matches of four to seven bytes whose offset is not 1, 2 or 4 |
| Lz4Overlap.MemcpyUsingOffset | lz/lz4.c:516-557 | for every offset and every length from 4 on, in exactly the room that it writes to, the strided copy equals the byte-wise self-overlapping copy, bytes behind the end included |
| Lz4Memory.WildCopy8 | lz/lz4.c:446-454 | copying in strides of eight, with its overshoot, gives the byte-wise copy for distances of at least eight, and stays below the given limit |
| Lz4Memory.WildCopy32 | lz/lz4.c:506-514 | same for two 16-byte copies a step and distances of at least sixteen |
| Lz4PlainDecoder.DecompressUnsafeGeneric | lz/lz4.c:1806-1903 | the byte-at-a-time decoder computes its own specification on input that does not run past its end and has no zero offset |
| Lz4Refinement.PlainAccepted | lz/lz4.c:1806-1903 | fast refines simple: a block that the plain decoder accepts for an output size is accepted by the optimised one with that capacity, with the same bytes, if and only if there is output at all or the block is the one byte 0 |
| Lz4Refinement.PlainOfNothing | lz/lz4.c:1827-1852 | with nothing to decode the plain decoder accepts exactly the one-byte blocks whose token has no literals |
| Lz4Refinement.EmptyOutputExample | lz/lz4.c:1979-1983 | the block [5] for an empty output: accepted by the plain decoder, refused by the optimised one |
| Lz4Refinement.PlainAccepts | lz/lz4.c:2156-2181 | the converse: what the optimised decoder accepts, the plain one accepts if the block fills the output and keeps the end-of-block rules |
| Lz4Refinement.PlainExactly | lz/lz4.c:1806-1903 | both directions at once, for every block, history and capacity: accepted by the plain decoder, and not a non-zero byte for an empty output, if and only if accepted by the optimised decoder with the same bytes, filling the output and keeping the end rules |
| Lz4Refinement.ShortcutAcceptsMore | lz/lz4.c:2156-2181 | a family of blocks that the shortcut accepts and the plain decoder refuses: the rules in PlainExactly cannot be dropped |
| Lz4Search.Job.AcceptableSound | lz/lz4.c:1063-1069 | a candidate that passes the tests made before its bytes are read lies in the readable history, at or above the floor and within 64 KB |
| Lz4Search.PutIndex | lz/lz4.c:797-808 | the slot then holds exactly the index of this position and every other slot what it held; entries stay below the next index, and a 16-bit table gets none that needs 17 bits |
| Lz4Search.FindMatch | lz/lz4.c:1011-1082 | the loop computes the specified search `Probe`, table included: position, match and every slot; what is returned is an earlier position at most 65535 back whose four bytes recur |
| Lz4Search.ProbeExactly | lz/lz4.c:1011-1082 | what a search finds, without its recursion: it finds nothing if and only if at no stop the index last stored in the stop's slot recurs there; otherwise it ends at the first stop where it does, with that match; and every slot then holds the last stop that hashes to it |
| Lz4Search.CatchUp | lz/lz4.c:1085-1087 | extending a match backwards keeps the distance and the equality of all bytes, and goes on until the anchor, the floor or a byte that differs |
| Lz4Search.Count | lz/lz4.c:661-692 | the match length is maximal: all bytes before it agree, and the next differs or is the limit |
| Lz4Greedy.GreedyLongest | lz/lz4.c:1085-1151 | no match of the block can be made longer: each ends at a byte that differs or five bytes before the end of the source, and begins at the last match, at the floor or behind a byte that differs |
| Lz4Greedy.GreedySpan | lz/lz4.c:244-245 | whatever hash and table, the greedy sequences leave the last five bytes of the source as literals |
| Lz4Greedy.FilledAll | lz/lz4.c:1125-1180 | nine bytes of output more than the sequences take are enough to keep all of them when a target is filled |
| Lz4Emit.EmitRun4 | lz/lz4.c:1184-1193 | four length bytes at a time, overshooting, leave exactly the run of the byte-wise loop |
| Lz4Emit.EmitMatch | lz/lz4.c:1146-1199 | offset and match length complete the pending token to the encoding of the whole sequence |
| Lz4Compressor.Literals | lz/lz4.c:1086-1107 | token and literals go out exactly if the limit leaves room for them as the discipline demands; with no limit the documented bound is never passed, overshoot included |
| Lz4Compressor.ClearHash | lz/lz4.c:1168-1180 | after a match is cut short, exactly the slots of the positions that it no longer covers are empty and all others as they were, so that no entry points at or beyond the new position |
| Lz4Compressor.MatchCode | lz/lz4.c:1157-1180 | the whole common length, unless in fill mode its length bytes leave no room for the last literals: then exactly the longest code for which they do |
| Lz4Compressor.NextMatch | lz/lz4.c:1117-1203 | a match extends the encoding of the source read so far by exactly the sequence that the greedy parse has next, whole, cut to the target or not at all |
| Lz4Compressor.LastLiterals | lz/lz4.c:1275-1308 | the block is completed with all that is left if that fits; if not, a limited call gives up, and a target is filled to its last byte or the one before, with as many literals as fit, `consumed` being what the block holds |
| Lz4Compressor.LastRunFits | lz/lz4.c:1278-1290 | the adjusted last run fits together with its own length bytes, and one literal more would not |
| Lz4Compressor.CompressBlock | lz/lz4.c:907-1312 | for every hash, table, acceleration and output discipline: a positive result is a well-formed block of exactly the consumed source, made of exactly the greedy sequences; a limited call gives up if and only if that block is longer than the limit; nothing beyond the limit is written |
| Lz4Compressor.FillsAll | lz/lz4.c:1125-1180 | a target of three bytes more than the greedy block holds that whole block, and the source is consumed to its end |
| Lz4Stream.Stream.constructor | lz/lz4.c:1518-1528 | a fresh stream has no history and no entries |
| Lz4Stream.Stream.CompressGeneric | lz/lz4.c:1318-1349 | special cases included, the call yields exactly the greedy block for the stream's table and offset under its discipline, and moves the current offset on by the input |
| Lz4Stream.Stream.CompressFastExtState | lz/lz4.c:1356-1373 | the result is the size of the greedy block if the budget holds it and 0 if not, and the bytes are that block of the whole source; it keeps the bound, so that with the bound as budget a supported source never fails |
| Lz4Stream.Stream.CompressDestSizeExtState | lz/lz4.c:1455-1464 | for every target of at least one byte the block fits and holds exactly the first `consumed` bytes; if these are not all, the target is filled up to one byte at most; three bytes more than the greedy block takes are enough for all |
| Lz4Stream.RenormKeepsCandidates | lz/lz4.c:1624-1641 | renormalisation leaves exactly the same candidates acceptable from every later position, at the same distances |
| Lz4Stream.Stream.RenormDict | lz/lz4.c:1624-1641 | the loop moves every entry that way, and the dictionary with them, so that the offset is 64 KB again |
| Lz4Stream.Stream.CompressFastContinue | lz/lz4.c:1644-1688 | linked blocks, after renormalisation too: the result is exactly the greedy block over dictionary and source if the budget holds it, else 0; the dictionary then ends where the source ends; a size beyond the supported maximum gives 0 |
| Lz4Runs.RunLaw | lz/lz4.c:1008-1083 | for every hash: on a fresh stream one byte and then n equal bytes take at most n / 255 + 24 bytes if and only if the first byte is no different, or the acceleration lets the search reach the third position, or n is at most 21 |
| Lz4Runs.FoundThird | lz/lz4.c:1054-1080 | the second probe finds the first: both positions hash to one slot, and the first was stored there |
| Lz4Runs.CompressRun | lz/lz4.c:1356-1373 | a limited call of a fresh stream on such a source with that budget succeeds |
| Lz4RoundTrip.Rebase | lz/lz4.c:1948-2361 | a block does not depend on memory below its floor: encoder and decoder may have different bytes there |
| Lz4RoundTrip.RaiseFloor | lz/lz4.c:1948-2361 | with 64 KB of history the floor test can be left out: no two-byte offset reaches lower |
| Lz4RoundTrip.DecompressSafe | lz/lz4.c:2373-2378 | the public entry point returns the specified size or error and the specified bytes, for negative sizes too |
| Lz4RoundTrip.DecompressCompressed | lz/lz4.c:2373-2378 | whatever a compression entry point produced, the decoder returns the source's size and writes exactly the source |
| Lz4RoundTrip.CompressThenDecompress | lz/lz4.c:907-1312 | the round trip as one program, for every source, budget, acceleration and hash |
| Lz4RoundTrip.CompressDestSizeThenDecompress | lz/lz4.c:1278-1307 | filling a target, then decoding with the consumed size as capacity, gives exactly the consumed prefix |
| Lz4Streaming.StreamDecode.DecompressSafeContinue | lz/lz4.c:2553-2577 | decoding goes on where it stopped, with the output so far as history |
| Lz4Streaming.LinkedBlockDecodes | lz/lz4.c:2553-2577 | a block made from the encoder's history is decoded from the decoder's, whichever parts of the history each side may use |
| Lz4Streaming.LinkedBlock | lz/lz4.c:1644-1688 | one linked block keeps the two sides in agreement, and with the documented bound as budget it cannot fail |
| Lz4Streaming.StreamingRoundTrip | lz/lz4.c:2553-2577 | any memory cut into any non-empty blocks, compressed and decoded block by block, comes out unchanged |
| Kfifo.WrapKeepsSlot | io/KfifoBuffer.cpp:55-67 | wrapping an index at 2^32 does not change the slot it names |
| Kfifo.WrapDifference | io/KfifoBuffer.h:45-46 | the difference of two wrapped indices in 32 bits is the true number of unread bytes |
| Kfifo.SlotsDistinct | io/KfifoBuffer.cpp:55-67 | positions less than a buffer apart have different slots |
| Kfifo.KfifoBuffer.constructor | io/KfifoBuffer.cpp:15-30 | whatever size power is asked for, the buffer is valid and empty |
| Kfifo.SizeDoubles | io/KfifoBuffer.cpp:15-30 | the size is 1024 up to power 10, doubles with each power up to 26 and stays at 64 MB from there |
| Kfifo.KfifoBuffer.Put | io/KfifoBuffer.cpp:55-67 | as many bytes as fit are appended to the unread ones, in order |
| Kfifo.KfifoBuffer.Putn | io/KfifoBuffer.cpp:102-116 | all bytes are appended, or none and nothing changes |
| Kfifo.KfifoBuffer.Get | io/KfifoBuffer.cpp:70-85 | the oldest bytes come out and the rest stays |
| Kfifo.KfifoBuffer.Getn | io/KfifoBuffer.cpp:119-136 | all that was asked for comes out, or nothing |
| Kfifo.KfifoBuffer.Peek | io/KfifoBuffer.cpp:88-99 | the oldest bytes are shown and stay |
| Kfifo.KfifoBuffer.Peekn | io/KfifoBuffer.cpp:139-152 | same, all or nothing |
| Kfifo.KfifoBuffer.CommitRead | io/KfifoBuffer.cpp:155-159 | the index moves by whatever length is named; the buffer stays valid if and only if that is no more than the unread bytes, and then exactly these are dropped |
| KfifoConcurrent.CopyInKeeps | io/KfifoBuffer.cpp:55-67 | a byte copied by the producer overwrites no unread byte, whatever the consumer is doing |
| KfifoConcurrent.BeginKeeps | io/KfifoBuffer.cpp:70-85 | a stale reading of the other side's index errs on the safe side |
| KfifoConcurrent.BeginsExactly | io/KfifoBuffer.cpp:55-136 | with u bytes published and unread, put begins to copy exactly the first min(length, size - u) bytes and putn all or none, get to fetch exactly min(length, u) and getn all or none |
| KfifoConcurrent.StepKeeps | io/KfifoBuffer.cpp:55-159 | every step of either side, at every point of the other's operation, keeps the invariant |
| KfifoConcurrent.RunGives | io/KfifoBuffer.cpp:55-116 | what was published, with the bytes being copied, are exactly the parts of the callers' buffers that put and putn took, in order |
| KfifoConcurrent.FifoPrefix | io/KfifoBuffer.cpp:55-159 | under every interleaving, across any number of wraparounds: what was received is a prefix of what put and putn took of their callers' buffers, at most a buffer's worth is published and unread, and every unread byte is in its slot |
| KfifoConcurrent.PutAlone | io/KfifoBuffer.cpp:55-67 | a put that runs alone publishes exactly as many of its first bytes as places are free, whatever the consumer is doing |
| KfifoConcurrent.GetAlone | io/KfifoBuffer.cpp:70-85 | a get that runs alone delivers exactly the oldest unread bytes, as many as asked for and there are |
| KfifoConcurrent.PutThenGet | io/KfifoBuffer.cpp:55-85 | a put and then a get, each alone, deliver the beginning of the unread bytes with those that the put had room for, and leave the rest |
| MinHeap.Heap.ShiftUp | fsm/min_heap.h:146-156 | the hole moves up until the item fits; heap order, back-indices and items are kept |
| MinHeap.Heap.ShiftDown | fsm/min_heap.h:158-172 | same downwards |
| MinHeap.Heap.TopIsLeast | fsm/min_heap.h:83 | no item is due before the one at the top |
| MinHeap.Heap.Push | fsm/min_heap.h:85-90 | one item more, all back-indices exact, heap order kept, capacity grown if needed |
| MinHeap.Heap.Pop | fsm/min_heap.h:92-102 | the item due first leaves and no other |
| MinHeap.Heap.Erase | fsm/min_heap.h:109-128 | any item, wherever it is, leaves and no other; one that is not in the heap is refused |
| Worker.CppWorker.AddLocalTimer | fsm/CppWorker.cpp:72-102 | one timer more, due after its delay; none once the worker was told to stop |
| Worker.CppWorker.CancelLocalTimer | fsm/CppWorker.cpp:106-112 | exactly the client's timer goes, and its pointer is null afterwards |
| Worker.PassAccounted | fsm/CppWorker.cpp:117-137 | whatever the callbacks arm and cancel: due timers fire in order of time, each exactly once unless cancelled first, and none that is not due |
| Worker.PassNamed | fsm/CppWorker.cpp:117-137 | a timer that was cancelled during a pass was named by the callback of a timer that was fired |
| Worker.AllDueFire | fsm/CppWorker.cpp:117-137 | if no callback that runs cancels, exactly the due timers are fired |
| Worker.CppWorker.HandleLocalTimer | fsm/CppWorker.cpp:117-137 | if callbacks arm only positive delays the pass ends with no due timer left; heap, handles and clock are those of `Pass`, in which each timer fired was armed, due and first, and exactly the callbacks of the timers fired have run, each right after its timer was taken; if no callback cancels, exactly the due timers are fired |
| FsmBuild.FiniteStateMachine.AddState | fsm/Fsm.cpp:13-30 | the first state declared is where sessions start, the last where undefined events lead; a second declaration is refused |
| FsmBuild.FiniteStateMachine.AddEvent | fsm/Fsm.cpp:34-40 | one more action at the end of that event's list of the state declared last, and nothing else; before any state, of an entry made for no state |
| FsmBuild.FiniteStateMachine.Build | fsm/Fsm.cpp:13-40 | for every list of declarations: the process stops if and only if a state is declared twice; otherwise a state answers an event with the actions declared between it and the next state, in order |
| FsmBuild.RfListed | osc/RfSession.cpp:29-75 | the source's 43 declarations, written out one by one, give every state and event exactly its row of the table, with INIT as the first state and DESTROY as the last |
| FsmBuild.RfWellDeclared | osc/RfSession.cpp:29-75 | no state is declared twice among them |
| FsmBuild.BuildRf | osc/RfSession.cpp:24-81 | the machine built from these declarations starts in INIT, ends in DESTROY, has exactly the five states and answers as the table does, for every state and event |
| Session.TableForward | osc/RfSession.cpp:29-75 | every change of state in the table leads forward in INIT, INIT_RECV, HANDLE_DATA, END, DESTROY or to an undeclared state |
| Session.ForwardBounded | osc/RfSession.cpp:29-75 | a session visits each state at most once before it stays in DESTROY or leaves the table |
| Session.GoesOn | fsm/Session.cpp:134-150 | an event's action list changes the state at most once, as its last action |
| Session.RfSession.constructor | osc/RfSession.cpp:85-89 | after construction the machine is in INIT with its one timer armed |
| Session.RfSession.AsynHandleEvent | fsm/Session.cpp:78-87 | an event is queued unless the session is marked for deletion or the worker drops it |
| Session.RfSession.NewTimer | fsm/Session.cpp:186-195 | exactly one timer is armed, with the new delay, whether or not one was before |
| Session.RfSession.ResetTimer | fsm/Session.cpp:206-213 | an armed timer starts again with the same delay; none is armed otherwise |
| Session.RfSession.Destroy | osc/OscSession.cpp:278-284 | the first time DESTROY_EVT becomes the last job and every timer goes; when DESTROY is entered again nothing changes |
| Session.RfSession.ChangeState | fsm/Action.cpp:18-60 | exit actions, new state, entry actions: between states there is no timer, afterwards exactly one; an undeclared state ends the process |
| Session.RfSession.HandlePkg | osc/OscSession.cpp:124-192 | what one package posts, restarts or has handled at once, exactly |
| Session.RfSession.ParsePkg | osc/OscSession.cpp:72-197 | every package of the read is handled, in order, with exactly its effect on state, queue and timers |
| Session.PackagesPost | osc/OscSession.cpp:124-192 | packages without a HandleReset leave the state alone and append exactly the events they post, in order, or none once the session is marked for deletion |
| Session.PackagesReset | osc/OscSession.cpp:124-192 | at a HandleReset the events before it are queued and the session goes where the table sends RESET, then the packages behind it are handled there |
| Session.RfSession.HandleEvent | fsm/Session.cpp:91-151 | any event in any reachable state, undefined ones included, leads exactly where the table and the packages that arrive say, posted events included, and keeps the invariant of every run |
| Session.RfSession.TakeJob | fsm/CppWorker.cpp:142-168 | one job has exactly the effect of its event; the session is deleted exactly when DESTROY_EVT was the only job left |
| Session.RfSession.FireFsmTimer | fsm/Session.cpp:170-176 | a timeout always moves strictly forward |
| Session.RfSession.FireInputTimer | osc/OscSession.cpp:201-227 | signal, full buffer or any number of reads: the input timer is armed again and the invariant kept |
| Session.RfSession.Step | fsm/CppWorker.cpp:142-186 | one step of either timer or of one job has exactly the specified effect, keeps the invariant and makes the stated progress |
| Session.RfSession.Run | fsm/CppWorker.cpp:142-186 | every run, in every order of jobs and timers, against every peer, takes exactly the course that table, packages and schedule determine; the session is deleted at most once and then no job and no timer is left; DESTROY_EVT is always the last job once the session is in DESTROY; every other state has exactly one timer armed; states only lead forward; after two timeouts the session is in DESTROY or the process has stopped at an undeclared state; in DESTROY exactly the jobs run have left the queue until the session is deleted |
| Session.AnswerMoves | osc/OscSession.cpp:123-131 | a peer that answers moves the session: a read whose packages post an event, then two jobs, lead an idle session into the state that the table has for that event, the input timer and the other events posted being in place |
| Session.Handshake | osc/RfSession.cpp:29-75 | two answers take a new session from INIT through INIT_RECV to HANDLE_DATA |
| Session.RfSession.RunSilent | osc/RfSession.cpp:29-75 | a silent peer always leads to DESTROY: under every schedule with two timeouts, input timer included, and as many jobs after them as can then be queued, the session is in DESTROY and deleted; the process never stops unless what was queued before asks for it |
| Base64.StrChrIsValue | base64/base64.c:83 | the search of the table finds exactly the 6-bit value of a letter |
| Base64.NextLetters | base64/base64.c:41-48 | the letters taken from the wrapping 32-bit accumulator are the next sextets of section 4 of RFC 4648 |
| Base64.Base64Encode | base64/base64.c:34-58 | the loop writes exactly the encoding of section 4 of RFC 4648, padding included, and nothing after it |
| Base64.Base64Decode | base64/base64.c:75-104 | for every string: -1 exactly for a character outside the alphabet or non-zero bits left over, else the bytes that the letters complete; padding characters count as zero bits wherever they stand |
| Base64.DecodeInvertsEncode | base64/base64.c:34-104 | decoding an encoding gives the bytes back, for every length |
| Base64.EncodeIsPlain | base64/base64.c:20-21 | an encoding contains no control character, so no BEL, NUL or ESC |
| Base64.EncodingFits | osc/OscSession.cpp:328-333 | the size test before encoding leaves room for the padding as well |
| OscFraming.ParseStream | osc/OscSession.cpp:72-125 | for every list of frames, in tmux or not, with anything between them that contains no frame start, a reader of the whole stream gets exactly their texts in order |
| OscFraming.NoStraddle | osc/osc.h:10-11 | no frame start can straddle the bytes before a frame and the frame |
| OscFraming.ReadsFrame | osc/OscSession.cpp:95-125 | taking the first complete frame out is right whatever arrives later |
| OscReceiver.StrStr | osc/OscSession.cpp:78 | strstr as used here: the first occurrence before the first NUL |
| OscFlow.RestOfKept | osc/OscSession.cpp:76-93 | what the skip loop drops plays no part in what parsePkg leaves in the end |
| OscFlow.RestWaits | osc/OscSession.cpp:72-125 | what parsePkg leaves holds no complete frame, and parsing it again changes nothing |
| OscFlow.RestPosition | osc/OscSession.cpp:72-125 | wherever a view of a stream begins and ends, parsing takes every complete frame, keeps the place in the stream, and leaves no more than the last 12 bytes or the next frame from behind the last NUL before it |
| OscFlow.NeverStalls | osc/OscSession.cpp:220-224 | if every frame, with what is kept before it, ends below the reading guard, then under no order of reads and parses the guard stays shut |
| OscFlow.StalledForEver | osc/OscSession.cpp:220-224 | where the guard is shut on an unfinished frame, no further read or parse changes anything |
| OscFlow.StallSchedule | osc/OscSession.cpp:220-224 | if some frame does not fit, reads and parses can be ordered so that the session stalls on it |
| OscFlow.StallsExactly | osc/OscSession.cpp:201-227 | for every stream: some order of reads and parses stops the reading for good if and only if some frame, with the NUL-free bytes before it, reaches 61440 bytes before its end |
| OscFlow.LongGarbageStalls | osc/OscSession.cpp:220-224 | the family of examples: one frame behind garbage without NUL, exactly when garbage, prefix and text come to 61440 bytes |
| OscFlow.TurnsRead | osc/OscSession.cpp:220-224 | without such a frame every read that follows a parse gets at least a byte, until all is read |
| OscReceiver.SkipReads | osc/OscSession.cpp:79-87 | what the skip loop drops, from any index, can never become part of a frame, whatever arrives later, if it ends with a NUL or leaves twelve bytes |
| OscReceiver.DropAll | osc/OscSession.cpp:79-87 | bytes without a frame start may be dropped altogether if and only if they do not end in the beginning of one |
| OscReceiver.Skipped | osc/OscSession.cpp:79-87 | one skip from index 0 or from behind a rejected text: it passes the end exactly if the index is beyond a prefix's length with neither NUL nor frame start ahead, loses the beginning of a frame exactly if the index is a prefix's length and that beginning ends the buffer, and otherwise drops nothing that could matter |
| OscReceiver.FoundReads | osc/OscSession.cpp:95-107 | the frame found by the two searches is the first of what was received |
| OscReceiver.NothingReads | osc/OscSession.cpp:91-98 | when parsePkg waits, no complete frame is left |
| OscReceiver.ReceiveBuffer.EatBuffer | osc/OscSession.h:73-79 | the used bytes go, the unread ones move to the front, the rest is zero |
| OscReceiver.ReceiveBuffer.Receive | osc/OscSession.cpp:245-254 | bytes read under the guard are appended and one NUL at least remains behind them |
| OscReceiver.ReceiveBuffer.FindFrame | osc/OscSession.cpp:76-93 | the skip loop ends at the next frame start and drops nothing that could matter, whatever the index, except exactly when it passes the end or loses a frame's beginning behind a rejected text |
| OscReceiver.SkipPastEndExample | osc/OscSession.cpp:99-114 | one frame with an undecodable text and nothing after it, parsed twice: rejected, then past the end |
| OscReceiver.LostFrameExample | osc/OscSession.cpp:79-87 | an empty text, then a frame whose prefix arrives in two parts, cut anywhere: a reader of the whole stream sees the frame, the session never delivers it |
| OscReceiver.ReceiveBuffer.ParsePkg | osc/OscSession.cpp:72-197 | from every state, also behind a rejected text: exactly the packages of the complete frames are handed over in order, up to the first text that is no package, which posts RESET once; buffer and index are then exactly those of `Parsed`; what is left is all that can matter, if and only if the skip neither overran nor lost a frame's beginning, with the exact condition for each |
| OscReceiver.ReceiveBuffer.Transport | osc/OscSession.cpp:201-227 | every input, texts that are no package included, read in any portions under the guard and parsed at any times: buffer, index, position, texts and overrun are at each end exactly those of `PlayAll`, the packages handed over are those among the texts, in order, with one RESET for each other text; as long as no beginning of a frame was dropped, texts and buffer are what a reader of the whole has; if all texts are packages, there is no overrun, no loss, and the flow is that of `Play` |
| OscRejects.ConsumeKept | osc/OscSession.cpp:76-93 | what the skip loop drops plays no part in the texts that parsePkg takes, up to the first that is rejected, nor in what it leaves |
| OscRejects.Sought | osc/OscSession.cpp:76-93 | from index 0 and from behind a rejected text, parsing goes on exactly at the frame start that the skip loop has found |
| OscRejects.SoundParse | osc/OscSession.cpp:72-125 | texts taken, then what a reader finds in the unused bytes and the input still to come, are what a reader of the whole input finds |
| OscMisses.ConsumeOver | osc/OscSession.cpp:95-125 | wherever a view of a stream begins, the next complete frame is taken and the one behind it is ahead, or it is rejected and stays from behind the last NUL before it |
| OscMisses.SkippedPlace | osc/OscSession.cpp:79-87 | behind a rejected empty text the skip never reaches into a frame if a NUL stands before that frame or its first byte does not fit into the buffer |
| OscMisses.NeverMisses | osc/OscSession.cpp:201-227 | where no rejected text can do harm, under every order of reads and parses the index stays inside the buffer, and the texts taken and those still to be taken are all the texts of the stream |
| OscMisses.MissSchedule | osc/OscSession.cpp:201-227 | where a rejected text can do harm, reads and parses can be ordered so that the index passes the end or a text is lost |
| OscMisses.MissesExactly | osc/OscSession.cpp:201-227 | for every stream of garbage and frames: some order of reads and parses moves past the received bytes or misses a text if and only if a text is rejected that fits into the buffer and is not both empty and right behind a NUL, or is that but the next frame can be cut |
| OscMisses.ShortMissable | osc/OscSession.cpp:99-105 | for texts of at most 8192 letters each frame counts by itself: harm can be done exactly by a text that is no package and is not empty, or has a byte other than NUL before its frame, or whose next frame can be cut |
| OscMisses.PackagesNeverMiss | osc/OscSession.cpp:72-125 | no order of reads and parses does harm to a stream whose texts are all packages |
| OscTransport.Sender.SendPkg | osc/OscSession.cpp:319-345 | a payload whose block has 1 to 6143 bytes goes out as one whole frame; for an empty or a longer block nothing goes out and RESET is posted |
| OscTransport.LettersFit | osc/OscSession.cpp:328-344 | the size limit in bytes: blocks of up to 6143 bytes, and no others, have fewer letters than a text may have |
| OscTransport.SmallIsSent | osc/OscSession.cpp:319-345 | with an encoder that keeps the documented bound every payload of 1 to 6100 bytes is sent |
| OscTransport.SentIsPackage | osc/OscSession.cpp:319-345 | a package that sendPkg sends is one that parsePkg decodes to the same bytes, through LZ4, base64 and the size limits |
| OscTransport.SentArrives | osc/OscSession.cpp:72-125 | for every list of packages the stream reads as exactly those packages in order |
| OscTransport.Exchange | osc/OscSession.cpp:201-227 | for every list of packages, reads of any size and parses in any order: no text is refused, the handlers get the first of the packages sent, and all of them once all is read and parsed, which every schedule with enough turns does if each frame fits below the guard with what is kept before it |
| OscTransport.SentStalls | osc/OscSession.cpp:201-227 | some schedule stops such a session for good if and only if a frame does not fit |
| OscTransport.ShortGarbageArrives | osc/OscSession.cpp:220-224 | less than 53225 bytes of garbage before each package is always short enough |
| ZmodemFiles.ZmodemFile.GetExistLen | io/ZmodemFile.cpp:92-112 | length and checksum of the whole file, block by block; 0 and the initial value if there is none |
| ZmodemFiles.ZmodemFile.ValidateFileCrc | io/ZmodemFile.cpp:156-181 | the proposed length exactly when it is not longer than announced and the file begins with bytes of that checksum, a file shorter than announced being taken as far as it goes |
| ZmodemFiles.ZmodemFile.OpenWrite | io/ZmodemFile.cpp:114-122 | resuming keeps what is there, otherwise the file is empty |
| ZmodemFiles.ZmodemFile.Write | io/ZmodemFile.cpp:124-143 | bytes and position grow together; a file that is not open stays as it is |
| ZmodemFiles.ZmodemFile.Read | io/ZmodemFile.cpp:193-201 | the next bytes of the file; the stream stays good exactly if it got all it asked for |
| FileTransfer.ChainSnoc | osc/OscSession.cpp:497-559 | a further package continues those on their way without gap or overlap |
| FileTransfer.Transfer.HandleFileInfo | osc/OscSession.cpp:631-673 | the receiver proposes the length and checksum of what it has |
| FileTransfer.Transfer.HandleFileProposeStart | osc/OscSession.cpp:437-469 | the sender starts behind the bytes that are already there and are the source's, or says at once that nothing is to be sent |
| FileTransfer.Transfer.HandleFileInitPos | osc/OscSession.cpp:677-700 | the receiver's file is then exactly the source up to that position |
| FileTransfer.Transfer.HandleFileContent | osc/OscSession.cpp:704-751 | in-order content is never refused and extends the source's prefix |
| FileTransfer.Transfer.SendFileContent | osc/OscSession.cpp:497-559 | blocks are sent in order; the last short one is followed by FileComplete, a block-aligned end by NEXT |
| FileTransfer.Transfer.HandleFileComplete | osc/OscSession.cpp:755-787 | the file is the source if and only if the source is not empty or the receiver's file was there and empty |
| FileTransfer.Transfer.Run | osc/OscSession.cpp:437-787 | every order of the two ends' steps: once open, the receiver's file is the source up to its position, nothing is refused, and on FileComplete a non-empty source is there in full, whatever file existed before; the number of steps is bounded, and when nothing is left to do the transfer has ended as `Ended` says |
| FileTransfer.Transfer.EndIsSource | osc/OscSession.cpp:497-559 | how every transfer ends: a non-empty source is there in full, for an empty one the receiver's file is as it was; FileComplete was handled if and only if nothing was to send or the bytes to send do not fill their last 4096-byte block, and NEXT was posted exactly otherwise |
| FileTransfer.Transfer.RunToEnd | osc/OscSession.cpp:437-787 | every fair order of steps comes to that end, within a bound computed from the source |
| FileTransfer.EmptySourceExample | osc/OscSession.cpp:457-461 | an empty source is declared complete and no file is made for it |
| FileTransfer.WholeBlocksExample | osc/OscSession.cpp:513-516 | a source of whole blocks arrives in full, but FileComplete is never sent |
| FlatFormat.FromLEInvertsLE | flatbuffers/flatbuffer_builder.h:312-319 | a scalar written little-endian reads back |
| FlatFormat.ReadsAsBelow | flatbuffers/table.h:29-60 | bytes added at the front change nothing that a table answers |
| FlatFormat.FieldOrDefault | flatbuffers/table.h:45-48 | a table answers with the field that was added, or the reader's default |
| FlatFormat.PointerOrNone | flatbuffers/table.h:50-56 | an offset field leads to the object it was made for |
| VectorDownwards.VectorDownward.Reallocate | flatbuffers/vector_downward.h:269-284 | growth moves both parts of the buffer unchanged and makes the room asked for |
| VectorDownwards.VectorDownward.Push | flatbuffers/vector_downward.h:195-203 | the bytes stand in front of the serialized ones; the scratch pad is untouched |
| VectorDownwards.VectorDownward.ScratchPush | flatbuffers/vector_downward.h:205-209 | the scratch pad grows at its end; the serialized bytes are untouched |
| VectorDownwards.VectorDownward.Pop | flatbuffers/vector_downward.h:224-227 | exactly the bytes pushed last go |
| FlatBuilder.EnterOne | flatbuffers/flatbuffer_builder.h:446-455 | entering one field changes that entry of the vtable and no other |
| FlatBuilder.TableReads | flatbuffers/table.h:29-60 | a table whose vtable holds its fields' places answers with exactly its fields |
| FlatBuilder.ShapeEnd | flatbuffers/flatbuffer_builder.h:422-488 | linking to a new vtable or to one from before: the table reads as its fields, and all earlier tables still as theirs |
| FlatBuilder.FlatBufferBuilder.PushElement | flatbuffers/flatbuffer_builder.h:313-319 | the scalar stands aligned in front of the bytes so far |
| FlatBuilder.FlatBufferBuilder.AddElement | flatbuffers/flatbuffer_builder.h:337-341 | the field is recorded, unless it equals its default |
| FlatBuilder.FlatBufferBuilder.AddOffset | flatbuffers/flatbuffer_builder.h:347-395 | the stored distance leads from the field to the object, after alignment |
| FlatBuilder.FlatBufferBuilder.WriteVTable | flatbuffers/flatbuffer_builder.h:435-455 | the vtable holds its size and each field's place, zero elsewhere; no entry is written twice |
| FlatBuilder.FlatBufferBuilder.FindVTable | flatbuffers/flatbuffer_builder.h:457-473 | what the search finds is a remembered vtable with exactly these bytes; with sharing on, it finds none only if none has them |
| FlatBuilder.LinkDistinct | flatbuffers/flatbuffer_builder.h:457-477 | if no two remembered vtables have the same bytes, this stays so, whether one is reused or a new one is remembered |
| FlatBuilder.FlatBufferBuilder.EndTable | flatbuffers/flatbuffer_builder.h:422-488 | the finished table lies at a multiple of four and reads as exactly the fields added, with vtables shared or not, every earlier table still reads as its own, every byte from before is still there, and with sharing on no vtable is remembered twice |
| FlatBuilder.FlatBufferBuilder.CreateString | flatbuffers/flatbuffer_builder.h:1375-1381 | length, bytes and NUL read back, the length word lies at a multiple of four, and every byte from before is still there |
| FlatBuilder.FlatBufferBuilder.Finish | flatbuffers/flatbuffer_builder.h:1261-1283 | the first word leads to the root, every byte from before is still there, and every field of every table lies, counted from the front of the finished buffer, at a multiple of its own size |
| FlatBuilder.AlignedFromFront | flatbuffers/flatbuffer_builder.h:288-296 | why minalign: in a buffer padded to a multiple of it, what is aligned counted from the end is aligned counted from the front |
| FlatDocument.AfterPrefix | flatbuffers/flatbuffer_builder.h:413-488 | the objects that a part of a program makes are the first of those that the whole makes |
| FlatDocument.KeptReads | flatbuffers/table.h:29-60 | what the builder remembers of its objects is what the reader sees in the buffer |
| FlatDocument.Run | flatbuffers/flatbuffer_builder.h:413-488 | every program of builder calls: it stops only at a call that the assertions forbid, never if the program keeps the calls' rules and the size limits, and every string and table made is where the builder said and reads as exactly what the calls put into it, scalars, references and defaults, however often the buffer moved |
| FlatDocument.NotStopped | flatbuffers/flatbuffer_builder.h:413-488 | a program that nests no tables, makes strings between tables, stores each field once, refers to earlier objects and stays below 64 KB a table and 2 GB in all meets no assertion |
| FlatDocument.FinishDocument | flatbuffers/flatbuffer_builder.h:1261-1283 | in the finished buffer the first word leads to the root, every string and table still reads as what was put into it, and each of them and each field is aligned, counted from the front |
| FlatDocument.ObjsMade | flatbuffers/flatbuffer_builder.h:413-488 | for every list of strings and tables whose references lead to earlier objects there is a program that keeps the rules and makes exactly these objects |
| FlatDocument.BuildObjects | flatbuffers/flatbuffer_builder.h:1261-1283 | every such list is built and finished: each object reads back as it was given, aligned, and the first word leads to the chosen root, with defaults forced or not and vtables shared or not |
| FlatDocument.PairExample | flatbuffers/flatbuffer_builder.h:288-296 | a table with a 64-bit and a 32-bit field is built, finished and aligned |
| FlatDocument.AnswerAlike | flatbuffers/table.h:29-60 | the same table in two buffers answers every field alike: the same bytes, the same object, or the reader's default |
| FlatDocument.CompareSharing | flatbuffers/flatbuffer_builder.h:457-473 | the same program with vtables shared and not shared: every object that both make answers every question alike, and the one that shares remembers no vtable twice |
| FlexBuilder.WidthU | flatbuffers/flexbuffers.h:188-198 | the least width that holds the number |
| FlexBuilder.NextWidthFits | flatbuffers/flexbuffers.h:1529-1543 | what fits a width fits the next one too, although the offset grows with the width |
| FlexBuilder.ElemWidth | flatbuffers/flexbuffers.h:1520-1547 | the loop always returns before it runs out of widths, with the least width that holds the offset at the place computed for it |
| FlexBuilder.KeptFits | flatbuffers/flexbuffers.h:1559-1568 | a value that fits survives being cut to the width: sign-extended, plain or as a way back |
| FlexBuilder.Builder.WriteAny | flatbuffers/flexbuffers.h:1453-1457 | the offset assertion holds, and what is written reads back |
| FlexBuilder.Builder.ChooseWidth | flatbuffers/flexbuffers.h:1607-1630 | the least width from the forced one on that holds the length, the way to the keys and every element at the place reckoned with |
| FlexBuilder.Builder.CreateVector | flatbuffers/flexbuffers.h:1601-1657 | typed, untyped, fixed and map vectors: length, keys, every element and the type table read back at the chosen width, which is the least that holds them |
| FlexBuilder.Builder.EndVector | flatbuffers/flexbuffers.h:1161-1167 | the vector takes its elements' place on the stack and reads back as them, at the least width |
| FlexBuilder.Builder.EndMap | flatbuffers/flexbuffers.h:1212-1217 | the values' vector leads to the keys' vector, and both read back |
| FlexBuilder.Builder.Key | flatbuffers/flexbuffers.h:1068-1084 | the key and its NUL are in the buffer, and with sharing on an equal key adds no byte |
| FlexBuilder.Builder.Finish | flatbuffers/flexbuffers.h:1398-1414 | the buffer ends with the root at a width that holds it, its type and that width |
| FlexDocument.ThingBelow | flatbuffers/flexbuffers.h:273-351 | bytes appended later change nothing that the reader finds, at any depth |
| FlexDocument.VectorMeans | flatbuffers/flexbuffers.h:1161-1167 | a finished vector, typed, untyped or fixed, reads as its elements, whatever is nested in them |
| FlexDocument.MapMeans | flatbuffers/flexbuffers.h:1169-1218 | a finished map reads as its keys and values |
| FlexDocument.Run | flatbuffers/flexbuffers.h:1008-1218 | every program of builder calls, with keys shared or not: it stops only at a call that the assertions forbid, never if the program keeps the calls' rules and the size limit, and the stack stands for what the calls mean |
| FlexDocument.Build | flatbuffers/flexbuffers.h:925-933 | the reader that starts at the end of a finished buffer finds exactly the nested document that the calls mean; a program that keeps the rules and leaves one value is finished |
| FlexDocument.EmitMakes | flatbuffers/flexbuffers.h:1008-1218 | for every well-formed tree there is a program that keeps the rules and means exactly that tree |
| FlexDocument.BuildTree | flatbuffers/flexbuffers.h:1398-1414 | every well-formed tree of limited size is built and reads back as itself |
| FlexDocument.RootOnce | flatbuffers/flexbuffers.h:875-933 | the reader finds one tree at most in any buffer: no two documents have the same bytes |
| FlexDocument.FixedKeysNeverRead | flatbuffers/flexbuffers.h:104-126 | a fixed vector of keys gets the type of a fixed vector of numbers and never reads back |

## Left out

- LZ4 external and attached dictionaries, tables of pointers, partial decoding, loading and saving dictionaries, `fastReset` and the obsolete API: the model is single-segment, with a prefix as history.
- LZ4_NbCommonBytes finds the first different byte by bit counting; the model compares bytes. Compressed input is a value, so decoding in place over its own input is not covered.
- 32-bit builds: tests for pointer and length overflow that exist only there.
- lz4hc.c is not part of this model; sendPkg takes any encoder of well-formed blocks.
- Lz4PlainDecoder.DecompressUnsafeGeneric: asks its caller, as the source's comment does, for blocks that do not run past the input and hold no zero offset; what it reads otherwise is outside any buffer.
- Lz4Stream.Stream.CompressDestSizeExtState: does not say what the table holds after a target was filled; the source forbids using the state further without a reset.
- Lz4Stream.Stream.CompressFastContinue: takes sources that go on where the history ends; others use the external-dictionary mode.
- Lz4Streaming.StreamDecode.DecompressSafeContinue: takes outputs that go on where the last one stopped.
- Lz4Streaming.StreamingRoundTrip: blocks lie contiguously on both sides; moving or separate buffers would need the dictionary modes.
- Kfifo: `& mask` is written as `% size` for the power-of-two size; the high-water marks and release are left out; an atomic access is one step, weaker memory orders are not modelled.
- MinHeap: realloc always succeeds.
- Worker: one thread; the mutex, the condition variable and the time spent waiting are left out.
- Session.RfSession.NewTimer: takes positive delays only, which are all the table has; the immediate timeout for other delays is never reached.
- Session.RfSession.Run: the timers are those of this session (how the heap keeps them is `MinHeap` and `Worker`); progress display, terminal and log output are left out, and what handlers do with files is `FileTransfer`.
- SfSession's table: like RfSession's, but its send states form a cycle, so it has no forward order.
- OscReceiver: what the code does with its memory once its index has passed the received bytes is not modelled; the run ends there.
- OscReceiver.ReceiveBuffer.Transport: reads and parses are steps in any order, while the code's input timer posts a parse for every read and none when exactly 4096 bytes are free.
- FileTransfer: one file, no signal, no I/O error, an unchanged source; that equal checksums mean equal bytes is a hypothesis about the receiver's old file (`CrcTells`).
- ZmodemFile: directories, `tellp` and append-mode details of fstream; a file is a byte sequence with a cursor.
- FlatBuffers: 64-bit regions, vectors, structs, shared strings, file identifiers, size prefixes, generated accessors, verifiers and allocator ownership. Scalars are their little-endian bytes, compared as bytes with the default.
- FlatBuilder.FlatBufferBuilder.AddElement: asks that a field is stored once and that the buffer stays within the 2 GB limit, where the source's assertions object to the one when the table is ended and to the other at the next push.
- FlatBuilder.FlatBufferBuilder.AddOffset: the same as for AddElement.
- FlatDocument.CompareSharing: where two runs stop at different calls, because only one of them has reached the size limit, the objects that both have made are compared.
- FlexBuffers: floating point values, booleans, strings, blobs and indirect values, and the sharing of strings and key vectors. A map's pairs come in the order of their keys, so that the sort in EndMap keeps them; programs of calls stop at a fixed vector of keys.
- The terminal, option parsing, logging and the progress window.

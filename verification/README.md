# Models of MicroPython components

A Dafny model of the parts of MicroPython whose correctness depends on several
functions or on a whole run, with proofs of what they are for.

- Native code assemblers (`AsmBase`, `AsmX64`, `AsmThumb`, `ThumbAssembler`,
  `ThumbConstants`, `ThumbFrame`): two passes over a program of instructions and
  labels must agree on every offset, and the finished bytes must do what was
  meant. x64 code is judged by a decoder of the three instruction forms, ARMv6-M
  code by executing it on the small processor of `ThumbCpu` (Armv6-M Architecture
  Reference Manual, chapters A5 and A6).
- The one-pass JSON loader (`Json`, `JsonLoader`) against the grammar of section 2
  of RFC 4627, written down in `JsonGrammar`; `JsonProofs` follows the loop along
  the grammar, `JsonTrees` unfolds the object graph it builds, `JsonKeys` says what
  becomes of the pending key on any text, and `JsonAccepts` which texts are taken.
- The WebSocket frame reader and writer (`WebSocket`) against frames on a wire,
  over streams that deliver and take bytes in pieces (`Streams`).
- Frame buffers: pixel formats (`PixelFormats`), fills (`FrameBuf`), line and scroll
  (`FrameDraw`) and blit (`FrameBlit`).
- Heaps (`HeapCore`, `Heapq`, `Timeq`), the littlefs current directory
  (`LfsPath`), the mount table (`VfsMount`), lwIP socket queues (`LwipAccept`,
  `LwipRecv`), AES counter mode (`AesCtr`) and base64 (`Base64`).
- `Arith`, `Bits`, `Bytes`, `Paths`, `Seqs` and `Wrappers` hold what these share.

Code that updates fields or arrays in place is a class or a method with loops,
proved against a function of the old state; runs, round trips and invariants are
then lemmas about those functions. A C `assert` is an outcome of the model, a
raised exception an error result. Octets are integers below 256; masks and shifts
on them are written with division and remainder, or with the bitwise functions of
`Bits`.

These results say exactly when something expected of the code fails, each with an
input at which it does:

- order of queued times: `Timeq.OrderIffWindow`, `Timeq.PairwiseNotEnough`. The source
  compares times on a ring; one half-period window must hold all of them, and being
  pairwise close is not enough.
- push order of equal times: `Timeq.TieIffNoWrap`, `Timeq.WrapBreaksFifo`.
- address loads of Thumb code: `ThumbConstants.PcrelExact`, `ThumbAssembler.PcrelFails`.
- the loops of scroll: `FrameDraw.ScrollEndsIff`, `FrameDraw.ScrollStuck`.
- a blit onto itself: `FrameBlit.SelfBlitExact`, `FrameBlit.SmearExample`.
- a second file system at "/": `VfsMount.MountMeans`, `VfsMount.RootTwice`.
- a new mount point that answers for everything below it: `VfsMount.MountAnswers`,
  `VfsMount.DeeperAnswers`.
- keys across closing brackets: `JsonKeys.KeyLeaksIff`, `JsonKeys.LeakExample`.
- texts that are no JSON refused: `JsonAccepts.LoadsIff`, for one that is not
  `JsonKeys.LeakExample`.
- control frames kept from the reader: `WebSocket.WebSocket.OnBody` for one piece,
  `WebSocket.Drain` for a whole wire read byte by byte, `WebSocket.PingLeaks`.
- the message type behind control frames: `WebSocket.KindIsData`,
  `WebSocket.PingTakesType`. The comment in the source says that control frames do not
  alter it; the code lets them.
- a whole frame behind every write, and behind every write that reports success:
  `WebSocket.WholeIffTaken`, `WebSocket.LiesIffTorn`, `WebSocket.TornHeader`.
- an accept queue that starts empty: `LwipAccept.AcceptsAddress`, for any backlog, 256
  being one that fails.
- room for decoded base64: `Base64.OutgrowsIff`, `Base64.ThreeLetters`.

`dafny verify dfyconfig.toml` checks the project.

## Model

| member | source | states |
|---|---|---|
| `AsmBase.AlignUp` | py/asmbase.c:86-89 | alignment moves the offset forward by less than the boundary, and to an even offset if the boundary is even |
| `AsmBase.AlignsToPower` | py/asmbase.c:86-89 | for a power of two the aligned offset is the least multiple at or after the offset |
| `AsmBase.WriteTwice` | py/asmbase.c:61-72 | writing in two pieces is writing the whole, size assert included |
| `AsmBase.ComputeNeverAsserts` | py/asmbase.c:74-84 | for every program with once-placed labels the compute pass fails no label assert and leaves every placed label assigned |
| `AsmBase.ComputePrefix` | py/asmbase.c:48-84 | a label offset, once assigned in the compute pass, is final, and a label placed later lies at or beyond the current offset |
| `AsmBase.PassesAgree` | py/asmbase.c:48-84 | for every program and every generator whose size does not depend on a forward target, the emit pass is at the compute-pass offset after every prefix, and no label or size assert fails unless the run stops with the method-too-big error |
| `AsmBase.StepsAgree` | py/asmbase.c:61-89 | one item keeps the two passes in step |
| `AsmBase.FailureIsFinal` | py/asmbase.c:61-84 | once a pass has failed nothing after it changes the outcome |
| `AsmBase.EmittedBytes` | py/asmbase.c:61-72 | in the finished code each instruction's bytes stand at the offset where the emit pass met it |
| `AsmBase.EmitKeeps` | py/asmbase.c:61-72 | bytes once written below the current offset stay |
| `AsmBase.LabelOffset` | py/asmbase.c:74-84 | a placed label's recorded offset is the offset of its place |
| `AsmBase.BranchBytes` | py/asmbase.c:48-84 | the finished code holds, at a branch's own offset, the encoding for the final place of its label, and ends where the next item starts |
| `AsmBase.ItemBytes` | py/asmbase.c:48-84 | the finished code holds every instruction's encoding, for the label offsets of the end, at its own offset |
| `AsmBase.RoomOf` | py/asmbase.c:74-89 | the first item is at 0, a label takes no room and an alignment moves to the aligned offset |
| `AsmBase.Assembler.StartComputePass` | py/asmbase.c:48-59 | forgets all labels and starts at offset 0 |
| `AsmBase.Assembler.StartEmitPass` | py/asmbase.c:48-59 | allocates exactly the computed number of bytes and keeps the labels |
| `AsmBase.Assembler.WriteBytes` | py/asmbase.c:61-72 | counts in a compute pass, stores in the emit pass, and fails exactly when the code would overflow |
| `AsmBase.Assembler.LabelAssign` | py/asmbase.c:74-84 | assigns once in a compute pass, and in the emit pass fails exactly when the offset has changed |
| `AsmBase.Assembler.AlignTo` | py/asmbase.c:86-89 | moves only the offset, to the aligned one |
| `AsmX64.EncodeForwardStable` | py/asmx64.c:493-535 | the size of jmp, jcc and lea code does not depend on where a forward label ends up |
| `AsmX64.JmpDecodes` | py/asmx64.c:493-513 | whichever form is chosen, the bytes decode to a jump to the label |
| `AsmX64.JccDecodes` | py/asmx64.c:515-535 | whichever form is chosen, the bytes decode to the same condition, the label if it holds and the next instruction if not |
| `AsmX64.LeaDecodes` | py/asmx64.c:591-596 | the bytes decode to the address of the label in the given register, for all sixteen registers |
| `AsmX64.NeverTooBig` | py/asmx64.c:493-535 | no x64 program stops with the method-too-big error |
| `AsmX64.AlwaysAssembles` | py/asmx64.c:493-535 | so every program with once-placed labels assembles, asserts and all |
| `AsmX64.EmittedBranchesLand` | py/asmx64.c:488-535 | in the finished code of every such program below 2 GiB every jmp, jcc and lea decodes to its own label, a jump in two bytes exactly if it goes back over at most 126 bytes |
| `AsmX64.EmittedLaidOut` | py/asmbase.c:61-89 | the items stand in the finished code one after the other from 0 to its end, opaque bytes as given |
| `AsmX64.X64Assembler.JmpLabel` | py/asmx64.c:493-513 | writes the encoding chosen from the label known so far; fails on a label out of range |
| `AsmX64.X64Assembler.JccLabel` | py/asmx64.c:515-535 | writes the encoding chosen from the label known so far; fails on a label out of range |
| `AsmX64.X64Assembler.MovRegPcrel` | py/asmx64.c:591-596 | writes the seven-byte address computation |
| `AsmX64.X64Assembler.EmitAll` | py/asmx64.c:488-535 | one pass of the emitters over a program is a run of the model |
| `AsmX64.X64Assembler.Assemble` | py/asmx64.c:488-535 | both passes over any program with once-placed labels succeed and fill the allocated code exactly, item after item, opaque bytes as given; every branch lands |
| `AsmThumb.InverseNegates` | py/asmthumb.c:557-563 | flipping the low bit of an ARMv6-M condition negates it, for every flag state |
| `AsmThumb.EncodeForwardStable` | py/asmthumb.c:510-565 | the size of b, bcc, constant and address code does not depend on where a forward label ends up |
| `AsmThumb.BLands` | py/asmthumb.c:287-295 | executing the emitted b arrives at the label with nothing else changed |
| `AsmThumb.BccLands` | py/asmthumb.c:542-565 | executing the emitted bcc, short or as inverted branch over a long one, arrives at the label if the condition holds and behind the code if not |
| `AsmThumb.BccSize` | py/asmthumb.c:542-563 | a bcc takes two bytes exactly if its label is at most 252 bytes back, else four |
| `ThumbConstants.MovI16Maps` | py/asmthumb.c:279-283 | mov, lsl, add leave the unsigned 16-bit value, from any register contents |
| `ThumbConstants.MovI32Maps` | py/asmthumb.c:332-364 | at either alignment the literal load leaves the word, jumps over it and changes no other register |
| `ThumbConstants.ShiftBack` | py/asmthumb.c:385-390 | a constant with at most eight significant bits is its shifted byte, 0x80000000 included |
| `ThumbConstants.MovConstMaps` | py/asmthumb.c:366-406 | for every 32-bit constant, low register and even offset the chosen sequence leaves exactly that constant, changes nothing but flags and falls through |
| `ThumbConstants.ShiftTestIff` | py/asmthumb.c:385-388 | the count of leading and trailing zeros finds exactly the numbers with at most eight significant bits |
| `ThumbConstants.CountsBound` | py/asmthumb.c:385-387 | the assert on the two counts never fires |
| `ThumbConstants.ConstSize` | py/asmthumb.c:366-406 | which sequence is chosen for a constant, by its size: two bytes for a byte, four for a shifted one, six for sixteen bits, two more for the negative of such, else the literal load with its padding |
| `ThumbConstants.MovPcrelMaps` | py/asmthumb.c:443-458 | what address the pc-relative sequence leaves, for every distance |
| `ThumbConstants.PcrelExact` | py/asmthumb.c:443-458 | that address is the label's, low bit set, if and only if the distance fits 16 signed bits; the generator does not test it |
| `ThumbAssembler.EvenOffsets` | py/asmthumb.c:222-229 | every item of a Thumb program starts at an even offset |
| `ThumbAssembler.EmittedBranchesLand` | py/asmthumb.c:510-565 | in the finished code of every assembled Thumb program every b (two bytes) and bcc (two bytes for a near label behind it, else four), executed, arrives at its own label, and every address load leaves the address computed from its own label |
| `ThumbAssembler.EmittedConstantsLoad` | py/asmthumb.c:366-406 | in the finished code of every assembled Thumb program every constant load, executed, leaves its constant and goes on behind it |
| `ThumbAssembler.EmittedLaidOut` | py/asmbase.c:61-89 | the items stand in the finished code one after the other from 0 to its end, opaque bytes as given |
| `ThumbAssembler.EncodesInReach` | py/asmthumb.c:514-540 | a known label is refused exactly if the displacement of the b, as a 32-bit number, is not in -0x800..0x7ff; for bcc that of the b two bytes on |
| `ThumbAssembler.ComputePasses` | py/asmthumb.c:510-565 | the compute pass gets past an item exactly if the label behind it is in that reach; a label still to come never stops it |
| `ThumbAssembler.ComputeRuns` | py/asmthumb.c:510-565 | the compute pass finishes if and only if every b and bcc is in reach of the label behind it |
| `ThumbAssembler.EmitRuns` | py/asmthumb.c:510-565 | the emit pass then finishes if and only if every label is in reach of every b and bcc to it |
| `ThumbAssembler.PcrelFails` | py/asmthumb.c:443-458 | an assembled program whose address load, over 36 kB, leaves a word other than the label's address |
| `ThumbAssembler.Thumb.EmitOp` | py/asmthumb.c:222-229 | writes one little-endian halfword |
| `ThumbAssembler.Thumb.MovRloI16` | py/asmthumb.c:279-283 | writes the three-instruction sequence |
| `ThumbAssembler.Thumb.MovRegI32` | py/asmthumb.c:332-364 | writes the aligned literal load |
| `ThumbAssembler.Thumb.MovRegI32Optimised` | py/asmthumb.c:366-406 | writes the sequence chosen for the constant, negation undone where it is not used |
| `ThumbAssembler.Thumb.BLabel` | py/asmthumb.c:510-540 | writes the branch for the label known so far; reports a method too big exactly for a known label out of its twelve-bit reach |
| `ThumbAssembler.Thumb.BccLabel` | py/asmthumb.c:542-565 | writes the short or the inverted long branch for the label known so far; reports a method too big exactly for a known label out of reach of the long one |
| `ThumbAssembler.Thumb.MovRegPcrel` | py/asmthumb.c:443-458 | writes the ten-byte address computation |
| `ThumbAssembler.Thumb.AdjustSp` | py/asmthumb.c:182-212 | writes as many 127-word adjustments as needed and the remainder |
| `ThumbAssembler.Thumb.Entry` | py/asmthumb.c:140-194 | writes the entry sequence and stores what exit needs |
| `ThumbAssembler.Thumb.Exit` | py/asmthumb.c:196-215 | writes the exit sequence for what entry stored |
| `ThumbAssembler.Thumb.Assemble` | py/asmthumb.c:510-565 | both passes over any Thumb program fail no assert; it is assembled if and only if every b, and every b of a bcc, has its displacement in -0x800..0x7ff, the compute pass stopping exactly for those behind; then every item stands where it was laid out, opaque bytes as given, every label reference lands and every constant loads |
| `ThumbFrame.AdjustRuns` | py/asmthumb.c:182-212 | executing the adjustment loop's output moves sp by the whole amount and changes nothing else |
| `ThumbFrame.PushHolds` | py/asmthumb.c:140-174 | after the push, r4 to r7 and lr stand in the five topmost words of the frame |
| `ThumbFrame.EntryRuns` | py/asmthumb.c:140-194 | executing the entry code arrives behind it with the frame set up |
| `ThumbFrame.LocalsFit` | py/asmthumb.c:111-173 | for every number of locals the slots end below the saved r4 to r7 and return address |
| `ThumbFrame.FrameFits` | py/asmthumb.c:136-173 | the frame is the smallest multiple of eight bytes with that room |
| `ThumbFrame.FrameRestores` | py/asmthumb.c:122-215 | for every number of locals, entry keeps sp aligned to 8 bytes, and exit after any body that keeps the frame restores sp and r4 to r7 and continues at the return address |
| `JsonGrammar.Utf8RoundTrip` | extmod/modujson.c:174-175 | the bytes added for a code point are its shortest form and decode to it (section 3 of RFC 3629) |
| `JsonGrammar.UnescapeTable` | extmod/modujson.c:149-164 | the letters b, f, n, r, t, quote, backslash and slash stand for the characters of section 2.5 of RFC 4627 |
| `JsonGrammar.FloatMark` | extmod/modujson.c:189-219 | float conversion is chosen exactly for a number with a decimal point or an exponent mark |
| `JsonGrammar.NumeralKind` | extmod/modujson.c:189-219 | every number of section 2.4 of RFC 4627 is among those covered, and has such a mark exactly if it has a fraction or an exponent |
| `JsonProofs.ScanChars` | extmod/modujson.c:143-188 | every valid string text is read as the string it means, escapes by the table of section 2.5 of RFC 4627 and \u by UTF-8 |
| `JsonProofs.LexLeaf` | extmod/modujson.c:119-220 | every keyword, number and string text is read as that one value and nothing more; a number as a float exactly if it has a fraction or an exponent |
| `JsonProofs.RunOpen` | extmod/modujson.c:254-278 | where a value is expected an opening bracket links a new container and leaves no key pending inside it, so one key variable is enough |
| `JsonProofs.RunValue` | extmod/modujson.c:102-280 | the loop on the text of any value, of any depth and spacing, builds that value in the open container and goes on behind it |
| `JsonProofs.LoadsDocument` | extmod/modujson.c:90-299 | the loop on any document text ends with the heap image of its value |
| `JsonTrees.TreeFrame` | extmod/modujson.c:254-279 | attaching to a container leaves every value opened later, and their trees, as they were |
| `JsonTrees.BuildTree` | extmod/modujson.c:254-279 | the container graph built for a value unfolds to the meaning of its text |
| `JsonTrees.LoadCorrect` | extmod/modujson.c:90-299 | for every valid document (section 2 of RFC 4627; number conversion abstract) the loader returns an object graph that unfolds to the document's value, escapes by their table, later equal keys winning |
| `JsonKeys.RoundsRun` | extmod/modujson.c:102-280 | the rounds the key statements speak of are those of the load |
| `JsonKeys.RoundsSettled` | extmod/modujson.c:102-280 | while dictionaries are closed even, the nesting of the tokens alone says how far the loader gets and whether a key is pending |
| `JsonKeys.KeyLeaksIff` | extmod/modujson.c:230-278 | for every text: some closing bracket finds a key pending if and only if, by the nesting of its tokens, some dictionary is closed with an odd number of things directly inside before anything ends the load; it happens at the first such one |
| `JsonKeys.LeakExample` | extmod/modujson.c:230-278 | a text whose inner dictionary is closed behind its key; the outer dictionary then stores the next string under that key |
| `JsonAccepts.BadIff` | extmod/modujson.c:107-246 | nothing is read exactly where a keyword is misspelled, a string has no end or a character starts nothing |
| `JsonAccepts.RoundsTrack` | extmod/modujson.c:102-280 | for every text the tokens alone say how far the loader gets, which containers are open, and that a key is pending exactly if the dictionaries have got an odd number of things so far |
| `JsonAccepts.LoadsIff` | extmod/modujson.c:90-299 | for every text, valid or not: it is loaded if and only if every token up to some one lets the load go on (inside a container; a container in a dictionary behind a key; brackets closed within another) and there the one value is complete with only white space behind it, or the text is over with one container open |
| `JsonLoader.LoadUnicode` | extmod/modujson.c:165-173 | the digit loop with its byte arithmetic |
| `JsonLoader.LoadString` | extmod/modujson.c:143-188 | the string loop reads what the scan function reads, or fails at the end of input |
| `JsonLoader.LoadNumber` | extmod/modujson.c:189-219 | the number loop takes all number characters and decides for float by dot or exponent |
| `JsonLoader.LoadKeyword` | extmod/modujson.c:119-142 | the chained comparisons succeed exactly on the keyword |
| `JsonLoader.NextToken` | extmod/modujson.c:107-246 | the switch reads the token the text starts with |
| `JsonLoader.FinishAt` | extmod/modujson.c:281-295 | trailing whitespace only, and exactly one object |
| `JsonLoader.Load` | extmod/modujson.c:90-299 | the one-pass loop returns the model's result on every text, on every valid document text an object graph of the document's value, and a syntax error exactly for the texts whose tokens do not end well |
| `Streams.RwWhole` | py/stream.c:48-85 | the writing loop writes everything if and only if the stream refuses nothing on the way, and then reports no error |
| `Streams.RwStops` | py/stream.c:48-85 | it falls short without an error if and only if the stream answers with no byte taken, or would block behind some bytes |
| `Streams.HealthyFlows` | py/stream.c:48-85 | a blocking write to a stream that is slow but does not fail is whole, however it is cut up |
| `Streams.Stream.WriteExactly` | py/stream.c:48-85 | the loop, with a would-block behind some bytes taken for success |
| `WebSocket.BufferFits` | extmod/moduwebsocket.c:80-92 | buffer position plus bytes still to receive never exceed the six-byte buffer |
| `WebSocket.AfterHeaderInv` | extmod/moduwebsocket.c:95-144 | the header step keeps the reader in step with the frames on the wire (section 5.2 of RFC 6455) |
| `WebSocket.AfterOptInv` | extmod/moduwebsocket.c:146-162 | so does the step over extended length and mask |
| `WebSocket.PayloadChunk` | extmod/moduwebsocket.c:164-192 | any chunk of a payload, unmasked at the running mask position, is the next part of the frame, and of the message unless it is a control frame (section 5.3 of RFC 6455) |
| `WebSocket.EndMeansDone` | extmod/moduwebsocket.c:81-85 | at the end of the wire nothing is left to deliver |
| `WebSocket.QuietLeaksNothing` | extmod/moduwebsocket.c:194-213 | no part of a control payload of at most one byte can be handed to the reader |
| `WebSocket.PingLeaks` | extmod/moduwebsocket.c:164-213 | a ping of two bytes read one byte at a time hands its first byte to the reader |
| `WebSocket.WebSocket.FillBuf` | extmod/moduwebsocket.c:81-92 | partial reads resume: the buffer fills over calls, the reader stays in step, and a stream that delivers is advanced |
| `WebSocket.WebSocket.OnHeader` | extmod/moduwebsocket.c:95-144 | takes over length, flags and what to receive next from the header bytes |
| `WebSocket.WebSocket.OnOpt` | extmod/moduwebsocket.c:146-162 | takes over extended length and mask, alone or together |
| `WebSocket.WebSocket.UnmaskInPlace` | extmod/moduwebsocket.c:178-181 | unmasks in place with the wrapping mask position |
| `WebSocket.WebSocket.ReadPayload` | extmod/moduwebsocket.c:172-183 | the next bytes of the payload, unmasked; none only if none were asked for |
| `WebSocket.WebSocket.OnBody` | extmod/moduwebsocket.c:164-213 | a piece of a data frame is the caller's; a piece of a control frame is handed over if and only if the stream is about to deliver some of it and less than completes the frame; the read ends as closed if and only if the frame has opcode 8 and is completed |
| `WebSocket.WebSocket.Read` | extmod/moduwebsocket.c:77-217 | for any chopping, would-block answers, buffer sizes and control payloads: message bytes returned, followed by what is still to come, are what was still to come; every other outcome loses nothing; a read that reports a close finished a frame of opcode 8 last and no other on the way, and answered it with 0x88 0x00 as a message, any other read finished none; the type left is that of the last header read that is no continuation; on a stream that delivers each call advances or sees the end |
| `WebSocket.WebSocket.FinishBody` | extmod/moduwebsocket.c:184-213 | what becomes of a complete or incomplete frame: handed over, skipped, or answered as a close |
| `WebSocket.HeaderType` | extmod/moduwebsocket.c:100-111 | a header sets the message type to its opcode unless it is a continuation |
| `WebSocket.KindIsData` | extmod/moduwebsocket.c:100-111 | the type is a data frame's if and only if no control frame came after the last frame that names one; the comment in the code promises it always |
| `WebSocket.PingTakesType` | extmod/moduwebsocket.c:100-111 | a ping behind a text message takes its type over |
| `WebSocket.WebSocket.Write` | extmod/moduwebsocket.c:219-255 | header, then data unless the header reported an error, through the stream's writing loop, with the blocking switch around them |
| `WebSocket.WholeIffTaken` | extmod/moduwebsocket.c:219-255 | a whole frame goes out if and only if the stream takes header and data without refusal, and then the write reports all of the data |
| `WebSocket.LiesIffTorn` | extmod/moduwebsocket.c:241-254 | a write reports all of the data without an error, and has not sent the frame, if and only if the header is cut short without an error and the data is then taken |
| `WebSocket.BlockingTaken` | extmod/moduwebsocket.c:234-250 | with the blocking option that is so for every stream that is only slow |
| `WebSocket.TornHeader` | extmod/moduwebsocket.c:241-244 | without it: a would-block behind the first header byte goes unnoticed, and the write reports success for a frame without its length byte |
| `WebSocket.Drain` | extmod/moduwebsocket.c:77-217 | over any number of reads of any sizes the bytes returned are a prefix of the unmasked data payloads unless a control payload of two or more bytes leaked; enough reads of a stream that delivers see the end, and then they are all of them; read byte by byte to the end, something leaks if and only if there is such a control payload |
| `WebSocket.WrittenIsFrame` | extmod/moduwebsocket.c:219-255 | what is written is the wire form of one complete unmasked frame with the data as payload |
| `WebSocket.WritesAreFrames` | extmod/moduwebsocket.c:219-255 | any messages written are a wire of frames whose payloads are the messages |
| `WebSocket.Exchange` | extmod/moduwebsocket.c:77-255 | messages written over any slow stream and read over any chopping, with any sizes, come back in order, and complete if the stream delivers and enough is read |
| `PixelFormats.FieldPut` | extmod/modframebuf.c:69-180 | a field of a unit reads back as it was set |
| `PixelFormats.FieldKeep` | extmod/modframebuf.c:69-180 | setting a field leaves the unit's other fields |
| `PixelFormats.DistinctFields` | extmod/modframebuf.c:69-223 | in every format two different pixels within the stride never share a field |
| `PixelFormats.EveryField` | extmod/modframebuf.c:69-223 | every field of the buffer is a pixel, so statements about all pixels cover padding too |
| `PixelFormats.SetPixAt` | extmod/modframebuf.c:69-223 | setting a pixel changes it to the colour and no other pixel |
| `PixelFormats.BlankPixel` | extmod/modframebuf.c:69-223 | the unit and the bits of it that one pixel takes, in each of the seven formats |
| `PixelFormats.BitPut` | extmod/modframebuf.c:69-100 | the mask and shift of the one-bit formats set one bit field and nothing else |
| `PixelFormats.QuadPut` | extmod/modframebuf.c:141-147 | so do those of the two-bit format with its field |
| `PixelFormats.BitGet` | extmod/modframebuf.c:75-104 | shift and mask read the bit field |
| `PixelFormats.QuadGet` | extmod/modframebuf.c:149-153 | shift and mask read the two-bit field |
| `PixelFormats.RoundUp` | extmod/modframebuf.c:286-301 | the stored stride is the given one rounded up to whole units, or 0 when that does not fit sixteen bits |
| `PixelFormats.StoredFits` | extmod/modframebuf.c:266-307 | width, height and stride are stored in sixteen bits, numbers of that range as they are, the width for a missing stride |
| `PixelFormats.SeparateIff` | extmod/modframebuf.c:266-307 | no two pixels of the picture share a place if and only if the stride is at least the width or there is only one row of units |
| `PixelFormats.DrawnUnique` | extmod/modframebuf.c:69-231 | a redrawn area determines the whole buffer |
| `FrameBuf.CoversIff` | extmod/modframebuf.c:266-307 | every pixel is inside the buffer if and only if the last one is |
| `FrameBuf.FrameBuffer.constructor` | extmod/modframebuf.c:266-307 | any sizes are accepted and cut to sixteen bits; the object is usable exactly when the stored stride is at least the width and the last pixel is inside the buffer |
| `FrameBuf.MakeNew` | extmod/modframebuf.c:266-307 | a number below 7 (of its low eight bits) makes an object of that format over the buffer, any other is an error; it is usable exactly if the picture fits the stride and the buffer |
| `FrameBuf.FrameBuffer.SetPixel` | extmod/modframebuf.c:69-245 | in every format redraws exactly the pixel |
| `FrameBuf.FrameBuffer.GetPixel` | extmod/modframebuf.c:75-249 | in every format reads the pixel |
| `FrameBuf.FrameBuffer.MonoHorizFill` | extmod/modframebuf.c:81-93 | redraws exactly the rectangle, column by column, both bit orders |
| `FrameBuf.FrameBuffer.MvlsbFill` | extmod/modframebuf.c:107-117 | redraws exactly the rectangle |
| `FrameBuf.FrameBuffer.Rgb565Fill` | extmod/modframebuf.c:129-137 | redraws exactly the rectangle, with one running pointer |
| `FrameBuf.FrameBuffer.Gs2Fill` | extmod/modframebuf.c:155-161 | redraws exactly the rectangle |
| `FrameBuf.FrameBuffer.Gs4Row` | extmod/modframebuf.c:192-208 | for every parity of start and width redraws exactly the row's pixels and leaves the pointer (w + 1) / 2 bytes on |
| `FrameBuf.FrameBuffer.Gs4Fill` | extmod/modframebuf.c:183-212 | redraws exactly the rectangle, the pointer advancing half the stride each row |
| `FrameBuf.FrameBuffer.Gs8Fill` | extmod/modframebuf.c:225-231 | redraws exactly the rectangle |
| `FrameBuf.FrameBuffer.FillRect` | extmod/modframebuf.c:251-264 | for any rectangle, partly or wholly outside, redraws exactly its part on the screen |
| `FrameBuf.FillIsSetPixels` | extmod/modframebuf.c:69-264 | a fill leaves the very buffer that setpixel on each of the area's pixels leaves, in any order |
| `FrameDraw.HalfPixel` | extmod/modframebuf.c:453-470 | every visited point is within half a pixel of the ideal line |
| `FrameDraw.MinorNext` | extmod/modframebuf.c:464-469 | the error term calls for at most one minor step per major step and is kept exactly |
| `FrameDraw.LineEnds` | extmod/modframebuf.c:418-474 | the line runs from its first end point to its last, all directions, steep or not |
| `FrameDraw.LineConnected` | extmod/modframebuf.c:453-470 | consecutive points touch and differ |
| `FrameDraw.Line` | extmod/modframebuf.c:408-477 | redraws exactly the visible points of that line |
| `FrameDraw.ScanEnds` | extmod/modframebuf.c:532-552 | a scroll loop meets its end if and only if the step is no larger than the size |
| `FrameDraw.ScrollEndsIff` | extmod/modframebuf.c:528-557 | both loops of scroll end if and only if the vertical step fits and the horizontal one does too or no row is left |
| `FrameDraw.ScrollStuck` | extmod/modframebuf.c:528-557 | an 8 by 8 buffer and a step of 9 to the right: however far it runs, the inner loop does not meet its end |
| `FrameDraw.SourceIntact` | extmod/modframebuf.c:551-555 | whatever the signs, a pixel is read before it is overwritten |
| `FrameDraw.Scroll` | extmod/modframebuf.c:528-557 | in place equals copying from a snapshot: pixels with a source on the screen get its old value, all others stay |
| `FrameBlit.BlitDraws` | extmod/modframebuf.c:480-525 | the scan redraws exactly the clipped pixels not of the key colour, from the source, or from what the scan has left of it |
| `FrameBlit.SelfBlitExact` | extmod/modframebuf.c:480-525 | with any key, a buffer blitted onto itself gets a copy of its old picture whatever the contents if and only if the move is not down nor level to the right, or is by at least half the width or half the height |
| `FrameBlit.SmearExample` | extmod/modframebuf.c:480-525 | three pixels blitted one to the right of themselves become three copies of the first |
| `FrameBlit.Blit` | extmod/modframebuf.c:480-525 | from any buffer, the same one included, and of any formats: the loops leave what the scan function says |
| `HeapCore.SiftDownHeap` | extmod/moduheapq.c:41-54 | moving larger parents down from a hole leaves the subtree a heap |
| `HeapCore.BubbleHeap` | extmod/moduheapq.c:56-68 | bubbling a hole to a leaf keeps the heap |
| `HeapCore.SiftUpHeap` | extmod/moduheapq.c:56-71 | going to a leaf and sifting back only to the start leaves the start's subtree a heap |
| `HeapCore.SiftUpWithin` | extmod/moduheapq.c:56-71 | and moves nothing outside that subtree |
| `HeapCore.SiftUpItems` | extmod/moduheapq.c:56-71 | and is a permutation |
| `HeapCore.PushHeap` | extmod/moduheapq.c:73-78 | push keeps the heap and adds exactly the item |
| `HeapCore.PopHeap` | extmod/moduheapq.c:81-94 | pop takes a least item, removes exactly it and keeps the heap |
| `HeapCore.HeapifyHeap` | extmod/moduheapq.c:97-103 | the heapify loop turns any list into a heap that is a permutation of it |
| `HeapCore.PopAllSorts` | extmod/moduheapq.c:81-94 | popping until empty yields the items sorted |
| `Heapq.PyList.SiftDownAt` | extmod/moduheapq.c:41-54 | the in-place loop computes the sift-down function |
| `Heapq.PyList.SiftUpAt` | extmod/moduheapq.c:56-71 | the in-place loops compute the sift-up function |
| `Heapq.PyList.HeapPush` | extmod/moduheapq.c:73-78 | appends and sifts |
| `Heapq.PyList.HeapPop` | extmod/moduheapq.c:81-94 | returns the first item; an empty heap is an error and unchanged |
| `Heapq.PyList.Heapify` | extmod/moduheapq.c:97-103 | runs sift-up from the last parent to the root |
| `Heapq.HeapifyPopSorts` | extmod/moduheapq.c:81-103 | heapify then pop until empty sorts any list, for every strict weak order |
| `Timeq.TimeLessRing` | extmod/modutimeq.c:62-75 | with its unsigned and signed word arithmetic the comparison is ring distance below half the period, ties by id |
| `Timeq.OrderIffWindow` | extmod/modutimeq.c:62-75 | it is total and transitive on a set of ticks if and only if one half-period window holds them all |
| `Timeq.PairwiseNotEnough` | extmod/modutimeq.c:62-75 | three ticks pairwise within half a period can be in a cycle |
| `Timeq.PopsEarliest` | extmod/modutimeq.c:142-164 | pop takes the earliest entry in ring order, the first pushed among equal times |
| `Timeq.RunsPopInOrder` | extmod/modutimeq.c:88-164 | over every run that stays in a window, other queues pushing in between: a heap, pushed equals popped plus held, each pop the earliest; and until the shared id counter wraps equal times are popped in push order |
| `Timeq.RunsConserve` | extmod/modutimeq.c:88-164 | over every run, whatever the times, pushed equals popped plus held and the queue keeps its size |
| `Timeq.TieIffNoWrap` | extmod/modutimeq.c:66-70 | two entries of one time compare in push order if and only if the counter, as many pushes on as they lie apart, has not wrapped; within one round of the counter that is when both counts lie in the same round |
| `Timeq.WrapBreaksFifo` | extmod/modutimeq.c:66-139 | two pushes at one time across the wrap: the second is popped first |
| `Timeq.Utimeq.SiftDownAt` | extmod/modutimeq.c:88-102 | the array loop computes the sift-down function |
| `Timeq.Utimeq.SiftUpAt` | extmod/modutimeq.c:104-122 | the array loops compute the sift-up function |
| `Timeq.Utimeq.HeapPush` | extmod/modutimeq.c:124-139 | pushes with the next word-sized id of the counter all queues share; a full queue is an error and unchanged |
| `Timeq.Utimeq.HeapPop` | extmod/modutimeq.c:142-164 | returns the first entry's data; an empty queue is an error and unchanged |
| `Timeq.Replay` | extmod/modutimeq.c:124-164 | a queue driven through any run holds what the run holds and hands out what it pops |
| `LfsPath.CompsRender` | extmod/vfs_lfsx.c:285-333 | a stored directory followed by more text reads back as its names and then the rest |
| `LfsPath.RenderInjective` | extmod/vfs_lfsx.c:339-347 | the buffer determines the directory |
| `LfsPath.TargetJoin` | extmod/vfs_lfsx.c:271-336 | two changes of directory are one along the joined path |
| `LfsPath.DownUp` | extmod/vfs_lfsx.c:314-331 | entering a name and then its parent comes back |
| `LfsPath.CwdNames` | extmod/vfs_lfsx.c:339-347 | what getcwd returns names the directory from anywhere |
| `LfsPath.LfsVfs.Squeeze` | extmod/vfs_lfsx.c:303-310 | cuts the slashes before the next component |
| `LfsPath.LfsVfs.StepBack` | extmod/vfs_lfsx.c:318-325 | goes back to the end of the parent directory, or stays at the root |
| `LfsPath.LfsVfs.TakeName` | extmod/vfs_lfsx.c:311-331 | drops dot, steps back for two dots, keeps a name; the unprocessed rest shrinks |
| `LfsPath.LfsVfs.Normalise` | extmod/vfs_lfsx.c:295-333 | the in-place loop terminates with the directory that the fold over the components gives, each name closed by a slash |
| `LfsPath.LfsVfs.Chdir` | extmod/vfs_lfsx.c:271-336 | fails exactly when the full path is not the root and not a directory, changing nothing; else the directory becomes the fold of the path over the old one, or over the root for an absolute path |
| `LfsPath.LfsVfs.Getcwd` | extmod/vfs_lfsx.c:339-347 | changing to the result, from any directory, comes back here |
| `VfsMount.CoversIffPrefix` | extmod/vfs.c:75-83 | the string test is: the mount point's components start the path's |
| `VfsMount.MountKeeps` | extmod/vfs.c:236-258 | mounting keeps the table in order |
| `VfsMount.UmountKeeps` | extmod/vfs.c:264-287 | unmounting keeps it, and no current directory is left dangling |
| `VfsMount.ChdirKeeps` | extmod/vfs.c:322-342 | changing directory keeps it |
| `VfsMount.RunKeeps` | extmod/vfs.c:201-342 | after any run of mount, umount and chdir no earlier entry is a component prefix of a later one, roots come last and the newest first, and the current directory is the virtual root or mounted |
| `VfsMount.LookupLongest` | extmod/vfs.c:57-93 | then lookup gives the current file system for a relative path in one, the virtual root for an empty path, else nothing exactly when no mount holds the path, or the mount with the longest component prefix, of several roots the newest, and what follows it |
| `VfsMount.MountMeans` | extmod/vfs.c:236-258 | a mount point is refused if and only if it is not the root and the components of some mount point start its own |
| `VfsMount.RootTwice` | extmod/vfs.c:236-258 | a second mount at the root is not refused although the point is in use; it goes in front of the first |
| `VfsMount.MountAnswers` | extmod/vfs.c:57-258 | right after a mount its point leads to it, and so does a path below with the rest unchanged, if and only if no older mount point further down holds that path |
| `VfsMount.DeeperAnswers` | extmod/vfs.c:57-258 | such an older mount point and a path that it answers |
| `VfsMount.UmountMeans` | extmod/vfs.c:264-287 | umount removes the first entry named and nothing else |
| `VfsMount.UmountGone` | extmod/vfs.c:264-287 | after umount of a point other than the root exactly the entries at that point are gone |
| `VfsMount.MountThenUmount` | extmod/vfs.c:236-287 | umount takes a mount back |
| `VfsMount.ChdirMeans` | extmod/vfs.c:322-342 | where chdir goes, and when it fails, by components |
| `VfsMount.ChdirThenRelative` | extmod/vfs.c:57-342 | after an accepted chdir a relative path goes unchanged to the deepest mount that held the path |
| `VfsMount.Vm.LookupPath` | extmod/vfs.c:57-93 | the search loop, and what it finds: the deepest mount that holds the path and the rest of it |
| `VfsMount.Vm.MountAt` | extmod/vfs.c:236-258 | refuses a point if and only if it is not the root and a mount point holds it, by components; else the entries stay in order and the new one stands behind the other points and before the roots |
| `VfsMount.Vm.Umount` | extmod/vfs.c:264-287 | fails exactly if no entry has that point or object; else the first that does is gone, nothing else, and nobody is left in it |
| `VfsMount.Vm.Chdir` | extmod/vfs.c:322-342 | moves to the deepest mount that holds the path or to the virtual root; fails exactly if no mount holds it or the file system asked refuses, and then changes nothing |
| `VfsMount.Replay` | extmod/vfs.c:201-342 | the state driven through any run of calls is the run's, its table in order for well-formed mount points |
| `LwipAccept.FreeIffRoom` | extmod/modlwip.c:483-486 | the slot at iput is free exactly while there is room, the one at iget empty exactly when nothing waits |
| `LwipAccept.Arrives` | extmod/modlwip.c:483-489 | storing at iput and stepping it appends to the queue |
| `LwipAccept.Leaves` | extmod/modlwip.c:1006-1011 | taking at iget and stepping it removes the front |
| `LwipAccept.Shifted` | extmod/modlwip.c:442-460 | the shifted ring holds the queue without the removed connection, contiguous from iget |
| `LwipAccept.RunInOrder` | extmod/modlwip.c:428-1011 | under any interleaving of arrivals, deaths and accepts, addresses used again included: accepted, then waiting, is what arrived and lived, in order, each once |
| `LwipAccept.Listener.constructor` | extmod/modlwip.c:931-940 | the backlog is stored in eight bits: an empty ring of one slot or of that many, except that a positive multiple of 256 starts a full single slot that holds the array's address |
| `LwipAccept.AcceptsAddress` | extmod/modlwip.c:931-1011 | before anything has arrived the first accept hands out something if and only if the backlog is such a multiple: the array's address |
| `LwipAccept.Listener.Arrive` | extmod/modlwip.c:473-507 | queues the connection, or refuses it exactly when full |
| `LwipAccept.Listener.Accept` | extmod/modlwip.c:979-1011 | takes the connection that has waited longest, or none |
| `LwipAccept.Listener.ErrUnaccepted` | extmod/modlwip.c:428-461 | removes just that connection from any position, full, wrapped or single-slot, keeping order; nothing if it is not there |
| `LwipAccept.Replay` | extmod/modlwip.c:428-1011 | a listener driven through any interleaving ends with the run's queue and has handed out what the run accepted, in order |
| `LwipRecv.EventKeeps` | extmod/modlwip.c:407-534 | a callback keeps delivered, pending and lost together what was received |
| `LwipRecv.DataKeeps` | extmod/modlwip.c:510-534 | appending a chain adds its bytes at the end of what is pending |
| `LwipRecv.TakePending` | extmod/modlwip.c:769-796 | what is copied, then what is still pending, is what was pending |
| `LwipRecv.RunConserves` | extmod/modlwip.c:510-799 | under any interleaving of callbacks and reads: delivered, then pending, then lost at an error, are the bytes of the data callbacks before the first error; nothing is lost without one; the window credit is the bytes delivered; the state is that of the first error, else of a close |
| `LwipRecv.RunReceives` | extmod/modlwip.c:407-534 | what was received is what the data callbacks before the first error brought, in order |
| `LwipRecv.RunEnds` | extmod/modlwip.c:407-519 | the connection failed with the first error, else is closed exactly if the peer closed it |
| `LwipRecv.TcpSocket.Deliver` | extmod/modlwip.c:407-534 | the callbacks: data is appended, a close or an error noted, an error drops what is pending |
| `LwipRecv.TcpSocket.Copy` | extmod/modlwip.c:769-796 | copies from the first buffer only, and frees it when used up |
| `LwipRecv.TcpSocket.Receive` | extmod/modlwip.c:730-799 | is the callbacks it waited for, then one read; data is returned whenever there is some; otherwise the error of the connection, end of stream after a close with everything delivered, would-block, or a timeout when no callback is left; a nonzero request never returns no bytes otherwise |
| `LwipRecv.Replay` | extmod/modlwip.c:510-799 | a socket driven through any interleaving is where the run says, and what it handed out, then what is pending, then lost, is what the data callbacks before the first error brought |
| `AesCtr.IncEncode` | extmod/moducryptolib.c:153-158 | the carry loop adds one modulo 2^128 |
| `AesCtr.EncodeDigit` | extmod/moducryptolib.c:153-158 | counters are big-endian |
| `AesCtr.EncodeWraps` | extmod/moducryptolib.c:153-158 | counters that differ by the counter's range encode the same |
| `AesCtr.StreamAt` | extmod/moducryptolib.c:161-162 | byte i of the result is the text byte combined with byte (p + i) mod 16 of the encrypted counter (p + i) div 16 after the first |
| `AesCtr.StreamSplits` | extmod/moducryptolib.c:145-166 | the result does not depend on how the text is split over calls |
| `AesCtr.StreamTwice` | extmod/moducryptolib.c:145-166 | the same key and counter invert it |
| `AesCtr.Ctr.Increment` | extmod/moducryptolib.c:153-158 | the in-place carry loop |
| `AesCtr.Ctr.Process` | extmod/moducryptolib.c:145-166 | from any stream position, in place or not, computes the stream and moves the position on |
| `Base64.AsciiSextet` | extmod/modubinascii.c:109-215 | values become the characters of table 1 in section 4 of RFC 4648, padding becomes '=', and values are read back |
| `Base64.SextetTable` | extmod/modubinascii.c:109-123 | exactly the characters of that table have a value, their place in it |
| `Base64.LettersAreBits` | extmod/modubinascii.c:137-157 | whatever the letters, their values in base 64 are, as one number, the bytes put out and the bits left over |
| `Base64.SkippedIrrelevant` | extmod/modubinascii.c:137-149 | characters outside the alphabet never affect decoding |
| `Base64.TakeLow` | extmod/modubinascii.c:151-157 | the bits shifted out of the 32-bit word never matter |
| `Base64.RoundTrip` | extmod/modubinascii.c:109-217 | decoding undoes encoding for every byte string |
| `Base64.RoundTripSkipping` | extmod/modubinascii.c:109-217 | so does decoding any text that differs only in skipped characters |
| `Base64.FailsIffIncomplete` | extmod/modubinascii.c:137-162 | decoding fails if and only if no pad in the text completes a group (after three letters, or after two and another pad since) and the letters do not come in fours |
| `Base64.OutgrowsIff` | extmod/modubinascii.c:130-157 | the output is longer than the room allocated for it if and only if the text is letters only and its last group has three |
| `Base64.ThreeLetters` | extmod/modubinascii.c:130-157 | three letters: two bytes of output for a room of one |
| `Base64.A2b` | extmod/modubinascii.c:125-165 | the decoding loop |
| `Base64.B2a` | extmod/modubinascii.c:168-217 | both passes give the encoding |
| `Base64.FirstPass` | extmod/modubinascii.c:175-195 | the values of all whole groups and the padded rest |
| `Base64.SecondPass` | extmod/modubinascii.c:197-214 | letters in place of the values |

## Left out

- FrameBlit.Blit: an 8-bit and a 16-bit view of one block of memory are not modelled; for two different geometries on one array only the result of the scan is stated, not as a picture.
- FrameDraw.Scroll: requires steps for which both loops end (`FrameDraw.ScrollEndsIff`); for others the counters run out of the buffer.
- FrameBuf.FrameBuffer.FillRect: coordinates are unbounded integers, so overflow of `x + w` in a C int is not modelled; the same holds for line and blit.
- LwipAccept.Listener.constructor: running out of memory and the checks on the socket are not modelled.
- LwipAccept.Listener.Arrive: the user callback and the registration of callbacks with lwIP are not modelled; steps are atomic, as under the lwIP lock.
- LwipRecv.TcpSocket.Receive: waiting is a finite list of events, running out of it is the timeout; lwIP is assumed to hand over no empty buffers. The build option for a single buffer is not modelled.
- Timeq.Utimeq.HeapPush: ticks outside the period are allowed but only the window theorems speak about order.
- Timeq.Utimeq.HeapPop: the checks on the list that receives the result are not modelled.
- Heapq.PyList.HeapPop: comparison is a fixed relation; objects whose `<` raises, changes the list or is no strict weak order get only the permutation results.
- LfsPath.LfsVfs.Chdir: paths hold no NUL, and what the file system says about a full path is a parameter.
- VfsMount.Vm.MountAt: the file system's own mount call has succeeded before; block device detection and mount options are not modelled.
- VfsMount.Vm.Umount: a mount point matches by equality, as the comparison with its terminator does for strings without NUL.
- JsonLoader.Load: the loader also accepts texts outside the grammar (separators anywhere or missing, unpaired brackets, one container left open, a key without a value); which ones is `JsonAccepts.LoadsIff`, but of their meaning only the fate of a pending key is stated. Number conversion is abstract, and surrogate escapes are kept as single code points.
- WebSocket.WebSocket.Read: the peer sends whole frames; 64-bit lengths and fragmented messages are excluded as the source's asserts exclude them. The answer to a close frame goes out as a data message, as in the code.
- WebSocket.WebSocket.Write: an exception raised by the socket's setblocking is not modelled.
- ThumbAssembler.Thumb.Assemble: ARMv6-M only; the ARMv7-M wide forms, the ARM-state prelude, bl, table loads and local access are left out.
- ThumbConstants.MovI32Maps: code is taken to be loaded at an address divisible by four, as the source asserts.
- AsmX64.X64Assembler.Assemble: instructions other than jmp, jcc and the address computation are opaque bytes; code beyond 2 GiB is not claimed to land.
- AesCtr.Ctr.Process: the block cipher is a parameter; input and output are the same array or different ones, not overlapping at an offset.
- Base64.A2b: the output is a sequence that grows; how it compares with the room the source allocates is `Base64.OutgrowsIff`, what a write beyond it does is not modelled.
- hexlify, unhexlify and crc32, text drawing, hline, vline and rect, peektime and list directory calls would only add easy members.
- Argument parsing, object boxing, garbage collection, drivers, networking glue, Bluetooth, the other assemblers and the compiler are outside the model.

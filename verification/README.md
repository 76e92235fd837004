# Horizon SDK cores, modelled and proved

This project models the algorithmic cores of a handheld console's software development kit, and proves what they
promise. `dafny verify dfyconfig.toml` checks all of it.

The parts, hardest first:

- **The streaming LZ decoder.** `LzSpec` is the decoder as a machine that is fed one byte at a time; `LzStreaming` is the
  resumable context with its nested loops, proved to do what the machine does on any piece of input. From this follow
  chunk invariance, the conservation of the declared size, and, with the token serializer of `LzFormat`, the round trip
  of `LzRoundTrip`.
- **The GPU command buffer and the GL front end.** `CommandStream` gives the words of a buffer a meaning, a list of
  register writes, and `CommandBuffers` proves that its writers add exactly what they are asked for. `BlendSpec` and
  `GlFrontEnd` prove that a driver that leaves writes out, and puts others off, cannot be told by the hardware from one
  that always writes everything; `GlView` says what state and registers are after any run.
- **Names of framebuffers and renderbuffers.** `IdLists` are the sorted linked lists with gap-filling name generation;
  `FbManagers` the objects, bindings and attachments on top, with an invariant over all runs (the object model of
  section 4.4 of the OpenGL ES 2.0 specification).
- **The ROM directory index.** `RomPath` tokenizes paths, `KeyValueRomStorage` is the hash table, `RomFileTable` walks it;
  opening a file in the tables, through any `.` and `..`, is proved to be opening it in the directory tree that the
  tables represent.
- **Arithmetic.** `DateTimes` (the Gregorian calendar, section 3.2.1 of ISO 8601:2004), `MatrixAlgebra`, `Elimination` and
  `Matrix44` (matrix inverses over exact reals), `TimeSpans`, `MathMisc` and `Ticks` (fixed point in 64-bit words),
  `BucketCount` (a sieve).
- **Smaller state.** `IntrusiveLinkedLists`, `RoLists` and `IntrusiveQueues`; `Glyphs`, a lookup with a cache;
  `CecLayout` and `CecMessages`, a message and its binary form.

Code that changes things step by step is a class or a method with loops, proved against functions on values; what is
promised is then proved about those functions. Where the code wraps numbers round, so does the model. Bit operations on
fields that do not overlap are written as sums, quotients and remainders.

Some promises do not hold as they stand, and the model says exactly when they do, with an input for which they do not:
the return code of the decoder (`LzSpec.ReturnCodeAndCut` and `ReturnCodeDiffers`), the room test of the command buffer
(`CommandBuffers.RoomTestRight` and `RoomTestWraps`), the parameters of times before year 1 (`DateTimes.GetParameters` and
`LastOfYearZero`), and the glyph cache after the maps are exchanged (`Glyphs.ResFontBase.ExchangeAndFind`,
`AskFreshFontForZero` and `FreshFontIsWrong`).

## Model

| member | source | states |
|---|---|---|
| LzSpec.ChunkInvariance | sources/libraries/cx/cx_StreamingUncompression.cpp:64-214 | Two ways of cutting the same bytes into pieces lead to the same context and the same output, or to the same rejection. |
| LzSpec.PiecesAsWhole | sources/libraries/cx/cx_StreamingUncompression.cpp:64-214 | Feeding the pieces one after the other comes to the same as feeding the uncut stream. |
| LzSpec.RunSplit | sources/libraries/cx/cx_StreamingUncompression.cpp:98-206 | The input can be cut between any two bytes, in a header, a length or a match alike. |
| LzSpec.ReturnCodeAndCut | sources/libraries/cx/cx_StreamingUncompression.cpp:208-213 | The returned number is the one thing that depends on the cut: it differs from that of one call exactly when no size is forced, the output was complete before the last piece, and more than 32 bytes trail in all but not in the last piece; for streams of every declared size. |
| LzSpec.ReturnCodeDiffers | sources/libraries/cx/cx_StreamingUncompression.cpp:208-213 | Such a stream: 40 trailing bytes in one piece are answered with -3, and in two pieces of 20 with 0. |
| LzSpec.ReturnCodeMeans | sources/libraries/cx/cx_StreamingUncompression.cpp:72-96 | What the returned number means, told from the context and the bytes alone: a rejected first byte, a match that is longer than what is still to be written, a header that is not complete, the number of bytes still to be written, and more than 32 trailing bytes. |
| LzSpec.UnreadTrails | sources/libraries/cx/cx_StreamingUncompression.cpp:208-213 | The bytes left over are those behind the place at which the output was complete. |
| LzSpec.SizeConserved | sources/libraries/cx/cx_StreamingUncompression.cpp:98-206 | Once the header is read, bytes written and destCount add up to the same number for ever, and bytes written never change. |
| LzSpec.CopyBackMeaning | sources/libraries/cx/cx_StreamingUncompression.cpp:181-187 | A copied match repeats the bytes `offset` back, each one from the output as it has grown so far, also when source and target overlap. |
| LzStreaming.UncompContextLZ.constructor | sources/libraries/cx/cx_StreamingUncompression.cpp:50-62 | The context starts in the state in which the first header byte is expected. |
| LzStreaming.UncompContextLZ.ReadHeader | sources/libraries/cx/cx_StreamingUncompression.cpp:12-46 | The header loop over a piece does what the byte-by-byte machine does with the bytes it reads, and stops early only at the end of the piece. |
| LzStreaming.UncompContextLZ.ReadHeaderTurn | sources/libraries/cx/cx_StreamingUncompression.cpp:20-34 | One byte of the header: with the clipping to a forced size it is the machine's header step. |
| LzStreaming.UncompContextLZ.Begin | sources/libraries/cx/cx_StreamingUncompression.cpp:72-96 | The first byte is rejected or gives the format, and the header is read as far as the piece goes. |
| LzStreaming.UncompContextLZ.ReadLengthByte | sources/libraries/cx/cx_StreamingUncompression.cpp:117-160 | One byte of a length field, in each form and at each place. |
| LzStreaming.UncompContextLZ.PutLiteral | sources/libraries/cx/cx_StreamingUncompression.cpp:107-112 | One byte is appended and counted off, and the rest of the destination is left alone. |
| LzStreaming.UncompContextLZ.CopyMatch | sources/libraries/cx/cx_StreamingUncompression.cpp:181-187 | The copying loop appends exactly the copied match, counts it off, and leaves the rest of the destination alone. |
| LzStreaming.UncompContextLZ.CopyByte | sources/libraries/cx/cx_StreamingUncompression.cpp:183-185 | One byte of the copy: the byte `offset` back is appended, and all others stay. |
| LzStreaming.UncompContextLZ.ReadLength | sources/libraries/cx/cx_StreamingUncompression.cpp:115-165 | The loop over the bytes of a length: it ends with the length complete, or at the end of the piece in the state the machine is in there. |
| LzStreaming.UncompContextLZ.ReadOffset | sources/libraries/cx/cx_StreamingUncompression.cpp:167-187 | The last byte of a match: rejected as too long, or copied. |
| LzStreaming.UncompContextLZ.ReadMatch | sources/libraries/cx/cx_StreamingUncompression.cpp:115-187 | A flagged item read as far as the piece goes: out of input, rejected as too long, or copied, each as the machine has it. |
| LzStreaming.UncompContextLZ.ReadItems | sources/libraries/cx/cx_StreamingUncompression.cpp:100-196 | The items of one flag byte, as far as the piece goes. |
| LzStreaming.UncompContextLZ.ReadUncompLZ | sources/libraries/cx/cx_StreamingUncompression.cpp:64-214 | One call on any piece ends in the state of the byte-by-byte machine; it terminates, and writes nothing behind the output. The answer is positive exactly while the header is read and output is owed, and then it is what is owed; -1 while the header is not complete; and for a complete output -3 exactly when no size is forced and more than 32 bytes trail, and otherwise 0. |
| LzStreaming.UncompContextLZ.ReadPieces | sources/libraries/cx/cx_StreamingUncompression.cpp:64-214 | A call for each piece of a stream, up to the one that rejects it, ends with the context and output of one run over the uncut stream, and says whether it was rejected. |
| LzStreaming.UncompContextLZ.ReadPiece | sources/libraries/cx/cx_StreamingUncompression.cpp:64-214 | One call of such a run: a rejection can be told from the numbers that a call may return otherwise by the context it leaves. |
| LzFormat.FlagsShift | sources/libraries/cx/cx_StreamingUncompression.cpp:107-195 | The top flag bit is that of the next token, and shifting leaves the flags of the tokens after it. |
| LzFormat.LengthDecodes | sources/libraries/cx/cx_StreamingUncompression.cpp:115-165 | Each of the length forms, read byte by byte, gives back the encoded length with the top of the offset under it. |
| LzFormat.ShortLengthDecodes | sources/libraries/cx/cx_StreamingUncompression.cpp:118-146 | Lengths 3 to 18 of format 0 and 3 to 16 of format 1 take one byte. |
| LzFormat.MediumLengthDecodes | sources/libraries/cx/cx_StreamingUncompression.cpp:136-158 | Lengths 17 to 272 of format 1 take two bytes. |
| LzFormat.LongLengthDecodes | sources/libraries/cx/cx_StreamingUncompression.cpp:131-158 | Lengths 273 to 65808 of format 1 take three bytes. |
| LzFormat.MatchDecodes | sources/libraries/cx/cx_StreamingUncompression.cpp:115-187 | An encoded match is read back and copied, or as much of it as a forced size still wants. |
| LzFormat.MatchRejected | sources/libraries/cx/cx_StreamingUncompression.cpp:173-180 | Without a forced size a match that is longer than what is still to be written is rejected, and nothing of it is written. |
| LzFormat.TokenDecodes | sources/libraries/cx/cx_StreamingUncompression.cpp:107-195 | Any token is decoded to what it stands for. |
| LzFormat.ItemsDecode | sources/libraries/cx/cx_StreamingUncompression.cpp:98-206 | A list of tokens with its flag bytes is decoded to the expansion of the list, cut off where the output is complete. |
| LzRoundTrip.RoundTrip | sources/libraries/cx/cx_StreamingUncompression.cpp:64-214 | Round trip: decoding the serialization of a well-formed token list of either format writes exactly the list's expansion, or the beginning of it that a forced size asks for. |
| LzRoundTrip.Decode | sources/libraries/cx/cx_StreamingUncompression.cpp:64-214 | A call on a new context: what is answered while output is owed is the declared or forced size less what was written, and 0 or -3 mean that exactly this size was written. |
| LzRoundTrip.DecodeSerialized | sources/libraries/cx/cx_StreamingUncompression.cpp:64-214 | Round trip through the method: one call on a serialization leaves the expansion, or the forced beginning of it, in the destination, answers 0, and touches nothing behind it. |
| LzRoundTrip.EveryItemIsAMatch | sources/libraries/cx/cx_StreamingUncompression.cpp:118-171 | No gap: whatever two, three or four bytes come, as many as the first of them announces, they are a match with length 3 to the format's maximum and offset 1 to 4096. |
| LzRoundTrip.ItemsAreUnambiguous | sources/libraries/cx/cx_StreamingUncompression.cpp:118-171 | No overlap: no byte string begins with the encodings of two different matches. |
| LzRoundTrip.HeaderAgrees | sources/libraries/cx/cx_Uncompression.cpp:12-24 | GetUncompressedSize and the streaming header give the same size: equal below 2^31, and its signed reading from there on. |
| LzRoundTrip.DeclaredSizeConserved | sources/libraries/cx/cx_StreamingUncompression.cpp:20-206 | Size conservation: from the end of the header on, bytes written and bytes still to be written are together the declared size, read as a signed number, or the forced one; for every header and whatever follows it. |
| LzRoundTrip.HeaderReads | sources/libraries/cx/cx_Uncompression.cpp:12-24 | The size put into a header, short or long, is the size read from it. |
| CommandStream.Header | sources/libraries/gles2/commandbuffer.c:29 | Address, byte enables, count of extra words and the flag for consecutive registers can all be read back from a header word. |
| CommandStream.SinglePacket | sources/libraries/gles2/commandbuffer.h:8-15 | Two words of __cb_writeReg mean one register write with these byte enables. |
| CommandStream.InterpAppend | sources/libraries/gles2/commandbuffer.c:12-131 | What a buffer means is put together from the meanings of its parts, wherever whole packets end. |
| CommandStream.BurstPacket | sources/libraries/gles2/commandbuffer.c:21-57 | A burst packet of up to 128 words, padded when their number is even, means so many writes, to one register or to consecutive ones. |
| CommandStream.BurstGrows | sources/libraries/gles2/commandbuffer.c:74-93 | A chunk after the chunks before it continues the same burst, also across the split at 128 words. |
| CommandStream.BurstFillsRegisters | sources/libraries/gles2/commandbuffer.c:65-98 | The writes of a burst to consecutive registers leave each with its word and all others alone. |
| CommandStream.BurstLeavesLast | sources/libraries/gles2/commandbuffer.c:12-63 | Those of a burst to one register leave it with the last word and all others alone. |
| CommandStream.DummyAppend | sources/libraries/gles2/commandbuffer.c:139-146 | A dummy packet is read as writes that enable no byte, whatever words it skips over. |
| CommandStream.DummyHeaderRight | sources/libraries/gles2/commandbuffer.c:140-142 | The header of a dummy packet says how many words it skips exactly when their number fits into eleven bits. |
| CommandStream.DummiesChangeNothing | sources/libraries/gles2/commandbuffer.c:133-149 | Dummy writes leave every register file as it was. |
| CommandStream.ApplyAppend | sources/libraries/gles2/commandbuffer.c:12-149 | The registers after two runs of writes are those after the second, applied to those after the first. |
| CommandBuffers.BurstFits | sources/libraries/gles2/commandbuffer.c:16 | The room computed up front is the number of words used, and two more only when the last chunk is a full one. |
| CommandBuffers.RoomTestRight | sources/libraries/gles2/commandbuffer.c:16-19 | In 32-bit arithmetic the room test is right exactly when the computed end does not wrap round to an address below the end of the buffer. |
| CommandBuffers.RoomTestWraps | sources/libraries/gles2/commandbuffer.c:16-19 | A count for which it does: the test would accept a burst that does not fit. |
| CommandBuffers.CommandBuffer.WriteReg | sources/libraries/gles2/commandbuffer.h:8-15 | A single write adds itself to the meaning of the buffer, or is dropped when the buffer is full; never both, and never behind the end. |
| CommandBuffers.CommandBuffer.Copy16 | sources/libraries/gles2/commandbuffer.c:39-57 | The unrolled copy of sixteen words copies exactly these. |
| CommandBuffers.CommandBuffer.Copy2 | sources/libraries/gles2/commandbuffer.c:33-37 | Two words are copied, one after the other. |
| CommandBuffers.CommandBuffer.MultiChunk | sources/libraries/gles2/commandbuffer.c:25-57 | Copying by twos down to a multiple of sixteen and by sixteens from there copies the chunk and its padding. |
| CommandBuffers.CommandBuffer.RegsChunk | sources/libraries/gles2/commandbuffer.c:79-92 | Copying by twos copies the chunk and its padding. |
| CommandBuffers.CommandBuffer.FillChunk | sources/libraries/gles2/commandbuffer.c:113-125 | Filling by twos repeats the value for the chunk and its padding. |
| CommandBuffers.CommandBuffer.TakeRoom | sources/libraries/gles2/commandbuffer.c:69-72 | Where the room test is right (`RoomTestRight`): either the burst ends strictly below the end, or the buffer is marked as full for good. |
| CommandBuffers.CommandBuffer.MultiTurn | sources/libraries/gles2/commandbuffer.c:21-58 | One chunk of a burst to one register: header, first word, copies and padding continue the meaning. |
| CommandBuffers.CommandBuffer.RegsTurn | sources/libraries/gles2/commandbuffer.c:74-93 | One chunk of a burst to consecutive registers, which goes on at the register the chunk before ended at. |
| CommandBuffers.CommandBuffer.FillTurn | sources/libraries/gles2/commandbuffer.c:109-126 | One chunk of a fill. |
| CommandBuffers.CommandBuffer.MultiWriteReg | sources/libraries/gles2/commandbuffer.c:12-63 | Unless the buffer becomes full, its meaning grows by the values in order, all to one register; the words used are known in advance. |
| CommandBuffers.CommandBuffer.WriteRegs | sources/libraries/gles2/commandbuffer.c:65-98 | Unless the buffer becomes full, its meaning grows by the values in order, to consecutive registers. |
| CommandBuffers.CommandBuffer.FillRegs | sources/libraries/gles2/commandbuffer.c:100-131 | Unless the buffer becomes full, its meaning grows by the value for each of the consecutive registers. |
| CommandBuffers.CommandBuffer.AddDummyWrite | sources/libraries/gles2/commandbuffer.c:133-149 | Unless the buffer becomes full, its meaning grows by writes that enable nothing. |
| CommandBuffers.CommandBuffer.PutDummies | sources/libraries/gles2/commandbuffer.c:139-146 | One packet that enables nothing, and the buffer position behind the words it skips. |
| CommandBuffers.CommandBuffer.Perform | sources/libraries/gles2/commandbuffer.c:12-149 | Every writer keeps the buffer sound and even, never turns it back from full, and has the effect that was asked for. |
| CommandBuffers.CommandBuffer.Run | sources/libraries/gles2/commandbuffer.c:12-149 | Any run of writer calls that does not fill the buffer changes every register file exactly as the requests in order would. |
| BlendSpec.ElidedRefinesEager | sources/libraries/gles2/enable.c:27-115 | After the validator and any run of calls, the driver that leaves writes out and puts them off has the state of one that always writes everything, registers that hold what the state asks for, the same view for the hardware, and registers that show the switches, factors and culled side of that state. |
| BlendSpec.CallKeepsCoherent | sources/libraries/gles2/enable.c:30-111 | Each call leaves the registers coherent with the state: logic operation, blend function or its replacement, depth and stencil bits, early Z, and culling. |
| BlendSpec.RunKeepsCoherent | sources/libraries/gles2/enable.c:27-115 | So does every run of calls. |
| BlendSpec.NextIsEager | sources/libraries/gles2/enable.c:32-46 | With consistent shadow words, a call that is left out would not have changed the state. |
| BlendSpec.NextConsistent | sources/libraries/gles2/enable.c:57-80 | Calls keep the shadow words consistent with the fields they stand for. |
| BlendSpec.RunsShareStates | sources/libraries/gles2/enable.c:27-115 | Over any run both drivers go through the same states. |
| BlendSpec.BlendKeepsCoherent | sources/libraries/gles2/fragopstate.c:125-135 | A change of the blend function that only writes two bytes, or nothing, leaves the whole register right. |
| BlendSpec.ValidateEstablishes | sources/libraries/gles2/statevalidator.c:90-123 | The validator makes any registers coherent with the state. |
| BlendSpec.EagerEstablishes | sources/libraries/gles2/enable.c:34-95 | A driver that always writes everything makes any registers coherent with the state. |
| BlendSpec.FactorsReadBack | sources/libraries/gles2/fragopstate.c:43-124 | Blend factors and register codes correspond one to one: a family, and whether one minus its value is taken. |
| BlendSpec.BlendWordReadsBack | sources/libraries/gles2/fragopstate.c:125 | The four factors are read back from their places in the blend word, and the equation bits stay. |
| BlendSpec.BitIsSet | sources/libraries/gles2/enable.c:60 | The lowest bit of a shadow word becomes the switch, and the others stay. |
| BlendSpec.CullReversed | sources/libraries/gles2/enable.c:89-90 | Reversing either the culled face or the winding exchanges the two cull modes. |
| BlendSpec.CoherentShows | sources/libraries/gles2/enable.c:27-115 | Coherent registers show the state: test bits, early Z, factors at their places, source times one when blending is off, and the cull mode of face and winding. |
| GlView.CallMeans | sources/libraries/gles2/enable.c:27-115 | Each call changes its switch, or the factors, and nothing else in the state. |
| GlView.RunSets | sources/libraries/gles2/enable.c:27-115 | After any run every switch and the factors are those set last; the other bits of the shadow words, and all other words, are as before. |
| GlView.ValidatorMeans | sources/libraries/gles2/statevalidator.c:51-128 | The validator puts each word into its register, in the bytes it enables, and leaves all other bytes and registers alone. |
| GlView.RunLeaves | sources/libraries/gles2/enable.c:27-115 | No call writes another register than its own, nor another byte of it. |
| GlView.RunMeans | sources/libraries/gles2/enable.c:27-115 | After the validator and any run: the state has what was set last, the registers show it, and what no call writes is as the validator left it. |
| GlView.RepeatWritesNothing | sources/libraries/gles2/enable.c:32-33 | Calling again with the same arguments writes nothing, unless writing is forced. |
| GlView.ForcedSwitchShows | sources/libraries/gles2/enable.c:32-94 | When writing is forced, a switch puts its registers right, whatever they were. |
| GlView.ForcedFactorsShow | sources/libraries/gles2/fragopstate.c:132-135 | So does a call with blend factors, for blending on and off, and leaves the equation bytes. |
| GlFrontEnd.GlContext.EnableStatus | sources/libraries/gles2/enable.c:27-115 | The switch takes the state and the buffer where the specification has them, the mask bits that the source sets, and raises the errors for an unknown capability and for a full buffer. |
| GlFrontEnd.GlContext.SwitchBlend | sources/libraries/gles2/enable.c:44-56 | The blend switch writes what the logic operation leaves visible. |
| GlFrontEnd.GlContext.SwitchDepthTest | sources/libraries/gles2/enable.c:57-64 | The depth test switch sets the lowest bit of the shadow word, keeps the others, and writes its low byte, or does nothing when it is set already. |
| GlFrontEnd.GlContext.SwitchLogicOp | sources/libraries/gles2/enable.c:31-43 | The logic operation switch writes the mode, and the blend register when it is looked at again. |
| GlFrontEnd.GlContext.SwitchEarlyDepthTest | sources/libraries/gles2/enable.c:65-72 | The early depth switch writes both of its registers, or does nothing when it is set already. |
| GlFrontEnd.GlContext.SwitchStencilTest | sources/libraries/gles2/enable.c:73-80 | The stencil switch sets the lowest bit of the shadow word, keeps the others, and writes its low byte, or does nothing when it is set already. |
| GlFrontEnd.GlContext.SwitchCullFace | sources/libraries/gles2/enable.c:85-94 | The cull switch writes the mode for face and winding, and does not mark the frame buffer access as changed. |
| GlFrontEnd.GlContext.SetSwitch | sources/libraries/gles2/enable.c:81-107 | Scissor test, polygon offset, triangle acceleration and depth copy only change the state; the first two mark it for the validator when it changes. |
| GlFrontEnd.GlContext.Enable | sources/libraries/gles2/enable.c:23-25 | Switching on takes state and buffer where the specification has them. |
| GlFrontEnd.GlContext.Disable | sources/libraries/gles2/enable.c:19-21 | So does switching off. |
| GlFrontEnd.GlContext.BlendFuncSeparate | sources/libraries/gles2/fragopstate.c:28-139 | Unknown factors are an error; otherwise the shadow word holds the four factors at their places and keeps its equation bits, and the two upper bytes of the register are written. |
| GlFrontEnd.GlContext.ValidateOthers | sources/libraries/gles2/statevalidator.c:51-128 | The validator writes its registers in order. |
| GlFrontEnd.GlContext.ValidateAndRun | sources/libraries/gles2/enable.c:19-115 | Methods and specification together: after the validator and any run of calls that does not fill the buffer, what is in the buffer gives every register file the view that an eager driver would have given it, and makes it show the switches and factors set last; everything else is as the validator left it. |
| GlFrontEnd.GlContext.RunAll | sources/libraries/gles2/enable.c:19-115 | The calls one after the other take state and buffer where the specification has them. |
| IdLists.SmallestUnusedIsUnique | sources/libraries/gles2/fbmanager.c:371-444 | There is only one ascending sequence of the smallest unused positive names of a given length. |
| IdLists.FilledSmallest | sources/libraries/gles2/fbmanager.c:409-440 | When gaps are filled from the front, the names given out are the smallest unused ones. |
| IdLists.IdList.Find | sources/libraries/gles2/fbmanager.c:239-244 | The search that stops at the first name not below finds the node of a name, or there is none in the list. |
| IdLists.IdList.Search | sources/libraries/gles2/fbmanager.c:309-314 | The first node that does not come before a name, and the node in front of it. |
| IdLists.IdList.Link | sources/libraries/gles2/fbmanager.c:271-296 | A node of a new name is linked in where the list stays sorted. |
| IdLists.IdList.Remove | sources/libraries/gles2/fbmanager.c:309-321 | The node of a name is taken out, and the others stay linked and sorted. |
| IdLists.IdList.FillGaps | sources/libraries/gles2/fbmanager.c:637-654 | Walking along the list, new nodes go into every gap until enough names are given out. |
| IdLists.IdList.FillAllGaps | sources/libraries/gles2/fbmanager.c:409-426 | The loop over the nodes: it ends with enough names given out, or behind the last node with every gap filled. |
| IdLists.IdList.FillRun | sources/libraries/gles2/fbmanager.c:411-421 | One gap is filled from its start until it is full or enough names are given out. |
| IdLists.IdList.FillEnd | sources/libraries/gles2/fbmanager.c:428-440 | The names that are left are given out behind the last node. |
| IdLists.IdList.GenerateFirst | sources/libraries/gles2/fbmanager.c:380-393 | In an empty list the names from 1 on. |
| IdLists.IdList.GenerateFrom | sources/libraries/gles2/fbmanager.c:632-669 | From a list whose first gap is behind its first node: the smallest unused names, in ascending order. |
| IdLists.IdList.PutFirst | sources/libraries/gles2/fbmanager.c:399-407 | Name 1 goes in front of the list when it is free. |
| IdLists.IdList.GeneratePositive | sources/libraries/gles2/fbmanager.c:380-441 | From an empty list, a list without 1 and any other: exactly the smallest unused names, in ascending order, and the list holds them besides the old ones. |
| FbManagers.FbManager.constructor | sources/libraries/gles2/fbmanager.c:26-47 | Framebuffer 0 is there and bound, and no renderbuffer is. |
| FbManagers.FbManager.BindRenderbuffer | sources/libraries/gles2/fbmanager.c:228-258 | Binding creates the name if it is not there, and binds it; 0 unbinds. |
| FbManagers.FbManager.DetachSurface | sources/libraries/gles2/fbmanager.c:345-369 | Every attachment point of every framebuffer in the list that refers to the surface is cleared, and no other. |
| FbManagers.FbManager.DetachFrom | sources/libraries/gles2/fbmanager.c:353-365 | Both points of one framebuffer; a bound one that loses something is marked as changed. |
| FbManagers.FbManager.DeleteRenderbuffer | sources/libraries/gles2/fbmanager.c:306-326 | One name: its node is taken out, unbound, and detached everywhere; 0 and unknown names change nothing. |
| FbManagers.FbManager.Release | sources/libraries/gles2/fbmanager.c:320-323 | A node that is taken out is unbound if it was bound, and all framebuffers lose it. |
| FbManagers.DetachedEverywhere | sources/libraries/gles2/fbmanager.c:345-369 | After the surface is detached everywhere, every attachment is still none or a live renderbuffer of the recorded name. |
| FbManagers.FbManager.DeleteRenderbuffers | sources/libraries/gles2/fbmanager.c:298-332 | Exactly the given names go, the bound one is unbound if it is among them, and all framebuffers lose them, bound or not. |
| FbManagers.FbManager.GenRenderbuffers | sources/libraries/gles2/fbmanager.c:371-444 | The smallest unused positive names in ascending order, added to the list; nothing for 0, an error below. |
| FbManagers.FbManager.BindFramebuffer | sources/libraries/gles2/fbmanager.c:522-550 | Binding creates the name if it is not there, with nothing attached, and binds it. |
| FbManagers.FbManager.DeleteFramebuffer | sources/libraries/gles2/fbmanager.c:576-594 | One name: if it is bound, framebuffer 0 is bound first; 0 and unknown names change nothing. |
| FbManagers.FbManager.DeleteFramebuffers | sources/libraries/gles2/fbmanager.c:568-600 | Exactly the given names but 0 go; if the bound one goes, framebuffer 0 is bound. |
| FbManagers.FbManager.GenFramebuffers | sources/libraries/gles2/fbmanager.c:609-672 | The smallest unused positive names in ascending order, added to the list behind framebuffer 0. |
| FbManagers.FbManager.FramebufferRenderbuffer | sources/libraries/gles2/fbmanager.c:712-763 | Only the chosen point of the bound framebuffer changes, and it records a renderbuffer of that name whose format the point takes; every refusal raises its own error and changes nothing. |
| FbManagers.FbManager.ChooseSurface | sources/libraries/gles2/fbmanager.c:718-753 | Exactly these combinations of target, attachment point and format are accepted, and which error each of the others raises. |
| FbManagers.AcceptedFormats | sources/libraries/gles2/fbmanager.c:730-752 | The tests of the attachment points, in formats: a color point takes RGBA8, gas and three resident types but no depth format, a depth point the three depth formats, a depth and stencil point the one with a stencil. |
| FbManagers.OnePoint | sources/libraries/gles2/fbmanager.c:730-752 | No surface is taken both as color and as depth, and what is taken with a stencil is taken without. |
| FbManagers.FbManager.Attach | sources/libraries/gles2/fbmanager.c:755-758 | The point records surface and name, or nothing. |
| FbManagers.FbManager.Status | sources/libraries/gles2/fbmanager.c:681-710 | When the bound framebuffer is complete, and which of the three kinds of incompleteness is reported when it is not. |
| FbManagers.FbManager.Run | sources/libraries/gles2/fbmanager.c:228-763 | Over any run of calls both lists stay sorted without repetition, framebuffer 0 stays first, the bound objects are in their lists, and every attachment is none or a live renderbuffer with the recorded name. |
| FbManagers.FbManager.Perform | sources/libraries/gles2/fbmanager.c:228-763 | Any one call, with any arguments, keeps the invariant. |
| FbManagers.FbManager.AttachStored | sources/libraries/gles2/fbmanager.c:228-763 | Binding a name, giving it a surface of a format that the point takes, and attaching it there: that point of the bound framebuffer then refers to the renderbuffer of that name, and the other is unchanged. |
| FbManagers.FramebufferIsComplete | sources/libraries/gles2/fbmanager.c:681-763 | From a new manager: with a color and a depth buffer attached the framebuffer is complete when they have the same size, and reported for its dimensions otherwise. |
| FbManagers.FbManager.DeleteBehindItsBack | sources/libraries/gles2/fbmanager.c:298-369 | Deleting a renderbuffer takes it from every framebuffer, also while another one is bound. |
| FbManagers.AttachmentComesAndGoes | sources/libraries/gles2/fbmanager.c:298-369 | From a new manager: a renderbuffer attached to framebuffer 0 is lost from there when it is deleted while another framebuffer is bound. |
| RomPath.SpelledComponents | sources/libraries/dbm/dbm_RomPathTool.cpp:60-133 | Names spelled with any number of separators before, between and behind them are read back exactly. |
| RomPath.NoComponents | sources/libraries/dbm/dbm_RomPathTool.cpp:67-83 | A path has no names exactly when it is all separators. |
| RomPath.PathParser.Initialize | sources/libraries/dbm/dbm_RomPathTool.cpp:60-85 | The parser starts on every path that begins with a separator, with all of the path's names ahead. |
| RomPath.PathParser.SkipSeparators | sources/libraries/dbm/dbm_RomPathTool.cpp:78-82 | Skipping separators loses no name. |
| RomPath.PathParser.ScanName | sources/libraries/dbm/dbm_RomPathTool.cpp:98-129 | The length of the next name: up to the next separator or the end. |
| RomPath.PathParser.GetNextDirectoryName | sources/libraries/dbm/dbm_RomPathTool.cpp:87-133 | Gives out the held name and holds the next; it fails exactly when that is 256 characters or more and something follows it, and is finished exactly when no name is ahead. |
| RomPath.PathParser.GetAsFileName | sources/libraries/dbm/dbm_RomPathTool.cpp:41-58 | The held name, up to 256 characters. |
| RomPath.PathParser.IsDirectoryPath | sources/libraries/dbm/dbm_RomPathTool.cpp:140-159 | At the end of the path: whether it ends in a separator. |
| RomPath.PathParser.BehindNext | sources/libraries/dbm/dbm_RomPathTool.cpp:87-133 | The names behind the next one are those behind the held one, and the held one. |
| RomPath.GetParentDirectoryName | sources/libraries/dbm/dbm_RomPathTool.cpp:161-235 | Walking back over the characters of the path with a counter gives the name of the directory above the one that the names lead to, through any `.` and `..` and repeated separators; the empty name for the root, an error above it. |
| RomPath.AboveOnTrail | sources/libraries/dbm/dbm_RomPathTool.cpp:161-235 | Looking back from the last name, going up further for every `..`, finds the directories that the names lead through from the root down. |
| KeyValueRomStorage.SameTextIsEqual | include/nn/dbm/dbm_RomPathTool.h:55-58 | Comparing up to the length or a zero is equality for names without zeros. |
| KeyValueRomStorage.Hash | include/nn/dbm/dbm_HierarchicalRomFIleTableTemplate.h:90-102 | The hashing loop computes the rotated and mixed hash of parent and name. |
| KeyValueRomStorage.HashStepRotates | include/nn/dbm/dbm_HierarchicalRomFIleTableTemplate.h:96-100 | A step moves the five lowest bits to the top and mixes the character in. |
| KeyValueRomStorage.HashStepUndone | include/nn/dbm/dbm_HierarchicalRomFIleTableTemplate.h:96-100 | A step can be undone, so nothing mixed in before is lost. |
| KeyValueRomStorage.SeedUndone | include/nn/dbm/dbm_HierarchicalRomFIleTableTemplate.h:90-95 | The hash begins with the parent mixed into the seed. |
| KeyValueRomStorage.ParentsHashApart | include/nn/dbm/dbm_HierarchicalRomFIleTableTemplate.h:90-102 | One name has different hashes in different directories. |
| KeyValueRomStorage.Storage.FindInternal | include/nn/dbm/dbm_KeyValueRomStorageTemplate.h:123-176 | On acyclic chains that hold their bucket's entries, an entry with exactly this key is found, or the storage has none; the walk ends. |
| KeyValueRomStorage.Storage.Get | include/nn/dbm/dbm_KeyValueRomStorageTemplate.h:79-99 | The position and value of the entry with this key. |
| RomFileTable.RomFileTable.GetDirectoryEntry | include/nn/dbm/dbm_HierarchicalRomFileTableTemplate.impl.h:49-77 | Not found as a directory is told apart by whether it is a file. |
| RomFileTable.RomFileTable.GetFileEntry | include/nn/dbm/dbm_HierarchicalRomFileTableTemplate.impl.h:262-291 | Not found as a file is told apart by whether it is a directory. |
| RomFileTable.RomFileTable.EnterRoot | include/nn/dbm/dbm_HierarchicalRomFileTableTemplate.impl.h:168-185 | The walk begins in the root directory of the tree, with the path's names ahead. |
| RomFileTable.RomFileTable.Enter | include/nn/dbm/dbm_HierarchicalRomFileTableTemplate.impl.h:217-222 | One name looked up in a directory: what the tree has under it, or its error. |
| RomFileTable.RomFileTable.Descend | include/nn/dbm/dbm_HierarchicalRomFileTableTemplate.impl.h:186-226 | One turn of the walk: `.` stays, `..` goes to the directory before, any other name goes where the tree has it, and opening from there comes to the same. |
| RomFileTable.RomFileTable.GetGrandparent | include/nn/dbm/dbm_HierarchicalRomFileTableTemplate.impl.h:79-112 | `..`: the entry at the position of the parent, and the name that the path has for it, lead back to the directory before; from the root it is an error. |
| RomFileTable.RomFileTable.WayUp | include/nn/dbm/dbm_HierarchicalRomFileTableTemplate.impl.h:79-112 | The directory found again by the key of its own entry stands in its place on the way from the root. |
| RomFileTable.RomFileTable.WayDown | include/nn/dbm/dbm_HierarchicalRomFileTableTemplate.impl.h:217-225 | An entry found in the last directory of the way prolongs the way. |
| RomFileTable.RomFileTable.AtTheTop | include/nn/dbm/dbm_HierarchicalRomFileTableTemplate.impl.h:204-207 | The test against 0xC is met by no directory but the root, and by that only where it lies there. |
| RomFileTable.RomFileTable.FindParentDirRecursive | include/nn/dbm/dbm_HierarchicalRomFileTableTemplate.impl.h:159-233 | The walk ends in the directory of the tree that the names before the last lead to, or with the error that the tree gives. |
| RomFileTable.RomFileTable.FindFileRecursive | include/nn/dbm/dbm_HierarchicalRomFileTableTemplate.impl.h:422-517 | Initial separator, directories, trailing separator and length of the name are judged as opening in the tree has it. |
| RomFileTable.RomFileTable.OpenFile | include/nn/dbm/dbm_HierarchicalRomFileTableTemplate.impl.h:346-363 | For every path: opening in the tables comes to the same as opening in the directory tree they represent, file and error alike, with `.` and `..` wherever they stand. |
| RomFileTable.RomFileTable.OpenFileFindsTheFile | include/nn/dbm/dbm_HierarchicalRomFileTableTemplate.impl.h:346-363 | That is a success exactly when the path is absolute, does not end in a separator, and walking the tree by its names reaches a file; and then it is that file's information. |
| RomFileTable.OpenFindsTheFile | include/nn/dbm/dbm_HierarchicalRomFileTableTemplate.impl.h:186-226 | Looking ahead for names that are too long does not change which files are found. |
| RomFileTable.OpenWalks | include/nn/dbm/dbm_HierarchicalRomFileTableTemplate.impl.h:186-226 | With names within the limit, opening is walking the directories and looking for the last name in the last of them; which error comes of a name that is a file, of one that is nothing, of a separator at the end, and of a path above the root. |
| RomFileTable.ThereAndBackAgain | include/nn/dbm/dbm_HierarchicalRomFileTableTemplate.impl.h:196-215 | `.` leads nowhere else, and going into a directory and back by `..` leads back. |
| DateTimes.NumbersInOrder | sources/libraries/fnd/fnd_DateTime.cpp:56-78 | The numbers of valid dates are in the order of the dates, and no two dates share one. |
| DateTimes.CalendarBijection | sources/libraries/fnd/fnd_DateTime.cpp:56-139 | Numbers and valid dates correspond one to one in both directions, 0 is 2000-01-01, and consecutive numbers are consecutive calendar days. |
| DateTimes.NextDayIsNext | sources/libraries/fnd/fnd_DateTime.cpp:56-78 | The day after a date, across the ends of months, years and leap years, has the next number. |
| DateTimes.WholeYears | sources/libraries/fnd/fnd_DateTime.cpp:77 | Division that cuts off and the added leap day make up for each other, before 2000 as after. |
| DateTimes.MonthFromMarch | sources/libraries/fnd/fnd_DateTime.cpp:77 | Counted from March, the start of every month is where the one formula of the source says, leap day or not. |
| DateTimes.IsLeapYear | sources/libraries/fnd/fnd_DateTime.cpp:36-54 | The Gregorian rule, for years of either sign. |
| DateTimes.DateToDays | sources/libraries/fnd/fnd_DateTime.cpp:56-78 | For every year the number of days from 2000-01-01 by the lengths of years and months; months that run over the ends of the year count as those of the neighbouring one. |
| DateTimes.SplitDays | sources/libraries/fnd/fnd_DateTime.cpp:88-104 | The days since March 2000 as four hundreds, hundreds, fours and ones of years, with the two ways a leap day can show. |
| DateTimes.DaysToDate | sources/libraries/fnd/fnd_DateTime.cpp:80-139 | For every day number, before 2000 too, the valid date with that number. |
| DateTimes.DayOfMarchYear | sources/libraries/fnd/fnd_DateTime.cpp:106-125 | Month and day of a day of the year that starts in March. |
| DateTimes.LeapDay | sources/libraries/fnd/fnd_DateTime.cpp:110-115 | The last day of such a year, when it has 366 days, is the 29th of February. |
| DateTimes.WeekGoesOn | sources/libraries/fnd/fnd_DateTime.cpp:141-144 | 2000-01-01 is a Saturday, and the weekday of the next day is the next weekday, before 2000 too. |
| DateTimes.FromParamaters | sources/libraries/fnd/fnd_DateTime.cpp:146-152 | The moment that date and time of day name, also when the month runs over an end of the year. |
| DateTimes.GetParameters | sources/libraries/fnd/fnd_DateTime.cpp:208-228 | Whatever the time, the parameters taken together name it; they are valid exactly from year 1 on, and before it at midnight. |
| DateTimes.ParametersAreUnique | sources/libraries/fnd/fnd_DateTime.cpp:208-228 | A moment has only one set of valid parameters. |
| DateTimes.ThereAndBack | sources/libraries/fnd/fnd_DateTime.cpp:146-228 | Valid parameters come back unchanged exactly when the year is at least 1 or the time is midnight. |
| DateTimes.LastOfYearZero | sources/libraries/fnd/fnd_DateTime.cpp:146-228 | Such parameters: the last millisecond of the year 0 comes back as parameters that are not valid. |
| DateTimes.BackAndThere | sources/libraries/fnd/fnd_DateTime.cpp:146-228 | Every time comes back unchanged. |
| Matrix44.MTX44InverseC | include/nn/math/math_Matrix44.h:247-312 | 1 exactly when no vector but zero is mapped to zero, which is when the determinant is not 0; the result is then the inverse on both sides, also when input and output are the same matrix. |
| Matrix44.EliminateColumn | include/nn/math/math_Matrix44.h:260-309 | One column: it becomes that of the identity, or the matrix is singular. |
| Matrix44.FindPivot | include/nn/math/math_Matrix44.h:262-273 | The row with the largest absolute value in the column. |
| Matrix44.SwapRowsOf | include/nn/math/math_Matrix44.h:282-286 | Swapping element by element swaps the rows. |
| Matrix44.ScaleRowOf | include/nn/math/math_Matrix44.h:291-295 | Scaling element by element scales the row. |
| Matrix44.LessRowOf | include/nn/math/math_Matrix44.h:303-307 | Subtracting element by element subtracts the multiple of the row. |
| Matrix44.MTX44InverseC_FAST | include/nn/math/math_Matrix44.h:314-442 | The same by cofactors, and the output is untouched when there is no inverse. |
| Matrix44.Determinant | include/nn/math/math_Matrix44.h:346-353 | The sum of 24 products is the determinant. |
| Matrix44.LeftCofactors | include/nn/math/math_Matrix44.h:360-402 | The first two columns of the adjugate are the cofactors of the first two rows. |
| Matrix44.RightCofactors | include/nn/math/math_Matrix44.h:370-402 | The last two columns of the adjugate are the cofactors of the last two rows. |
| Matrix44.BothInverses | include/nn/math/math_Matrix44.h:247-442 | Elimination and cofactors return the same flag and the same matrix. |
| Elimination.SwapKeeps | include/nn/math/math_Matrix44.h:280-287 | Swapping rows keeps what elimination has established. |
| Elimination.ScaleKeeps | include/nn/math/math_Matrix44.h:290-295 | So does scaling a row. |
| Elimination.LessKeeps | include/nn/math/math_Matrix44.h:297-308 | So does subtracting a multiple of the pivot row. |
| Elimination.Finished | include/nn/math/math_Matrix44.h:260-311 | When all columns are those of the identity, the inverse is there on both sides. |
| Elimination.Stuck | include/nn/math/math_Matrix44.h:275-278 | When no pivot is left, a vector other than zero is mapped to zero, and the determinant is 0. |
| MatrixAlgebra.CofactorsInvert | include/nn/math/math_Matrix44.h:360-439 | The adjugate over the determinant is the inverse on both sides. |
| MatrixAlgebra.InverseIsUnique | include/nn/math/math_Matrix44.h:247-442 | A matrix has only one inverse. |
| TimeSpans.MultiplyRightShift | include/nn/fnd/fnd_TimeSpan.h:62-75 | For all signed words the high word of the product, rounded down, with wrapping arithmetic and no carry lost. |
| TimeSpans.DividesLikeC | include/nn/fnd/fnd_TimeSpan.h:51-60 | With a multiplier that is a little too large, multiplying and shifting is division that cuts off, for every span of either sign. |
| TimeSpans.DividesByInPowers | include/nn/fnd/fnd_TimeSpan.h:51-60 | What a little too large means: the multiplier times the divisor is above 2^(64+shift), by at most 2^(shift+1). |
| TimeSpans.SomeMagicDivides | include/nn/fnd/fnd_TimeSpan.h:51-60 | Every divisor up to 2^63 that is above a power of two and not above the next has such a multiplier with that power as its shift. |
| MathMisc.MultiplyRate | include/nn/math/math_Misc.h:49-60 | The product with a rate in 32.32 bits, rounded down, as far as a word holds it, for signed numbers. |
| MathMisc.MultiplyRate32 | include/nn/math/math_Misc.h:62-69 | With a rate below 1 the rounded down product itself. |
| Ticks.ThereAndBack | include/nn/os/os_Tick.h:27-36 | Nanoseconds to ticks and back never gain time and lose less than 8 parts in 2^32 and 9 nanoseconds. |
| Ticks.ThereAndBackBelowZero | include/nn/os/os_Tick.h:27-36 | Negative times stay within the same bounds on the other side. |
| Ticks.NeverTooMany | include/nn/os/os_Tick.h:27-36 | The ticks of a span always convert back without overflow. |
| Ticks.OrderKept | include/nn/os/os_Tick.h:27-36 | Both conversions are monotone. |
| Ticks.RatesAreMade | include/nn/os/os_Tick.h:20-36 | The two rates are those made from 134055928 ticks a second. |
| BucketCount.QueryOptimalBucketCount | sources/libraries/fslow/fslow_QueryOptimalBucketCount.cpp:10-31 | Above 19 the least candidate without a prime factor up to 17, for every 32-bit count; the last line is never reached. |
| BucketCount.SomeCandidateIsFound | sources/libraries/fslow/fslow_QueryOptimalBucketCount.cpp:21-30 | Among 100 candidates there is always one, also where they wrap round to 0. |
| BucketCount.NoSmallDivisor | sources/libraries/fslow/fslow_QueryOptimalBucketCount.cpp:25 | A number without the seven prime factors has no divisor from 2 to 18. |
| BucketCount.FewMultiples | sources/libraries/fslow/fslow_QueryOptimalBucketCount.cpp:21-29 | Of 50 odd numbers in a row at most 47 are struck by the primes 3 to 17. |
| BucketCount.HitsBounded | sources/libraries/fslow/fslow_QueryOptimalBucketCount.cpp:25 | Multiples of an odd number among consecutive odd numbers are at least that number of places apart. |
| IntrusiveLinkedLists.IntrusiveLinkedList.Insert | include/nn/fnd/fnd_LinkedList.h:173-192 | Inserts before the given item, or at the end; the links stay a ring in both directions. |
| IntrusiveLinkedLists.IntrusiveLinkedList.InsertBefore | include/nn/fnd/fnd_LinkedList.h:164-170 | Four link changes put an item into the ring before another. |
| IntrusiveLinkedLists.IntrusiveLinkedList.PushBack | include/nn/fnd/fnd_LinkedList.h:95-112 | The sequence grows by the item at its end. |
| IntrusiveLinkedLists.IntrusiveLinkedList.PushFront | include/nn/fnd/fnd_LinkedList.h:128-142 | The sequence grows by the item at its front. |
| IntrusiveLinkedLists.IntrusiveLinkedList.Erase | include/nn/fnd/fnd_LinkedList.h:54-73 | The item is taken out of the sequence and left without links. |
| IntrusiveLinkedLists.IntrusiveLinkedList.Unlink | include/nn/fnd/fnd_LinkedList.h:69-70 | Two link changes close the ring over an item. |
| IntrusiveLinkedLists.IntrusiveLinkedList.GetNext | include/nn/fnd/fnd_LinkedList.h:76-86 | The item after, or none behind the last. |
| IntrusiveLinkedLists.IntrusiveLinkedList.GetPrevious | include/nn/fnd/fnd_LinkedList.h:151-161 | The item before, or none before the first. |
| IntrusiveLinkedLists.IntrusiveLinkedList.GetBack | include/nn/fnd/fnd_LinkedList.h:115-125 | The last item. |
| IntrusiveLinkedLists.Rotated | include/nn/fnd/fnd_LinkedList.h:128-142 | A ring is the same from its last item on, which is why pushing in front is inserting before the head. |
| RoLists.LinkedListNode.EnlistTail | include/nn/ro/ro_ObjectFile.h:46-59 | The sequence grows by the item at its end. |
| RoLists.LinkedListNode.DelistItem | include/nn/ro/ro_ObjectFile.h:62-76 | The item is taken out, wherever it is, and left without links. |
| IntrusiveQueues.IntrusiveQueue.Enqueue | include/nn/fnd/fnd_Queue.h:49-64 | The sequence grows by the item at its end, through the self-link of the first one. |
| IntrusiveQueues.IntrusiveQueue.Dequeue | include/nn/fnd/fnd_Queue.h:67-87 | First in, first out; the item comes without a link and can be put in again. |
| Glyphs.ScanForIndex | sources/libraries/font/font_ResFontBase.cpp:223-247 | The search by halves ends and finds what a search from the front finds, or that the code is not there. |
| Glyphs.EnteredAt | sources/libraries/font/font_ResFontBase.cpp:223-247 | A code that is entered has the index entered with it. |
| Glyphs.FindInMap | sources/libraries/font/font_ResFontBase.cpp:204-257 | Direct offset, table and scan. |
| Glyphs.GlyphMeans | sources/libraries/font/font_ResFontBase.cpp:204-257 | The first map that covers a code says what its glyph is, and without one there is none. |
| Glyphs.CountsUp | sources/libraries/font/font_ResFontBase.cpp:211-214 | The first code of a direct map has its offset as glyph, and the next code the next glyph. |
| Glyphs.ResFontBase.FindGlyphIndex | sources/libraries/font/font_ResFontBase.cpp:179-202 | The first covering map's answer, unless the code is the cached one; with a consistent cache it is as far from the offset of a direct map as the code is from its first, the entry of a table or of a list, or none. |
| Glyphs.ResFontBase.FindAll | sources/libraries/font/font_ResFontBase.cpp:179-202 | Over any run of lookups from a consistent cache every answer is the uncached one. |
| Glyphs.ResFontBase.FindMap | sources/libraries/font/font_ResFontBase.cpp:204-257 | Over all codes of a map the answers count up from the offset of a direct map, are those of a table in its order, and those of the entries of a list. |
| Glyphs.ResFontBase.GetGlyphIndex | sources/libraries/font/font_ResFontBase.cpp:173-177 | The glyph, or the alternate one when there is none. |
| Glyphs.ResFontBase.SetResourceBuffer | sources/libraries/font/font_ResFontBase.cpp:41-45 | The cache outlives an exchange of the maps, and is right for the new ones exactly when its code has the same glyph there. |
| Glyphs.ResFontBase.ExchangeAndFind | sources/libraries/font/font_ResFontBase.cpp:179-202 | After an exchange the first lookup is wrong exactly when it asks for the cached code and that has another glyph now. |
| Glyphs.AskFreshFontForZero | sources/libraries/font/font_ResFontBase.cpp:27-35 | A fresh font answers wrongly for code 0 exactly when its maps have a glyph for it. |
| Glyphs.FreshFontIsWrong | sources/libraries/font/font_ResFontBase.cpp:27-35 | Such a font: one map, from code 0 to glyph 1. |
| CecLayout.PutIsMapUpdate | sources/libraries/cec/cec_Message.cpp:309-328 | Setting an extended header is a map update: that type has the new data, all others keep theirs, and no type comes twice. |
| CecLayout.ReadsExHeaders | sources/libraries/cec/cec_Message.cpp:440-450 | Going by the stored lengths, a reader finds every extended header that was laid out, in order. |
| CecMessages.Message.SetExHeaderWithoutCalc | sources/libraries/cec/cec_Message.cpp:296-330 | Exchanges the data of a type in place or adds it at the end; refused when too long or missing. |
| CecMessages.Message.MayChange | sources/libraries/cec/cec_Message.cpp:339-344 | A message may be changed exactly when it was not received and the eight bytes of its identification are zero. |
| CecMessages.Message.SetExHeader | sources/libraries/cec/cec_Message.cpp:337-349 | On success the map is updated and the sizes in the header are those of the layout; on every error nothing has changed. |
| CecMessages.Message.GetExHeader | sources/libraries/cec/cec_Message.cpp:351-375 | The data set last for the type, or none. |
| CecMessages.Message.SetMessageBody | sources/libraries/cec/cec_Message.cpp:377-414 | Which bodies are taken, in the order of the tests; on success the sizes in the header are those of the layout. |
| CecMessages.Message.CalcCecMessSize | sources/libraries/cec/cec_Message.cpp:471-487 | The sizes are those of the fixed header, each extended header rounded up to four, the body, and the hash. |
| CecMessages.Message.WriteExHeaders | sources/libraries/cec/cec_Message.cpp:440-450 | The extended headers lie one after the other, where the sizes say. |
| CecMessages.WriteExHeader | sources/libraries/cec/cec_Message.cpp:442-449 | One extended header: type, length and data, and the place where the next begins. |
| CecMessages.Message.WriteBodyAndHash | sources/libraries/cec/cec_Message.cpp:452-461 | The body, if there is one, and the hash, if there is one, directly behind. |
| CecMessages.Message.MakeMessageBinary | sources/libraries/cec/cec_Message.cpp:431-463 | Header, extended headers, body and hash lie in the buffer, each whole and at its place, and nothing behind them is touched. |
| CecMessages.Message.ReaderFindsEverything | sources/libraries/cec/cec_Message.cpp:431-487 | A reader that goes by the sizes stored in the bytes gets every extended header and the body out of them again, and the stored size is the extent of the message. |
| CecMessages.LastSetIsFound | sources/libraries/cec/cec_Message.cpp:296-330 | After any calls of the setters a type has the data that was set last for it, or what it had before, and no type comes twice. |
| CecMessages.Message.Perform | sources/libraries/cec/cec_Message.cpp:337-414 | Either setter answers as it should and changes the headers, or the body, only when it takes the call; sizes that fit stay so. |
| CecMessages.Message.Run | sources/libraries/cec/cec_Message.cpp:337-414 | Over any run of setters each answer is that of its call alone, headers and body are what the calls that were taken make of them in order, and from the first of these on the sizes in the header fit. |
| CecMessages.Message.RunAndWrite | sources/libraries/cec/cec_Message.cpp:337-487 | Setting, writing and reading: after any such run the bytes written give a reader exactly the headers and the body that the calls have set. |

## Left out

- LzStreaming.UncompContextLZ.ReadUncompLZ: streams that refer back to before their own output are excluded, and the destination does not overlap the input; the caller provides room for the output.
- CommandBuffers.CommandBuffer.AddDummyWrite: counts above 2048 do not fit the count field of the header (`DummyHeaderRight`) and are excluded.
- CommandBuffers.CommandBuffer.TakeRoom: counts for which the room test is wrong are excluded; the writers then write behind the end of the buffer.
- CommandBuffers.CommandBuffer.MultiWriteReg: the same counts are excluded; the data do not overlap the buffer, and the padding word after an even count can be read.
- CommandBuffers.CommandBuffer.WriteRegs: as MultiWriteReg.
- CommandBuffers.CommandBuffer.FillRegs: counts for which the room test is wrong are excluded.
- GlFrontEnd.GlContext.ValidateOthers: the words computed from the viewport by float conversion are parameters.
- RomFileTable.RomFileTable.OpenFile: a directory tree is given that the tables represent; it has one root, and no other directory lies at 0xC, which the walk takes for the parent of the root.
- RomPath.GetParentDirectoryName: where the walk back comes to the start of the path, the code also reads the character before it; the model does not.
- KeyValueRomStorage.Storage.GetByPosition: where no element begins, anything may be read, and reads do not fail.
- KeyValueRomStorage.Storage.FindInternal: the previous position, which nobody reads; failing reads and the byte layout of the storage are not part of this model; stored names fit the buffer they are read into.
- DateTimes.DateToDays: nothing is said of months below -9 and above 14, for which the formula is not that of a calendar; month 15 is a day or two off.
- DateTimes.FromParamaters: nothing is said of the same months.
- KeyValueRomStorage.Storage.Get: failing reads are not part of this model.
- DateTimes.DaysToDate: day numbers and milliseconds are unbounded; that 32-bit and 64-bit fields overflow for years far away is not modelled.
- Matrix44.MTX44InverseC: rounding of floating point numbers is not part of this model.
- Ticks.OrderKept: the conversion of ticks back is monotone as long as the nanoseconds fit a signed 64-bit word.
- Glyphs.FindInMap: tables are as long as their code range, and scan entries are in ascending order.
- CecMessages.Message.SetExHeader: the message keeps pointers to its data; the model takes the data not to change meanwhile. A 17th type is excluded, as the code asserts.
- CecMessages.Message.Run: runs that would need a 17th type are excluded.
- CecMessages.Message.MakeMessageBinary: the header is 112 bytes (enumerations of one byte), and its fields other than the sizes are opaque bytes.
- FbManagers.FbManager.Store: glRenderbufferStorage is not in the repository; the surface it leaves may be any.
- FbManagers.FbManager.Run: names are unbounded natural numbers and memory never runs out; deleted nodes are not freed; textures, storage and the framebuffer validator are not part of this model.
- The two node types of framebuffers and renderbuffers are one generic list.
- `__cb_writeRegsBuffer`: the loop of `__cb_writeRegs` without a room test.
- GlFrontEnd.GlContext.SetSwitch: what the validator and the draw calls make of these switches is not part of this model.
- Draw calls, textures, shaders and hardware addresses.
- FindOpen, FindNextDirectory, FindNextFile and the search for directories, which treats the position of the root differently.
- GetSecond of DateTime, which disagrees with GetParameters; GetNow and MIN_DATETIME.
- nnmathMultiplyAndDivide, quaternions, trigonometry and the assembly variants.
- IntrusiveQueue::Clear, which only ends well for some queues; PairInWord.
- NewMessage, InputMessage and the message box; direct setters of the sizes.
- IPC stubs, synchronization, heaps, and everything whose code is not in the repository.

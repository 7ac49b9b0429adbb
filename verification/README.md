# Webcam, JPEG decoder and display pipeline: a verified model

The program takes JPEG frames from a webcam, has a hardware engine decode them into one of three
frame buffers, and shows the buffers on HDMI and composite outputs through DRM. This project models
its five components with logic of their own, in the form the C code has (arrays shifted in place, a
linked list rewritten by loops, a cursor over a byte buffer), each tied to a specification on values
about which the properties are proved.

* `TripleBuffer` is the hand-off of buffers between the decoding and the display thread as a labelled
  transition system: one step per critical section (up to its unlock or its wait), per plane switch
  and per wake-up. `DisplaySession` is the same with the two global arrays; each of its methods performs
  exactly one step. The order in which buffers go round is a fact about one sequence, `Line`: available,
  replaced, on screen, queued, held. Only handing a buffer out changes it, by rotating it.
* `DeferredControls` is the lock-free way picture parameters reach the hardware: every flag access,
  every byte of a `memcpy` and every `ioctl` is a step, under sequential consistency.
* `PlaneLayout` is the frame-size arithmetic of the display and of the decoder, and `Bits` the masks
  and shifts it is made of, bit by bit.
* `ChunkList`, `Allocator` and `VeMemory` are the allocator of physical memory: the chunk list on
  values, whole runs together with the page tables that `mmap` fills, and the linked list itself.
* `JpegParser` says what the header parser computes on every input, `JpegReader` is the parser with its
  cursor and its in-place structure, `JpegBytes` says which byte of any input it takes for what,
  `JpegFormat` prints headers by ITU-T T.81, and `JpegRoundTrip` and
  `JpegMeaning` say what parsing a printed header gives. `HuffmanCode`, `HuffmanImage` and
  `HuffmanDecode` are canonical codes, the decoder's table image, and decoding from it. `EndToEnd`
  joins them.
* `CecControls` is the message queue and the high-byte latches of the CEC controls as a transition
  system, `CecQueue` the linked queue that refines it.

Some results are negative, and stated as such. `get_buffer_number` tests its queue with `if`, not
`while`, around its wait, so a spurious wake-up hands out no buffer and decoding goes into buffer 1
(`TripleBuffer.SpuriousWakeUpBreaksExclusion`); `HandOutExcludedIff` gives the exact condition, and
ownership, order and the rotation of the buffers are proved with spurious wake-ups included. The masking
`(x + 32) & ~32` in `init_display`, used as if it aligned to 32, does not round up
(`Bits.AddThenClear`), so for some sizes, 1280 by 720 among them, the area the decoder is told of
exceeds the luma plane; `OutputFitsIff` and `WholeWidthFitsIff` give the exact conditions, and
`WrittenRowsFitIff` the weaker one for the rows it writes. `output_size` overflows its `int` for the
largest frames (`DecoderOutputFitsIff`). `get_format` accepts vertical subsampling alone, for which `init_display` has no divisors (`FormatAcceptedIff`).

The names `w_aligned` and `size_page_aligned` in `init_display` promise more than the code does; the
code is followed. Frame dimensions are the 16-bit ones of a `jpeg_t`, the only ones `init_display` is given. One thread decodes, one displays, and one at a time sets parameters, as in the program;
reacquiring the mutex after a wait and the critical section that follows are one step.

## Model

| member | source | states |
|---|---|---|
| TripleBuffer.ForwardDequeues | src/display.c:81-85 | `forward` is a dequeue of the packed queue, and a no-op on an empty one |
| TripleBuffer.PutEnqueues | src/display.c:87-95 | `put` appends at the tail, drops a buffer exactly when all three slots are taken, and ignores 0 |
| TripleBuffer.RunKeepsInv | src/display.c:97-203 | in every interleaving, spurious wake-ups included: all buffers stand in one line of fixed cyclic order, each plane shows what its point in the loop says, and waits and signals agree with the queues |
| TripleBuffer.BuffersArePermutation | src/display.c:97-203 | the two queues, the buffer on screen, the replaced one and the writer's are always a permutation of 1, 2, 3 |
| TripleBuffer.PutNeverDrops | src/display.c:155-203 | in every run both uses of `put` append their buffer; none is ever dropped |
| TripleBuffer.NoFailureNoDeadlock | src/display.c:170-193 | the "Failed to dequeue" branch is unreachable, and some non-spurious step is always enabled |
| TripleBuffer.DecodingIsExcluded | src/jpeg_dec_main.c:363-391 | a writer holding a buffer never decodes into one that is queued, about to be shown, on a plane or still to be released |
| TripleBuffer.HandOutExcludedIff | src/display.c:175-193 | a hand-out respects exclusion exactly when the available queue is not empty at that moment |
| TripleBuffer.ReleasedIsOffScreen | src/display.c:124-165 | a replaced buffer becomes available only when neither plane shows it |
| TripleBuffer.RunIsCoupled | src/display.c:97-203 | both queues are first-in first-out over whole runs: shown ++ display queue == [1] ++ puts, gets ++ available queue == [2, 3] ++ released, and what is held links each hand-off to the next |
| TripleBuffer.Rotation | src/display.c:97-203 | whatever the schedule, the n-th buffer handed out (the n-th result of `get_buffer_number` other than 0) is (n + 1) mod 3 + 1 and the n-th shown is n mod 3 + 1; without spurious wake-ups this holds of the results themselves |
| TripleBuffer.PlanesShowLatest | src/display.c:112-143 | in every run each plane there is shows the frame last taken from the display queue once it is switched, and the one before until then |
| TripleBuffer.RunResults | src/display.c:170-193 | the buffers handed out are the results other than 0, and without spurious wake-ups no result is 0 |
| TripleBuffer.ExclusionHolds | src/jpeg_dec_main.c:422-424 | without spurious wake-ups no decode, from `get_buffer` to `put_buffer`, is into a buffer of the display side, and a woken display thread finds a frame |
| TripleBuffer.BoundedWait | src/display.c:178-183 | without spurious wake-ups an unsignalled wait of the writer lasts at most seven steps and two dequeues, two only before the first frame is shown, and can always go on |
| TripleBuffer.SpuriousWakeUpBreaksExclusion | src/display.c:178-183 | a concrete run in which a spurious wake-up lets the writer decode into the buffer on screen |
| DisplaySession.Forward | src/display.c:81-85 | the in-place shift, slot by slot, is `Forwarded` |
| DisplaySession.Put | src/display.c:87-95 | the in-place store into the first empty slot is `WithPut` |
| DisplaySession.Session.InitDisplay | src/display.c:686-692 | the session starts in the initial state of the transition system |
| DisplaySession.Session.GetBufferNumber | src/display.c:170-189 | up to its unlock or wait, exactly the step GetBuffer |
| DisplaySession.Session.ResumeGetBufferNumber | src/display.c:180-189 | after its wait, exactly the step WakeWriter, or SpuriousWriter if it was not signalled |
| DisplaySession.Session.PutBufferBack | src/display.c:195-203 | exactly the step PutBuffer, signal included |
| DisplaySession.Session.EnterLoop | src/display.c:106-122 | exactly the step TakeFrame |
| DisplaySession.Session.TakeQueuedFrame | src/display.c:112-122 | the critical section after the wait, on an empty queue too |
| DisplaySession.Session.SetPlane | src/display.c:125-143 | exactly the step ShowHdmi or ShowComposite |
| DisplaySession.Session.ReleaseReplaced | src/display.c:155-165 | exactly the step Release, signal included |
| DeferredControls.RunKeepsInv | src/display.c:145-152 | in every interleaving each stored parameter is in the hardware, or the setter still owns it, or the flag is (about to be) set and the display round has not passed it |
| DeferredControls.RunStoresRequested | src/display.c:583-588 | the stored parameter is the one last asked for, but for the bytes still to be copied |
| DeferredControls.NothingIsLost | src/display.c:583-629 | when both threads are idle and the flag is clear, the hardware has every parameter's last requested value |
| DeferredControls.NothingBeforeFirstFrame | src/display.c:590-594 | until the display has shown a frame the hardware keeps its initial parameters, whatever is asked for |
| DeferredControls.CallFinishes | src/display.c:583-629 | an undisturbed call stores a new value, and applies it if a frame has been shown, and otherwise only sets the flag |
| DeferredControls.RoundAndCallAreSteps | src/display.c:145-152 | an undisturbed display round and an undisturbed call are runs of enabled steps: two or six after the plane switch, one a byte and three more after the call |
| DeferredControls.NextRoundApplies | src/display.c:145-152 | once the setter is idle, the next undisturbed display round puts every requested value in the hardware |
| DeferredControls.PictureControls.SetDrm | src/display.c:583-629 | an undisturbed call performs the setter's steps to their end, reports whether the value changed, and applies it or defers it as `display_initialized` says |
| DeferredControls.PictureControls.FrameWasShown | src/display.c:145-152 | the tail of the display loop performs exactly one display round: all stored parameters are applied if the flag was set, and it is cleared |
| Bits.AddThenClear | src/display.c:664-667 | for every power of two p, `(x + p) & ~p`, taken bit by bit, is x plus p where that bit of x is set and x where it is not |
| Bits.ClearsLowBits | src/jpeg_dec_main.c:215-217 | for every power of two p, `x & ~(p - 1)`, taken bit by bit, rounds down to a multiple of p |
| PlaneLayout.BumpValues | src/display.c:664-667 | the two maskings of the layout are these for 32 and for the page size, where the sum does not wrap |
| PlaneLayout.LayoutExactIff | src/display.c:664-679 | the computed offsets and sizes are those of unbounded arithmetic exactly when no sum of the layout leaves 32 bits |
| PlaneLayout.PlanesFit | src/display.c:664-715 | if no sum leaves 32 bits for the format at hand, the Y, U and V planes (pitch times rows) are disjoint, in order and inside the buffer, for 4:2:0, 4:2:2 and 4:4:4 |
| PlaneLayout.UsualSizesFit | src/display.c:664-677 | no sum does up to 53000 in 4:2:0, 46000 in 4:2:2 and 37000 in 4:4:4 |
| PlaneLayout.FormatAcceptedIff | src/jpeg_dec_main.c:97-118 | `get_format` accepts exactly luma factors 1 and 2, and `init_display` lays out all of these but 1 by 2 |
| PlaneLayout.FormatFollowsSampling | src/display.c:637-659 | the format chosen for a frame has its sampling factors: the divisors of pitch, rows and size are those factors and their product |
| PlaneLayout.LayoutInFigures | src/display.c:664-679 | every offset and size of the layout, from the dimensions and sampling factors, in plain arithmetic |
| PlaneLayout.HdLayouts | src/display.c:664-679 | the offsets and sizes at 1280 by 720 in 4:2:0 and 4:2:2 |
| PlaneLayout.McuGridIsLeast | src/jpeg_dec_main.c:141-146 | the grid of `set_size` is the least that covers the image (section A.2.4 of ITU-T T.81) |
| PlaneLayout.DecoderOutputFitsIff | src/jpeg_dec_main.c:215-217 | the whole MCUs written cover the image, and are at most the `int` in `output_size` exactly when its product did not overflow |
| PlaneLayout.DimensionFitsIff | src/jpeg_dec_main.c:215-217 | the display's rounding reaches the decoder's exactly when the dimension is a multiple of 32 or has bit 5 set |
| PlaneLayout.OutputFitsLumaPlane | src/display.c:664-669 | if both dimensions fit in that sense, the area of `output_size` is at most `u_offset` |
| PlaneLayout.OutputFitsIff | src/display.c:664-669 | for any dimensions, that area is at most `u_offset` exactly when what each dimension lacks, along the other, is made up by what they have to spare (from their residues and bit 5) and the added page |
| PlaneLayout.WholeWidthFitsIff | src/display.c:664-669 | for a width that is a multiple of 32: exactly when the height fits, or the missing rows are at most 32 columns (if the width has bit 5) and a page (if the area has its page bit) |
| PlaneLayout.WrittenRowsFitIff | src/display.c:664-669 | for such a width, the MCU rows at the decoder's stride end before the U plane exactly when the height is a multiple of the MCU or has bit 5, or the missing rows are made up likewise |
| PlaneLayout.HdSizes | src/display.c:664-669 | 1920 by 1080 fits; at 1280 by 720 the area exceeds the luma plane, and the rows written do not |
| ChunkList.PageRoundedIs | src/ve.c:200 | the masking rounds up to the least number of whole pages, and a size whose sum overflows comes out negative |
| ChunkList.BestFitIsBest | src/ve.c:200-217 | the search fails exactly when no free chunk is large enough, and otherwise takes the first of the smallest sufficient ones |
| ChunkList.PlaceTiles | src/ve.c:219-246 | taking a chunk, split or whole, keeps the tiling and its total size |
| ChunkList.PlaceLive | src/ve.c:235-246 | taking a chunk adds one allocation and changes no other |
| ChunkList.ReleasedLive | src/ve.c:265-274 | releasing an address takes out its allocation and no other |
| ChunkList.CoalescedTiles | src/ve.c:276-288 | merging keeps the tiling and its total size |
| ChunkList.CoalescedSeparates | src/ve.c:276-288 | after merging no two neighbours are free |
| ChunkList.Canonical | src/ve.c:276-288 | two tilings of one range without free neighbours and with the same allocations are the same list |
| Allocator.MallocAddsOne | src/ve.c:186-251 | `ve_malloc` changes nothing and returns null, or adds exactly one page-rounded allocation at the head of the best chunk and its page table entries |
| Allocator.MallocResult | src/ve.c:200-246 | a successful `ve_malloc` in full: which chunk, what becomes of it, what is left behind it, and the page table entries, all else unchanged |
| Allocator.MallocFailsIff | src/ve.c:200-217 | with a successful `mmap` it fails exactly when the reserved range has no run of free bytes as long as the rounded request |
| Allocator.FreeRemovesOne | src/ve.c:253-291 | `ve_free` takes away the allocation at its address, and leaves the memory as it was if there is none |
| Allocator.FreeUndoesMalloc | src/ve.c:219-288 | freeing what was just allocated restores the same chunks and page tables, split or not |
| Allocator.RunStaysValid | src/ve.c:186-291 | after any sequence of calls the chunks tile the reserved range in order, no two free ones touch, allocations are apart, and the page tables map exactly the live bytes |
| Allocator.FreeingAllRestores | src/ve.c:276-288 | freeing everything in any order restores the one initial chunk |
| Allocator.TranslatesLikeMmu | src/ve.c:293-324 | `ve_virt2phys` agrees with the page tables on every address, and gives 0 outside all allocations |
| Allocator.TranslatesOffsets | src/ve.c:310-319 | inside an allocation it is the physical base plus the offset, in the reserved range |
| Allocator.TranslationIsInjective | src/ve.c:227-236 | no two live bytes share a physical address |
| VeMemory.FindBest | src/ve.c:200-217 | the loop over the linked list finds what BestFit says, the early exit on an exact fit included |
| VeMemory.TakeChunk | src/ve.c:235-246 | the rewritten list is that of Place |
| VeMemory.AbsorbFree | src/ve.c:280-286 | the inner loop merges all free followers, without changing what the list coalesces to |
| VeMemory.Coalesce | src/ve.c:276-288 | the nested loops rewrite the list to Coalesced |
| VeMemory.Release | src/ve.c:265-274 | the first loop rewrites the list to Released, and unmaps the size of the first chunk found |
| VeMemory.Memory.VeOpen | src/ve.c:111-112 | one free chunk over the reserved range |
| VeMemory.Memory.VeMalloc | src/ve.c:186-251 | for every `int` size, on an open device exactly Allocator.Malloc, and null with nothing changed on a closed one |
| VeMemory.Memory.VeFree | src/ve.c:253-291 | on an open device exactly Allocator.Free, and nothing on a closed one |
| VeMemory.Memory.VeVirt2Phys | src/ve.c:293-324 | the physical address the page tables give, 0 if none or closed |
| HuffmanCode.RunningCodeIsHuffCode | src/jpeg_dec_main.c:77-83 | the running code gives every symbol the code of section C.2 of ITU-T T.81 |
| HuffmanCode.KraftIff | src/jpeg_dec_main.c:78-83 | all codes fit in their lengths exactly when the Kraft bound holds |
| HuffmanCode.CodesFit | src/jpeg_dec_main.c:78-83 | up to the last length in use the running code stays below its power of two, so below 16 bits at every stored entry |
| HuffmanImage.FillTable | src/jpeg_dec_main.c:63-88 | one turn of the outer loop, byte by byte: VALPTR, the low and high bytes of MINCODE, 0xff past the last length in use, the values, and nothing else touched |
| HuffmanImage.DescribesInBytes | src/jpeg_dec_main.c:71-86 | an image that describes a table has these bytes |
| HuffmanImage.RegionsDisjoint | src/jpeg_dec_main.c:71-86 | the MINCODE, VALPTR and value regions of the four tables do not overlap and lie inside the 2048 bytes |
| HuffmanImage.TouchesIff | src/jpeg_dec_main.c:76 | a table stays in the buffer exactly up to 256 codes per slot from its own on, and in its own region exactly up to 256 |
| HuffmanImage.FillMinCodes | src/jpeg_dec_main.c:77-87 | the MINCODE entries are the first codes of each length, and 0xffff past the last length in use |
| HuffmanImage.SetHuffmanTables | src/jpeg_dec_main.c:56-89 | for all tables that stay in the buffer the image holds every table present, byte by byte, whatever the others are, and bytes written for none are zero |
| HuffmanImage.DescribesFramed | src/jpeg_dec_main.c:71-86 | storing a table, of any number of codes, leaves those of the lower slots described |
| HuffmanDecode.StoredEntries | src/jpeg_dec_main.c:69-87 | under the Kraft bound no entry up to a used length was truncated or is mistaken for 0xffff, and VALPTR is exact where there are codes |
| HuffmanDecode.DecodeInvertsEncode | src/jpeg_dec_main.c:56-89 | DECODE of section F.2.2.3, with all entries taken from the image, gives back any symbol encoded by section C.2, and uses exactly its bits, whatever follows |
| HuffmanDecode.StreamRoundTrip | src/jpeg_dec_main.c:56-89 | the same for whole sequences of symbols |
| HuffmanDecode.PrefixFree | src/jpeg_dec_main.c:78-83 | under the Kraft bound no code word is a prefix of another or equal to it |
| HuffmanDecode.LuminanceDcCodes | src/jpeg_dec_main.c:77-83 | the running code for table K.3 of ITU-T T.81, in figures |
| HuffmanDecode.LuminanceDcWords | src/jpeg_dec_main.c:77-83 | the code words of that table are those the standard prints |
| JpegParser.SkipFill | src/jpeg.c:95-96 | the cursor stops at the first byte that is not 0xff, or at the end |
| JpegParser.SuccessLeavesScan | src/jpeg.c:91-190 | from any position, success means the cursor advanced and what is not consumed is a non-empty scan |
| JpegParser.ParseConsumes | src/jpeg.c:84-193 | on every input success leaves 0 < `data_len`, and `data` + `data_len` is the length |
| JpegBytes.StartInBytes | src/jpeg.c:86-87 | a file not starting with ff d8 is rejected |
| JpegBytes.TurnInBytes | src/jpeg.c:91-190 | one turn of the loop in bytes: where the marker is, when a length is rejected, when the header ends, and where `data` and `data_len` are then |
| JpegBytes.DqtInBytes | src/jpeg.c:49-64 | for marker db on every input: which bytes must be below 16, and at which position the last table of each slot is |
| JpegBytes.DhtInBytes | src/jpeg.c:66-82 | for marker c4 on every input: where each table starts, and that the last one of each slot is kept |
| JpegBytes.FrameInBytes | src/jpeg.c:121-137 | for marker c0 on every input: which byte is which parameter of the frame and its components |
| JpegBytes.ScanInBytes | src/jpeg.c:143-156 | for marker da on every input: which byte is which parameter of the scan's components |
| JpegBytes.OtherInBytes | src/jpeg.c:139-185 | marker dd sets the restart interval; d8, d9 and c1 to cf but c4 and c8 are rejected; every other marker changes nothing |
| JpegBytes.BlankIsZero | src/jpeg_dec_main.c:397 | the structure the parser is given is cleared |
| JpegBytes.TableInBytes | src/jpeg.c:74-79 | a Huffman table is the sixteen counts at its position and as many values as they sum to |
| JpegBytes.HeaderInBytes | src/jpeg.c:60-74 | the tables a structure stands for are the bytes at its positions |
| JpegReader.JpegT.ProcessDqt | src/jpeg.c:49-64 | the loop assigns the slots ParseDqt says, failing where it does |
| JpegReader.JpegT.ProcessDht | src/jpeg.c:66-82 | the nested loops assign the slots ParseDht says |
| JpegReader.JpegT.ProcessFrame | src/jpeg.c:121-137 | the frame header case assigns what ParseSegment says |
| JpegReader.JpegT.ProcessScan | src/jpeg.c:143-156 | the scan header case assigns what ParseSegment says |
| JpegReader.JpegT.ProcessSegment | src/jpeg.c:107-185 | the whole switch computes ParseSegment |
| JpegReader.JpegT.ParseJpeg | src/jpeg.c:84-193 | the parser computes Parse on every input, for any structure it is given |
| JpegRoundTrip.QuantsRead | src/jpeg.c:49-64 | a printed DQT body (section B.2.4.1 of ITU-T T.81) is read as its tables |
| JpegRoundTrip.HuffsRead | src/jpeg.c:66-82 | a printed DHT body (section B.2.4.2) is read as its tables |
| JpegRoundTrip.FrameRead | src/jpeg.c:121-137 | a printed frame header (section B.2.2) is read as its parameters |
| JpegRoundTrip.ScanRead | src/jpeg.c:143-156 | a printed scan header (section B.2.3) is read as its parameters |
| JpegRoundTrip.BodyRead | src/jpeg.c:95-105 | fill bytes, marker and length are read as printed, and the cursor lands behind them |
| JpegRoundTrip.PrintedFileIsRead | src/jpeg.c:84-193 | for every printed header the parser accepts exactly what its reading accepts, holds the fold of its segments, and `data` and `data_len` are the scan |
| JpegMeaning.AcceptedIff | src/jpeg.c:55-181 | a printed header is accepted exactly when all its quantization tables have 8 bits, its components are 1 to 3, and no other segment has marker d8, d9 or c1 to cf but c4 and c8 |
| JpegMeaning.LastDefinitionWins | src/jpeg.c:60-74 | the last definition of a table slot is the one that stays, and an undefined slot stays empty |
| EndToEnd.LoadTables | src/jpeg_dec_main.c:397-402 | on any input whose tables stay in the buffer, parsing and then building the image stores, byte by byte, every table the parser left in its slot |
| EndToEnd.ParserAcceptsIff | src/jpeg.c:84-193 | the parser accepts a printed file exactly under that condition, stated by marker bytes |
| EndToEnd.PrintedFileLoads | src/jpeg_dec_main.c:397-402 | an accepted printed file whose last tables have at most 256 codes is parsed, and its tables stay in the buffer |
| EndToEnd.PrintedFileDecodes | src/jpeg_dec_main.c:56-89 | an image of the parsed tables decodes every encoding by the table that the file defines last for the slot |
| EndToEnd.LoadPrintedTables | src/jpeg_dec_main.c:397-402 | for every such file the image that parsing and loading return decodes every encoding by each last-defined table whose code is not over-full |
| CecControls.RunKeepsInv | src/cec_controls.c:125-145 | in every interleaving enqueued == processed ++ held ++ queued, and latches, requests and the changed flag are those of the processed messages |
| CecControls.LastHighIs | src/cec_controls.c:336-341 | the high byte of a control is that of its most recent message that has one |
| CecControls.LastHighNone | src/cec_controls.c:334-341 | and 0 if there is none |
| CecControls.ProcessedFollows | src/cec_controls.c:334-404 | processing a message keeps every latch at its control's last high byte, and requests low byte plus 256 times it |
| CecControls.RequestInBytes | src/cec_controls.c:128-132 | from received bytes to request: byte 1 is the control, byte 2 the low byte, byte 3 of this or the last message of the control that has it the high byte |
| CecControls.PollAnswers | src/cec_controls.c:427-470 | a poll reports a change exactly when the camera has the control of some request it made |
| CecControls.RequestsFollowMessages | src/cec_controls.c:406-471 | the requests made at any moment are those of the messages enqueued first, as many as were processed |
| CecControls.EndedPollHasDrained | src/cec_controls.c:410-417 | when a poll ends, every message enqueued by then has been processed |
| CecControls.ScheduleDoesNotMatter | src/cec_controls.c:406-471 | two schedules that have processed as many of the same messages have made the same requests |
| CecControls.PollDrains | src/cec_controls.c:406-471 | a poll that nothing interrupts processes all queued messages in order |
| CecQueue.Controls.AddMessageToQueue | src/cec_controls.c:125-145 | exactly the step Enqueue; the new node holds bytes 1 to 3, and the tail pointer is it, the last reachable node |
| CecQueue.Controls.TakeMessage | src/cec_controls.c:411-425 | exactly the step Dequeue; the tail pointer becomes null with the queue |
| CecQueue.Controls.ProcessMessage | src/cec_controls.c:427-463 | exactly the step Process |
| CecQueue.Controls.ProcessContrast | src/cec_controls.c:336-344 | latch, request and answer of the contrast code |
| CecQueue.Controls.ProcessSaturation | src/cec_controls.c:348-356 | latch, request and answer of the saturation code |
| CecQueue.Controls.ProcessWbt | src/cec_controls.c:358-361 | request and answer of the white balance code, no latch |
| CecQueue.Controls.ProcessPivot | src/cec_controls.c:365-374 | latch, request and answer of the pivot code |
| CecQueue.Controls.ProcessLuma | src/cec_controls.c:378-387 | latch, request and answer of the luminosity code |
| CecQueue.Controls.ProcessShutterSpeed | src/cec_controls.c:391-404 | latch, request and answer of the shutter speed code |
| CecQueue.Controls.PollCecEvents | src/cec_controls.c:406-471 | a poll with nothing enqueued meanwhile ends in the drained state, and returns whether the camera has the control of some request it made |

## Left out

- Foreign calls: DRM, V4L2, CEC, inotify and cedar ioctls, device discovery, plane enumeration and logging. `mmap` is an input that fails or returns an unused range; applying a parameter structure is one atomic step that reads the whole structure.
- A failing `drmModeSetPlane` ends the process, so it only cuts a run short.
- Memory reordering below sequential consistency, for the two flags of the deferred controls.
- Shutdown: `terminate_display` sets its flag and signals without the mutex, so that its join returns does not follow from the code. Sessions that run are modelled.
- An unsupported format leaves the divisors of `init_display` uninitialised; its layout is not modelled.
- `PAGE_SIZE` is 4096; the display code takes it from the system, the allocator has it as a constant.
- The check of `get_format` is made only for the frame that sets the display up; grids of later frames with other sampling factors are not modelled.
- PlaneLayout.OutputFitsLumaPlane: one direction only, for the condition on each dimension alone; the exact conditions are OutputFitsIff and WholeWidthFitsIff.
- HuffmanImage.SetHuffmanTables: stated for tables that stay in the buffer, by the exact bound of TouchesIff; the source does not check it. Decoding is stated for at most 256 codes, the most that section B.2.4.2 of ITU-T T.81 allows.
- JpegRoundTrip.PrintedFileIsRead: says nothing of table segments whose length cuts an entry short; for these the parser's result on arbitrary following bytes is what ParseJpeg and ParseConsumes say.
- VeMemory.Memory.VeMalloc: an overflow of the rounding is taken to wrap in two's complement, and `mmap` to refuse the negative size it gives. The `write` flag, which only selects page protection, is not modelled. Physical addresses are taken after the kernel's page offset is removed.
- `ve_close` and a second `ve_open` over a list with allocations; the unused reader-writer lock of the allocator.
- The hardware decoder's own lookup rule, the quantization and other register writes, and entropy-coded data with its byte stuffing: Huffman correctness is stated against section F.2.2.3 of ITU-T T.81.
- `apply_value` of the CEC controls: its floating-point scaling is not modelled. The call records its arguments and answers whether the camera has an integer control of that name.
- Receiving CEC messages, a failing `malloc` and the release of nodes; the queue's critical sections are atomic steps.
- JSON control files, shared memory, option parsing and the device loop: field copying and I/O.

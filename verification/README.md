# Verification of the NVDEC/NVENC VA-API driver

A Dafny model of the parts of the driver whose correctness does not depend on the GPU, with proofs over
every input, every run or every interleaving. Answers of CUDA, NVDEC, NVENC, EGL, the allocator and the
clock are inputs, so every statement holds whatever they are.

| files | part of the driver |
|---|---|
| `JpegSyntax`, `JpegImage`, `JpegWriter`, `JpegTheorems`, `JpegDecoder`, `JpegLayout`, `JpegAcceptance`, `JpegContext` | the writer that rebuilds a baseline JPEG from VA buffers, a parser that undoes it (sections B.1 and B.2 of ISO/IEC 10918-1), and the tables that persist across pictures |
| `EncoderModel`, `EncoderTheorems`, `EncoderHistory`, `EncoderFlags`, `EncoderSettings`, `EncoderSpacing`, `EncoderGeometry`, `EncoderContext` | the NVENC context: setters, visible rectangle, debounced reconfigure, submission with retries, startup IDR budget, slot ring, and where the staging copy reads |
| `Staging`, `SurfaceImage` | the NV12 staging copy with its fast path; put and get of images on host surfaces |
| `ResolveQueue`, `ResolveFlag`, `PictureIndex` | the ring between `nvEndPicture` and the resolve thread, access by access, the `resolving` flag, and picture indices |
| `BitstreamModel`, `BitstreamLayout`, `BitstreamContext` | the growable buffer, slice assembly and offset tables of H.264 and AV1 |
| `ObjectModel`, `ObjectStore` | the dynamic array and the object table kept in it |
| `PoolModel`, `ImagePool` | the pool of backing images |
| `Av1SkipMode` | choice of the skip-mode references under the cyclic order of hints (sections 5.9.3 and 5.9.22 of the AV1 Bitstream & Decoding Process Specification) |
| `Words` | machine words and byte helpers |

State that the source updates in place is a class whose methods are proved against functions on values;
the laws are lemmas about those functions, over whole runs where the source promises them for runs.
`dafny verify dfyconfig.toml` checks everything.

Where a natural statement is false of the code, the model keeps the code and states exactly when it holds:

| statement that fails | exact condition | failing input |
|---|---|---|
| an accepted JPEG parses back to its own segments | `ParseBack` | `SamplingSixteenLost`, `MarkerInDataLost` |
| the worst-case JPEG size has room for the slice data | `MaxSizeWraps` | 2^32 - 21 slices of the largest size, in `MaxSizeWraps` |
| every slice is decoded under its own restart interval | `RestartIntervalsFaithful` | `ZeroIntervalIgnored`, `CommonIntervalLost` |
| a valid visible rectangle stays inside the frame | `RectInsideExactly`, `EndRectExactly` | `ResizeLeavesRectOutside`, `PendingSizeLeavesRectOutside` |
| the staging copy reads inside the surface | `CopyInsideSurface` | `RectOverSmallSurface`, `OnePixelCopiesContext` |
| a clipped put or get stays inside both pictures | `PutInsideExactly`, `GetInsideExactly` | `UnsafeRequests` |
| a new size opens with an IDR | `ResubmissionKeepsFlags` | `NewSizeOpensWithoutIdr` |
| the average rate stays within the maximum | `TargetKeepsOrder` | `RoundedAwayExample` |
| the slot follows the frame number for ever | `SlotFollowsFrameNumber` | depth 3 after one or two wraps |
| non-resolution updates are debounced | `ReconfigureSpacing`, for a strictly increasing clock | `EqualTimestampNotDebounced`, `ZeroTimestampNotDebounced` |
| the ring test tells whether something is queued | `EmptyTestExact` | `SixteenLooksEmpty` |
| surfaces are resolved in the order of their pictures | `OrderSurvivesExactly` | `SeventeenthTakenFirst` |
| the flag of a surface is set while a picture of it is in flight | `FlagExactUntilReuse` | `SecondPictureUnflagged` |
| the flag is set only for pictures in flight | `ResolveFlagsExactly` | `NullPointerBlocksWaiter` |
| a begun surface carries its context's own index | `BeginIndexIsOwn` | `UnpairedBeginSharesIndex` |
| the length field is the buffer's length | `LengthFieldExact` | `UnpairedBeginLosesLength` |
| buffer growth ends | `GrowthReaches`, over runs `AppendsEndExactly` | an empty append before a non-empty one |
| the AV1 count field is the number of slices | `Av1PictureReadsBack` | `TilesCountedTwice` |
| the deletion loop empties the table | `LeftoverEmpty` | any two objects |
| ids increase along the table | `IdWrapBreaksOrder`, after the last id | any live object |
| a second forward reference is older than the first | `SecondForwardExact` | `CurrentCountsAsSecond` |

## Model

| member | source | states |
|---|---|---|
| `JpegSyntax.EcsLengthStops` | src/jpeg.c:565-586 | entropy-coded data without markers, followed by a marker, is cut off by a section B.1.1.5 scanner exactly at its end |
| `JpegSyntax.EcsIsMarkerFree` | src/jpeg.c:565-586 | whatever that scanner accepts as entropy-coded data is free of markers (the other direction) |
| `JpegSyntax.QuantsRoundTrip` | src/jpeg.c:152-194 | a DQT payload parses back to its table numbers and all 64 values |
| `JpegSyntax.HuffsRoundTrip` | src/jpeg.c:234-255 | a DHT payload parses back to class, id, code counts and values; the counts determine how many values follow |
| `JpegSyntax.FrameComponentsRoundTrip` | src/jpeg.c:208-232 | SOF0 components with sampling factors below 16 parse back |
| `JpegSyntax.ScanComponentsRoundTrip` | src/jpeg.c:369-391 | SOS components parse back |
| `JpegSyntax.PayloadRoundTrip` | src/jpeg.c:152-391 | every well-formed segment is recovered from its payload |
| `JpegSyntax.CutPayload` | src/jpeg.c:197-391 | the two length bytes are exact: cutting at them returns the payload and everything behind it |
| `JpegSyntax.SegmentParses` | src/jpeg.c:152-391 | one segment in front of any marker is parsed off, leaving exactly the rest |
| `JpegSyntax.ParsedSegmentsWellFormed` | src/jpeg.c:152-391 | every segment list the parser returns is well formed |
| `JpegSyntax.EncodeParseRoundTrip` | src/jpeg.c:393-603 | a segment list is recovered from its encoding if and only if each segment is well formed |
| `JpegTheorems.StandardWellFormed` | src/jpeg.c:54-88 | the standard Huffman tables carry exactly as many values as their code counts announce |
| `JpegTheorems.HeaderWellFormed` | src/jpeg.c:526-558 | all header segments are well formed exactly when the sampling factors fit in four bits |
| `JpegTheorems.ScansWellFormed` | src/jpeg.c:565-592 | the scans, after the client's EOI is taken off, are well formed exactly when the slice bytes hold no marker |
| `JpegTheorems.ImageWellFormed` | src/jpeg.c:393-603 | the segments of an accepted image are well formed exactly when sampling factors fit and scan data is clean |
| `JpegTheorems.ParseBack` | src/jpeg.c:393-603 | parsing the output gives back quantisers, frame header, Huffman tables, scan headers and slice bytes, in order and with one final EOI, if and only if sampling factors are below 16 and the scan data is clean |
| `JpegTheorems.SamplingSixteenLost` | src/jpeg.c:208-232 | an accepted picture with a sampling factor of 16 does not parse back |
| `JpegTheorems.MarkerInDataLost` | src/jpeg.c:565-586 | an accepted picture with a marker inside its slice data does not parse back |
| `JpegLayout.OneScanOfAllSlices` | src/jpeg.c:565-572 | equal scan headers: one scan, with byte j of slice i, which is the client's data[offset + j], at the sum of the earlier sizes plus j; only an EOI at the very end is missing |
| `JpegLayout.OneScanPerSlice` | src/jpeg.c:573-592 | differing scan headers: one scan for each slice, in order, with its components and with data[offset + j] as byte j; only an EOI at the very end is missing |
| `JpegLayout.OneFrameHeader` | src/jpeg.c:526-534 | the image starts with the JFIF segment and has exactly one frame header, with the picture's own precision, lines, samples and components |
| `JpegLayout.FrameHeaderBytes` | src/jpeg.c:208-232 | a frame header byte by byte: lines before samples, both sampling factors in one byte, then the quantiser |
| `JpegLayout.ScanBytes` | src/jpeg.c:369-391 | a scan header byte by byte: DC selector in the high half, then the spectrum |
| `JpegLayout.RestartAndFileBytes` | src/jpeg.c:197-206 | a restart interval byte by byte, and the first and the last two bytes of a file |
| `JpegLayout.HuffmanBytes` | src/jpeg.c:234-255 | a Huffman table byte by byte: length, class and destination, counts, values |
| `JpegLayout.QuantBytes` | src/jpeg.c:152-194 | a quantiser table byte by byte: length, number, values |
| `JpegAcceptance.AcceptedExactly` | src/jpeg.c:393-491 | with slices inside the data: the inputs are accepted if and only if picture and quantisers were given, every quantiser named was loaded, the slices are whole, and every segment of the image is legal for a decoder with four quantisers and two Huffman tables per class: size, one to four components, scans naming components of the frame |
| `JpegAcceptance.NonEmptyExactly` | src/jpeg.c:124-194 | the emptiness test passes exactly if every quantiser the frame names has an entry other than zero |
| `JpegDecoder.QuantSegmentsInForce` | src/jpeg.c:152-194 | after the emitted DQT segments exactly the used tables are in force, with their contents |
| `JpegDecoder.VaSegmentsInForce` | src/jpeg.c:279-335 | after the emitted VA tables exactly the named Huffman tables are in force, DC and AC kept apart |
| `JpegDecoder.StandardInForce` | src/jpeg.c:257-263 | the standard set puts all four tables in force under the right class and id |
| `JpegDecoder.HeaderHuffInForce` | src/jpeg.c:526-558 | the whole header puts every Huffman table named by a slice in force |
| `JpegDecoder.QuantsDefinedBeforeUse` | src/jpeg.c:134-194 | every quantiser the emitted SOF0 names is in force at that place with the context's contents |
| `JpegDecoder.HuffmanDefinedBeforeUse` | src/jpeg.c:279-366 | every Huffman table an emitted SOS names is in force at that place: the loaded one, or the standard one |
| `JpegDecoder.ScanTablesRequired` | src/jpeg.c:337-367 | the tables named by the scans of the image are among those collected by validation |
| `JpegDecoder.HeaderInterval` | src/jpeg.c:561-564 | the header announces the common restart interval, none when slices disagree |
| `JpegDecoder.ImageIntervals` | src/jpeg.c:560-586 | the restart interval a decoder sees for each scan of the image |
| `JpegDecoder.RestartIntervalsFaithful` | src/jpeg.c:560-586 | every slice is decoded with its own restart interval if and only if all intervals agree, or headers differ and no zero interval follows a non-zero one |
| `JpegDecoder.OneIntervalFaithful` | src/jpeg.c:566-572 | with equal scan headers the intervals are honoured exactly when they all agree |
| `JpegDecoder.ManyIntervalsFaithful` | src/jpeg.c:573-586 | with differing headers and intervals they are honoured exactly when no zero follows a non-zero one |
| `JpegDecoder.IntervalIsLastNonZero` | src/jpeg.c:577-580 | with differing headers and intervals a scan is decoded under the last non-zero interval up to it |
| `JpegDecoder.ZeroIntervalIgnored` | src/jpeg.c:577-580 | intervals 8 and 0 under different headers: the second scan is decoded under 8 |
| `JpegDecoder.CommonIntervalLost` | src/jpeg.c:560-572 | intervals 8 and 0 under equal headers: the 8 is announced nowhere |
| `JpegContext.QuantsAreLastLoaded` | src/jpeg.c:627-647 | over every run a quantiser is valid exactly if it was loaded at some time, and then equals the last one loaded |
| `JpegContext.HuffmanIsLastLoaded` | src/jpeg.c:649-680 | the same for Huffman tables |
| `JpegContext.PictureIsCurrent` | src/jpeg.c:111-122 | picture and slice parameters never survive a new Begin, tables do |
| `JpegContext.ValidityOverRuns` | src/jpeg.c:605-680 | after any run: there is a picture exactly if the current one has a size and one to four components, quantisers exactly if one was ever loaded, Huffman tables exactly if a pair was |
| `JpegContext.AcceptedOverRuns` | src/jpeg.c:393-491 | after any run the inputs are accepted exactly if the calls since the last Begin gave a usable picture and acceptable slices, and every quantiser the picture names was loaded at some time |
| `JpegContext.LoadedTablesUsedExactly` | src/jpeg.c:279-335 | after any run the loaded Huffman tables are used if and only if every table a slice names was loaded, with 1 to 12 DC and 1 to 162 AC codes |
| `JpegContext.RunQuantsLatest` | src/jpeg.c:111-194 | over every run of begin, picture, IQ, Huffman and slice calls, each quantiser named in the emitted SOF0 was emitted before it and equals the last one loaded |
| `JpegContext.RunHuffmanLatest` | src/jpeg.c:279-366 | over every run each Huffman table named in an emitted SOS was emitted before it: the last one loaded if all tables named were loaded with a usable number of codes, otherwise the standard set for the whole frame |
| `JpegContext.Context.constructor` | src/jpeg.c:95-109 | a new context has no picture, no valid table and no slices |
| `JpegContext.Context.BeginPicture` | src/jpeg.c:111-122 | clears picture and slice state, keeps tables |
| `JpegContext.Context.CopyPicParam` | src/jpeg.c:605-625 | stores the picture; it counts only with non-zero dimensions and one to four components |
| `JpegContext.Context.CopyIqMatrix` | src/jpeg.c:627-647 | replaces exactly the tables flagged for loading |
| `JpegContext.Context.CopyHuffmanTable` | src/jpeg.c:649-680 | replaces exactly the table pairs flagged for loading |
| `JpegContext.Context.CopySliceParam` | src/jpeg.c:682-687 | stores the slice parameters of the picture |
| `JpegContext.Context.CopySliceData` | src/jpeg.c:689-743 | yields the encoded image exactly when the inputs are acceptable, and then exactly that image |
| `JpegWriter.FrameBuffer.constructor` | src/jpeg.c:513-524 | an empty buffer of the computed size |
| `JpegWriter.FrameBuffer.Put` | src/jpeg.c:197-391 | one byte at the write position, which stays inside the buffer |
| `JpegWriter.FrameBuffer.Put16` | src/jpeg.c:90-93 | two bytes, high byte first |
| `JpegWriter.FrameBuffer.Copy` | src/jpeg.c:526-528 | a block of bytes at the write position |
| `JpegWriter.WriteDri` | src/jpeg.c:197-206 | appends a DRI segment of exactly 6 bytes |
| `JpegWriter.WriteDht` | src/jpeg.c:234-255 | appends a DHT segment with exact length |
| `JpegWriter.WriteStandardHuffmanTables` | src/jpeg.c:257-263 | appends the standard set, 432 bytes |
| `JpegWriter.WriteDqt` | src/jpeg.c:183-189 | appends one DQT segment of 69 bytes |
| `JpegWriter.SumTable` | src/jpeg.c:174-181 | the loop computes the sum of the table |
| `JpegWriter.GetUsedQuantTables` | src/jpeg.c:134-150 | the mask is the set of quantisers the frame names; fails exactly on a selector above 3 |
| `JpegWriter.WriteUsedTable` | src/jpeg.c:168-190 | one table: skipped if unused, refused if empty, emitted otherwise |
| `JpegWriter.WriteQuantTables` | src/jpeg.c:152-194 | emits the used tables in order; fails exactly on an invalid selector, a missing or an all-zero table, and then leaves the write position |
| `JpegWriter.WriteSof0` | src/jpeg.c:208-232 | appends the frame header |
| `JpegWriter.CountHuffValues` | src/jpeg.c:265-277 | accepts exactly when the code counts sum to at most the limit, and returns that sum |
| `JpegWriter.WriteVaTable` | src/jpeg.c:279-335 | one table: skipped if unnamed, emitted if valid, failure otherwise |
| `JpegWriter.WriteVaPair` | src/jpeg.c:279-335 | DC then AC table of one index; what was written before stays |
| `JpegWriter.WriteVaHuffmanTables` | src/jpeg.c:279-335 | succeeds exactly when every named table is loaded and usable; a failure half way leaves the output unchanged and the room used within 432 bytes |
| `JpegWriter.WriteSos` | src/jpeg.c:369-391 | appends the scan header |
| `JpegWriter.WriteOneScan` | src/jpeg.c:566-572 | one header and the data of all slices in order |
| `JpegWriter.WriteAllSlices` | src/jpeg.c:568-572 | the data of all slices in order |
| `JpegWriter.WriteScanOfSlice` | src/jpeg.c:574-586 | optional DRI, header and data of one slice |
| `JpegWriter.WriteManyScans` | src/jpeg.c:573-586 | one scan per slice, each with its optional DRI, within the room planned for it |
| `JpegWriter.WriteOptionalDri` | src/jpeg.c:561-564 | a DRI only where wanted and non-zero |
| `JpegWriter.ComponentInFrame` | src/jpeg.c:124-132 | finds exactly the components of the frame |
| `JpegWriter.ValidateSlice` | src/jpeg.c:337-367 | accepts exactly slices of 1..4 known components with table selectors 0 or 1, and adds exactly their selectors to the masks |
| `JpegWriter.ValidateSlices` | src/jpeg.c:432-472 | accepts exactly when every slice is acceptable; total size and required tables are exact |
| `JpegWriter.SameComponents` | src/jpeg.c:491-498 | equality of two scan headers |
| `JpegWriter.CompareSlices` | src/jpeg.c:476-499 | decides exactly whether all slices share the first header and the first restart interval |
| `JpegWriter.ScanEnd` | src/jpeg.c:589-592 | the output ends in EOI exactly when the last scan's own data does |
| `JpegWriter.FinishImage` | src/jpeg.c:589-592 | with the conditional EOI the output is the encoding of the image whose last scan lost the client's EOI: never two, never none |
| `JpegWriter.WriteHuffmanTables` | src/jpeg.c:539-558 | loaded tables when usable, otherwise the standard set written over the abandoned attempt |
| `JpegWriter.WriteFront` | src/jpeg.c:526-537 | JFIF header, quantisers and frame header, or failure on an empty quantiser |
| `JpegWriter.WriteHeader` | src/jpeg.c:526-564 | all segments before the scans, within their planned room |
| `JpegWriter.WriteScans` | src/jpeg.c:565-586 | the scans of the chosen form, within their planned room |
| `JpegWriter.WriteEoi` | src/jpeg.c:589-592 | appends EOI exactly when the output does not end with it |
| `JpegWriter.PrintImage` | src/jpeg.c:524-592 | a buffer of exactly the worst-case size holds every path, and the bytes are those of the image |
| `JpegWriter.Reconstruct` | src/jpeg.c:393-603 | a frame is returned exactly when the inputs are acceptable, memory is there, no quantiser is empty and the result fits 32 bits; its bytes are the encoding of the image and every write is inside the buffer |
| `JpegWriter.MaxSizeFits` | src/jpeg.c:501-512 | the worst-case sum cannot wrap 64 bits for fewer than 2^32 - 21 slices |
| `JpegWriter.MaxSizeWraps` | src/jpeg.c:501-512 | with a wrapping sum the buffer would not even hold the slice data: room for it exactly when the sum does not wrap, and a slice list for which it wraps |
| `EncoderTheorems.NoUpdateLost` | src/vabackend.c:1033-1098 | over every run: no pending flag and no failed attempt since the last success means the encoder runs with the held configuration |
| `EncoderSpacing.TimestampIsLastSuccess` | src/vabackend.c:1085-1092 | over every run the stored timestamp is the clock reading of the last change the encoder accepted, or of creation |
| `EncoderSpacing.ReconfigureSpacing` | src/vabackend.c:1033-1098 | with a strictly increasing clock, a pending update is attempted exactly when its encode size differs from the frame or the minimum interval has passed since the last accepted change of the run |
| `EncoderSpacing.SuccessesSpaced` | src/vabackend.c:1033-1098 | between any accepted change and any later accepted reconfigure that keeps the size lies at least the minimum interval, over every run |
| `EncoderSpacing.EqualTimestampNotDebounced` | src/vabackend.c:1060-1062 | at an equal timestamp the update is not held back |
| `EncoderSpacing.ZeroTimestampNotDebounced` | src/vabackend.c:1060-1062 | a timestamp of zero holds nothing back, however early it is |
| `EncoderSpacing.ResolutionChangeIsSize` | src/vabackend.c:1050-1058 | over every run a pending update counts as a change of resolution exactly if its encode size differs from the frame |
| `EncoderHistory.EndHistory` | src/vabackend.c:2926-3077 | what one End does, read off its answers: the last of the first, second and fall-back answers with bitstream and pop decides between produced, buffered and failed; outputs, needs for more input, outputs since a change of size, accepted configuration and discarded updates follow |
| `EncoderHistory.MoreInputSpendsNothing` | src/vabackend.c:2980-2995 | an End whose last answer needs more input is buffered, counts no output, and leaves the startup budget as the reconfigure or the resize left it |
| `EncoderHistory.HistoryIsOfEvents` | src/vabackend.c:2926-3077 | over every run the outputs, needs for more input, outputs since a change of size, accepted configuration and discarded updates of the state are those counted from the answers alone |
| `EncoderHistory.CountersFollowAnswers` | src/vabackend.c:2980-3077 | over every run budget, output count, frame number and slot are functions of the numbers of outputs and needs for more input in the answers |
| `EncoderHistory.AcceptedIsHeld` | src/vabackend.c:1033-1098 | over every run: nothing pending and nothing given up since means the configuration accepted last, by the answers, is the one held |
| `EncoderHistory.IdrFollowsAnswers` | src/vabackend.c:2913-2925 | over every run a submission is an IDR exactly by the rule, for the outputs since the last change of size and the pictures answered so far |
| `EncoderHistory.SubmittedSizes` | src/vabackend.c:2926-2970 | how many pictures one End submits, and with what size each: the copy, the copy again after a resize, the frame for the fall-back |
| `EncoderFlags.FlagsFollowCalls` | src/vabackend.c:2482-2603 | over every run: a target is set exactly if a picture was begun, a coded buffer exactly if one was named since the last Begin, and an IDR is asked for exactly by frame 0, a picture buffer, or the rules left behind by a submission in vain |
| `EncoderFlags.SubmitsExactly` | src/vabackend.c:2695-2740 | over every run an End calls the encoder if and only if a picture was begun, a coded buffer named since, and every step before the call worked |
| `EncoderFlags.StreakFollowsAnswers` | src/vabackend.c:2980-3012 | over every run the streak is the number of needs for more input since there was output to lock |
| `EncoderSettings.BitrateSets` | src/vabackend.c:828-850 | a rate sets average and maximum in CBR, lowering the maximum too, and in VBR only ever raises the maximum; nothing else changes |
| `EncoderSettings.FrameRateSets` | src/vabackend.c:852-866 | numerator and denominator go to their own fields, 1 for a missing denominator; nothing else changes |
| `EncoderSettings.GopSets` | src/vabackend.c:868-888 | GOP length and IDR period go to their own fields, each only if it is not zero; nothing else changes |
| `EncoderSettings.TargetIsShare` | src/vabackend.c:2612-2617 | the average is the largest number whose hundredfold is at most rate times percentage, capped to 32 bits |
| `EncoderSettings.TargetSets` | src/vabackend.c:2612-2625 | in VBR a target percentage sets the average to its share and the maximum to the rate |
| `EncoderSettings.PlainRateSets` | src/vabackend.c:2623-2625 | outside VBR, or without a percentage, the rate is set as by a sequence header |
| `EncoderSettings.QpLimitsSet` | src/vabackend.c:2626-2643 | each limit goes to all three picture types, and 0 leaves it alone |
| `EncoderSettings.FrameRateBuffers` | src/vabackend.c:2644-2653 | 30000/1001 from its packed form, and 60 with an empty high half |
| `EncoderSettings.SequenceSets` | src/vabackend.c:2557-2578 | a sequence buffer of the encoder's codec passes on its rate, its periods and its timing, whose unit counts fields in H.264 |
| `EncoderSettings.CropUnits` | src/vabackend.c:970-995 | columns and rows of one crop unit by chroma format and interlacing |
| `EncoderSettings.CropsTakenOff` | src/vabackend.c:960-1017 | 4:2:0: crops that fit are taken off the coded size, and the rectangle starts behind them |
| `EncoderSettings.NoCrops` | src/vabackend.c:960-1017 | without cropping the rectangle is the coded frame |
| `EncoderSettings.FullHd` | src/vabackend.c:960-1017 | 1920x1088 with four units cropped at the bottom shows 1920x1080 |
| `EncoderSettings.ClipIsLargest` | src/vabackend.c:890-925 | a clipped axis is the largest even extent inside both the request and the frame |
| `EncoderSettings.RectIsClipped` | src/vabackend.c:890-925 | the rectangle starts at the masked corner with the clipped extents, and is invalid exactly when one of them is 0 |
| `EncoderTheorems.ClipInside` | src/vabackend.c:890-925 | limit of the helper: a clipped axis is even and starts inside; it ends inside exactly when the sum of the clip test does not wrap |
| `EncoderTheorems.ClipWrapExample` | src/vabackend.c:890-925 | a length for which that sum wraps; no sequence header announces one that large |
| `EncoderTheorems.H264RectSmall` | src/vabackend.c:960-1017 | no crop, wrapping or not, makes the announced rectangle larger than 16 * 65535 |
| `EncoderTheorems.SetVisibleInside` | src/vabackend.c:890-1031 | for every length either caller passes, the rectangle is even and inside the frame, even when crop products wrap |
| `EncoderTheorems.CopyFits` | src/vabackend.c:2745-2805 | the copy rectangle is even and never larger than the context |
| `EncoderTheorems.SizesNeverGrow` | src/vabackend.c:890-1098 | over every run encode size <= context size <= maximum == created size, and a valid visible rectangle is even and inside the created frame |
| `EncoderTheorems.StagingFitsInput` | src/vabackend.c:2807-2851 | in every reachable state the staged frame fits an input buffer of the created size, whatever its pitch |
| `EncoderTheorems.SizesShrinkAlongRuns` | src/vabackend.c:1087-1088 | along every run each state's frame fits in that of every earlier state |
| `EncoderGeometry.ResizeKeepsRectExactly` | src/vabackend.c:2930-2957 | after a resize to the copied size a valid rectangle is inside the frame if and only if it was inside and at the origin |
| `EncoderGeometry.EndRectExactly` | src/vabackend.c:2694-3079 | after one End a valid rectangle is inside the frame if and only if it fits the frame after the reconfigure and any retry found it at the origin |
| `EncoderGeometry.RectInsideExactly` | src/vabackend.c:890-1098 | in every reachable state and for every event: the visible rectangle is inside the frame afterwards if and only if the event's condition holds; headers that set it always put it inside |
| `EncoderGeometry.ResizeLeavesRectOutside` | src/vabackend.c:2930-2957 | a run from creation on which the resize inside End leaves the rectangle outside |
| `EncoderGeometry.PendingSizeLeavesRectOutside` | src/vabackend.c:927-958 | a run from creation on which a pending smaller size, left by an earlier header, shrinks the frame under the rectangle |
| `EncoderGeometry.NewSizeOpensWithoutIdr` | src/vabackend.c:2913-2964 | a run from creation on which a new size opens without an IDR although the budget has just been refilled |
| `EncoderGeometry.CopyInsideSurface` | src/vabackend.c:2745-2805 | whenever a reachable End chooses its copy: it reads inside the surface if and only if the rectangle, cut to the frame, fits the surface, or without one at least two by two pixels are filled, or the context itself fits |
| `EncoderGeometry.RectReads` | src/vabackend.c:2771-2775 | with a rectangle inside the frame that condition is that the surface covers the rectangle |
| `EncoderGeometry.RectOverSmallSurface` | src/vabackend.c:2771-2775 | a run from creation on which the copy reads outside a small surface |
| `EncoderGeometry.OnePixelCopiesContext` | src/vabackend.c:2800-2805 | one filled pixel makes the copy the size of the context, outside a small surface |
| `EncoderGeometry.ReachableCopyStageable` | src/vabackend.c:2807-2851 | the copy chosen in any reachable End meets everything the staging asks for, given an input buffer of the created size and a surface that admits it |
| `EncoderGeometry.StagePicture` | src/vabackend.c:2745-2851 | choice and staging together: in any reachable End the encoder input gets the copied rectangle padded to the frame, and nothing past the planes changes |
| `EncoderTheorems.EndKeepsBudget` | src/vabackend.c:2913-3077 | one End keeps the budget and counter laws and forces IDR on its submissions exactly by the rule |
| `EncoderTheorems.BudgetAndCounters` | src/vabackend.c:2710-3077 | over every run the remaining startup budget is N minus the outputs since creation or size change, outputs plus need-more-input results equal the frame number, and the slot follows |
| `EncoderTheorems.IdrUntilBudgetSpent` | src/vabackend.c:2913-2925 | over every run each submission is IDR exactly if forced, first, periodic or within the startup budget |
| `EncoderTheorems.SlotFollowsFrameNumber` | src/vabackend.c:2713-3077 | the slot index is the frame number modulo the ring depth if and only if the depth is not 3 or the 32-bit frame number has wrapped a multiple of three times |
| `EncoderTheorems.ResubmissionKeepsFlags` | src/vabackend.c:2913-2964 | over every run a picture resubmitted after the resize is IDR exactly if the rule asked for it before the resize, although the budget starts anew |
| `EncoderTheorems.TargetKeepsOrder` | src/vabackend.c:2612-2625 | a target-percentage buffer keeps average <= maximum exactly if the computed average, or the old one when it rounds to zero, fits the new maximum |
| `EncoderTheorems.RoundedAwayExample` | src/vabackend.c:2612-2625 | an average that rounds to zero leaves the old average above the new maximum |
| `EncoderTheorems.AverageWithinMaximum` | src/vabackend.c:2557-2654 | over every run with percentages 0..100 and non-zero averages, average <= maximum in CBR and VBR |
| `EncoderTheorems.RateControlFlagExact` | src/vabackend.c:2605-2643 | a rate-control buffer raises the flag exactly when it changes a stored value, or its average exceeds its own maximum and is changed twice |
| `EncoderTheorems.RenderTwice` | src/vabackend.c:2532-2656 | rendering the same buffer twice in a row changes nothing the second time, whatever the settings |
| `EncoderContext.EncodeContext.constructor` | src/vabackend.c:1924-2041 | the state after creation: default rates, one to four slots, full budget, nothing pending |
| `EncoderContext.EncodeContext.SetBitrate` | src/vabackend.c:828-850 | refines the rate update |
| `EncoderContext.EncodeContext.SetFrameRate` | src/vabackend.c:852-866 | refines the frame-rate update |
| `EncoderContext.EncodeContext.SetGop` | src/vabackend.c:868-888 | refines the GOP update |
| `EncoderContext.EncodeContext.SetVisibleRect` | src/vabackend.c:890-925 | refines the clip; an empty clip only invalidates |
| `EncoderContext.EncodeContext.MaybeUseVisibleResolution` | src/vabackend.c:927-958 | refines the switch to the visible size |
| `EncoderContext.EncodeContext.BeginPicture` | src/vabackend.c:2479-2495 | refines Begin |
| `EncoderContext.EncodeContext.RenderSequenceBuffer` | src/vabackend.c:2557-2577 | refines the sequence buffer of either codec |
| `EncoderContext.EncodeContext.RenderCodedBuffer` | src/vabackend.c:2553-2556 | a coded buffer is named |
| `EncoderContext.EncodeContext.RenderPictureBuffer` | src/vabackend.c:2579-2604 | a picture buffer adds a coded buffer it names and an IDR it asks for, and takes nothing back |
| `EncoderContext.EncodeContext.RenderRateControlBuffer` | src/vabackend.c:2605-2643 | refines the rate-control buffer |
| `EncoderContext.EncodeContext.RenderRates` | src/vabackend.c:2612-2625 | refines its bit-rate half |
| `EncoderContext.EncodeContext.ReconfigureIfNeeded` | src/vabackend.c:1033-1098 | refines the debounced reconfigure with its failure paths |
| `EncoderContext.EncodeContext.ResizeTo` | src/vabackend.c:2931-2957 | refines the resize inside End |
| `EncoderContext.EncodeContext.SubmitPicture` | src/vabackend.c:2926-2972 | refines first submission, resubmission and fall-back |
| `EncoderContext.EncodeContext.FinishPicture` | src/vabackend.c:2973-3079 | refines counters, budget and slot after each answer |
| `EncoderContext.EncodeContext.EndPicture` | src/vabackend.c:2694-3079 | refines the whole encode branch of End with every error exit |
| `EncoderContext.EncodeContext.CurrentCopy` | src/vabackend.c:2745-2805 | refines the choice of the copy rectangle |
| `Staging.FillRows` | src/vabackend.c:2834-2850 | a padding loop sets exactly its rectangle |
| `Staging.CopyRows` | src/vabackend.c:2821-2831 | a payload loop copies exactly its rectangle, pixel by pixel |
| `Staging.StagePlane` | src/vabackend.c:2821-2850 | one plane: source inside the copied part, fill value elsewhere in the encode rectangle, nothing else changed |
| `Staging.StageRows` | src/vabackend.c:2821-2850 | both planes row by row; nothing outside the two encode rectangles changes |
| `Staging.StageFast` | src/vabackend.c:2813-2819 | the block copies give the same pixels on the encode rectangle |
| `Staging.StageFrame` | src/vabackend.c:2807-2851 | for every offset, size and pitch pair with in-bounds source: luma is source or 0x00, chroma source or 0x80, nothing past the planes changes; both paths meet it |
| `Staging.LumaIsSource` | src/vabackend.c:2807-2851 | a staged luma byte at row y and column x is the source byte at row c.y + y and column c.x + x, or 0 outside the copy |
| `Staging.ChromaIsSource` | src/vabackend.c:2807-2851 | a staged chroma byte likewise, in half the rows, or 128 outside the copy |
| `Staging.FrameBytesMonotone` | src/vabackend.c:2807-2851 | a lower frame needs no more bytes |
| `SurfaceImage.ContentIsSmallestCover` | src/vabackend.c:3600-3633 | over any sequence of puts since the reset the content rectangle covers all of them and lies in every box that does |
| `SurfaceImage.Surface.constructor` | src/vabackend.c:772-797 | a zeroed host buffer with aligned pitch that holds both planes |
| `SurfaceImage.Image.constructor` | src/vabackend.c:3260-3299 | the NV12 image layout for any size: luma, then chroma, both inside the buffer |
| `SurfaceImage.PutImage` | src/vabackend.c:3512-3638 | success exactly for an empty or in-range request; the clipped region is copied in both planes, all other surface bytes stay, the content rectangle grows by the region |
| `SurfaceImage.PutRows` | src/vabackend.c:3575-3598 | the row loops copy exactly the region |
| `SurfaceImage.GetImage` | src/vabackend.c:3426-3477 | success exactly for an in-range origin; the clipped region is copied and nothing else changes |
| `SurfaceImage.GetRows` | src/vabackend.c:3458-3475 | the row loops copy exactly the region |
| `SurfaceImage.ChromaRoom` | src/vabackend.c:3260-3262 | the buffer size leaves room for every chroma byte a copy can reach, odd sizes included |
| `Words.ClipExact` | src/vabackend.c:3445-3450 | one clip test with its wrapping sum keeps a region inside exactly when the sum fits 32 bits |
| `SurfaceImage.PutInsideExactly` | src/vabackend.c:3559-3573 | the clipped put lies inside image and surface along an axis if and only if no sum wraps or the surface clip makes up for it; then it moves all that fits |
| `SurfaceImage.GetInsideExactly` | src/vabackend.c:3443-3456 | the clipped get lies inside the surface along an axis if and only if its sum fits 32 bits or the image is small enough; then it moves all that fits |
| `SurfaceImage.UnsafeRequests` | src/vabackend.c:3443-3456 | a put and a get whose wrapped sums leave the image and the surface |
| `SurfaceImage.ClipPut` | src/vabackend.c:3562-3573 | the two clip tests of a put |
| `SurfaceImage.ClipGet` | src/vabackend.c:3443-3456 | the clip test and the cut of a get |
| `SurfaceImage.PutThenGet` | src/vabackend.c:3426-3633 | an in-range region put and read back is the same luma and chroma; all other bytes of the surface and of the second image stay |
| `SurfaceImage.PutPixel` | src/vabackend.c:3576-3583 | pixel (x, y) of a put is the surface's (dstX + x, dstY + y) and was the image's (srcX + x, srcY + y) |
| `SurfaceImage.PutChroma` | src/vabackend.c:3585-3598 | the same for chroma: half the rows, even columns |
| `SurfaceImage.PutThenGetPart` | src/vabackend.c:3426-3633 | a get of part of a put returns the matching part of the image: its luma always, its chroma where on each axis the part's offset or the surface position is even |
| `ResolveQueue.StepKeepsFree` | src/vabackend.c:1106-1122 | for any number of outstanding surfaces, every access of either thread keeps the index and slot discipline |
| `ResolveQueue.EmptyTestExact` | src/vabackend.c:1109-1115 | in every reachable state of any client the locked test tells whether something is queued if and only if the queue is empty or its length is no multiple of 16 |
| `ResolveQueue.TakeExactly` | src/vabackend.c:1117-1122 | a take gets the latest surface stored in its slot, which is the oldest outstanding one if and only if no store has overtaken it |
| `ResolveQueue.OrderSurvivesExactly` | src/vabackend.c:1106-1122 | for any client that queues each surface once: surfaces are taken first in, first out over a run if and only if no take found its surface overtaken |
| `ResolveQueue.SixteenLooksEmpty` | src/vabackend.c:3113-3119 | a run from the start after which 16 surfaces are queued and the consumer waits |
| `ResolveQueue.SeventeenthTakenFirst` | src/vabackend.c:3113-3119 | a run from the start on which the seventeenth surface is taken first |
| `ResolveQueue.StepKeepsRing` | src/vabackend.c:1106-1122 | with at most 15 outstanding, every access keeps what was taken a prefix of what was put in |
| `ResolveQueue.NoRace` | src/vabackend.c:1117-1122 | with at most 15 outstanding, the unlocked read and a concurrent store touch different slots |
| `ResolveQueue.QueueIsFifo` | src/vabackend.c:1106-1122 | over every interleaving with at most 15 outstanding, whatever the client begins or ends, surfaces are consumed once each and in order, indices are in range at every lock boundary, no read races a write and the locked test is right |
| `ResolveFlag.InFlightAfter` | src/vabackend.c:2514-3122 | what every access does to the set of surfaces in flight |
| `ResolveFlag.StepKeepsFlags` | src/vabackend.c:1135-1160 | every access keeps the flag set exactly for surfaces in flight and null frames |
| `ResolveFlag.StepKeepsFate` | src/vabackend.c:1135-1160 | every access keeps cleared flags paired with a copied or failed frame |
| `ResolveFlag.FlagMeansInFlight` | src/vabackend.c:3141-3147 | over every interleaving of a client that leaves surfaces in flight alone, the flag is set exactly for surfaces begun, queued, held, or mapped at a null pointer since they were begun; so a return from sync means copied or marked failed |
| `ResolveFlag.ResolveFlagsExactly` | src/vabackend.c:1135-1160 | one resolve leaves the flags exact if and only if it is not a null frame of a decoded picture |
| `ResolveFlag.NullPointerBlocksWaiter` | src/export-buf.c:563-576 | a nine-step run from the start after which a surface is flagged with nothing in flight |
| `ResolveFlag.NoWaiterLeft` | src/vabackend.c:1106-1160 | whatever mix of failed, successful and null resolves, the consumer can drain the queue, and then only pictures still open, and null frames, are flagged |
| `ResolveFlag.FlagOnlyInFlight` | src/vabackend.c:3141-3147 | for any client with at most 15 outstanding a set flag belongs to a surface in flight or to a null frame |
| `ResolveFlag.StepExactly` | src/vabackend.c:1135-1160 | one access of a client that pairs its calls keeps the flags exact if and only if it does not clear the flag of a surface that has another picture in flight |
| `ResolveFlag.FateFollowsAnswers` | src/vabackend.c:1135-1160 | over every run of a careful client: once the flag of a begun surface is clear, its picture is failed, and marked so, if and only if its decode was refused or its resolve reported a failed map or export, by the answers of the run; otherwise it was copied |
| `ResolveFlag.RefusedPictureFails` | src/vabackend.c:3110-3112 | a run on which a refused picture ends failed and marked although its frame could have been copied |
| `ResolveFlag.FlagExactUntilReuse` | src/vabackend.c:1135-1160 | over every run of such a client the flag means "in flight" throughout if and only if no resolve clears it while another picture of its surface is in flight |
| `ResolveFlag.SecondPictureUnflagged` | src/vabackend.c:2514-2519 | a run from the start after which a surface begun again is in flight without its flag |
| `PictureIndex.StepKeepsInv` | src/vabackend.c:2497-2512 | every paired Begin or End keeps indices below the issue counter and apart |
| `PictureIndex.IndicesDistinct` | src/vabackend.c:2497-2512 | over every paired run, surfaces of one context have different indices below its surface count of at most 32, and no index is issued twice |
| `PictureIndex.NeverIssuedTwice` | src/vabackend.c:2507-2511 | over every run, paired or not, no context hands out an index twice or one at or above its count of at most 32 |
| `PictureIndex.ExhaustionExact` | src/vabackend.c:2507-2511 | over every run, paired or not, Begin reports exhaustion exactly when an index is needed and all were issued |
| `PictureIndex.CreationFixesIndices` | src/vabackend.c:2115-2120 | over every run, by the argument of the creation: a context created with n render targets hands out 0, 1, 2, ... up to n of them for n from 1 to 32 and 32 otherwise, refuses exactly after that many, and leaves a refused surface without an index |
| `PictureIndex.SecondSurfaceGetsOne` | src/vabackend.c:2115-2120 | a run with 16 render targets on which the second fresh surface gets index 1 |
| `PictureIndex.EncodingCostsIndex` | src/vabackend.c:2483-2488 | a surface that was encoded gets a new index, or is refused, at its next Begin in any decode context |
| `PictureIndex.BeginIndexIsOwn` | src/vabackend.c:2497-2512 | after every paired run, an accepted Begin, paired or not, enters the context with an index that context issued if and only if the surface is not in an unfinished picture of another context, or was last ended in another |
| `PictureIndex.UnpairedBeginSharesIndex` | src/vabackend.c:2497-2512 | an unpaired run after which two surfaces of one context hold the same index |
| `PictureIndex.TwoAndTwoReached` | src/vabackend.c:2115-2120 | the state that run starts from is reached by creating two surfaces and two contexts |
| `BitstreamModel.GrowthReaches` | src/vabackend.c:412-414 | the growth loop ends exactly when there is room already or at least two bytes to grow from |
| `BitstreamModel.AppendsEndExactly` | src/vabackend.c:406-422 | over every run of appends and resets, across pictures, all appends end if and only if the first is not empty or all are empty |
| `BitstreamModel.NeverStuckExactly` | src/vabackend.c:406-422 | the condition the AV1 handler asks of its slices says exactly that all their appends end |
| `BitstreamModel.WordsRoundTrip` | src/h264.c:98-99 | an offset table in memory reads back word for word |
| `BitstreamModel.SplitExact` | src/av1.c:308-320 | cutting the memory at the chunk bounds gives the chunks exactly below 4 GiB |
| `BitstreamModel.TableRecovers` | src/h264.c:91-104 | the bounds a reader derives from the table are the prefix sums of the chunk lengths |
| `BitstreamModel.ReadBackExact` | src/vabackend.c:3088-3091 | a submission reads back to all slices in order if and only if the stream is below 4 GiB |
| `BitstreamModel.RenderCollects` | src/h264.c:74-104 | for any number of parameter/data pairs the buffers hold exactly their slices, the length field is the stream length and the count adds up |
| `BitstreamModel.H264PictureReadsBack` | src/h264.c:74-104 | an H.264 picture of any number of pairs, read through its own count and length fields, gives back every slice; exactly below 4 GiB |
| `BitstreamModel.Av1PictureReadsBack` | src/av1.c:301-323 | the same for AV1 through its table rows; the count field is the number of slices exactly when no tiles were announced |
| `BitstreamModel.TilesCountedTwice` | src/av1.c:301-306 | one tile and one slice: the count field says two |
| `BitstreamModel.LastTilesCount` | src/av1.c:301-306 | of several announcements of tiles the last one counts, whatever was rendered before it |
| `BitstreamLayout.SubmittedBytes` | src/h264.c:91-103 | both codecs, any pairs: every slice lies in the memory where the extents before it end, start code first in H.264, and its byte j is data[offset + j] of its own pair |
| `BitstreamLayout.SubmittedTable` | src/av1.c:308-323 | both codecs, any pairs: the table row of every slice says where its start code or its bytes begin and, for AV1, where they end, as little-endian words cut to 32 bits |
| `BitstreamLayout.ReadBackParts` | src/h264.c:91-103 | below 4 GiB, both codecs: as many slices are read back as there are extents, and each is, byte for byte, the part of its own pair's data that its extent names |
| `BitstreamLayout.OneExtent` | src/h264.c:95-102 | the extent [2, 3] of [9, 9, 1, 2, 3] is submitted as 0, 0, 1, 1, 2, 3 |
| `BitstreamModel.LengthFieldExact` | src/vabackend.c:2521 | the H.264 length field equals the buffer length (to 32 bits) exactly when the buffer was empty, or a multiple of 4 GiB, at Begin |
| `BitstreamModel.UnpairedBeginLosesLength` | src/vabackend.c:2521 | an unended picture leaves bytes that the next length field does not count |
| `BitstreamContext.AppendableBuffer.constructor` | src/vabackend.h:23-27 | no allocation, no contents |
| `BitstreamContext.AppendableBuffer.Append` | src/vabackend.c:406-422 | contents become old contents plus the data, across first allocation and regrowth; the allocation at least holds them and over-allocates by at most a half when it grows |
| `BitstreamContext.AppendableBuffer.Store` | src/vabackend.c:420-421 | the data lands behind the contents |
| `BitstreamContext.AppendableBuffer.Reset` | src/vabackend.c:3090-3091 | contents empty, allocation kept |
| `BitstreamContext.GrowFor` | src/vabackend.c:412-414 | meets the need after some number of growth steps, by at most a half too much |
| `BitstreamContext.DecodeContext.constructor` | src/vabackend.h:207-208 | an empty assembly |
| `BitstreamContext.DecodeContext.BeginPicture` | src/vabackend.c:2521 | clears the counts only |
| `BitstreamContext.DecodeContext.CopyPicParam` | src/av1.c:82-85 | presets the slice count to the tile count |
| `BitstreamContext.DecodeContext.CopySliceParam` | src/h264.c:85-89 | stores the extents and adds to the slice count |
| `BitstreamContext.DecodeContext.AppendH264` | src/h264.c:93-103 | one more slice: offset row, start code, bytes and length field |
| `BitstreamContext.DecodeContext.CopyH264SliceData` | src/h264.c:91-104 | refines the loop: buffers stay the stream and table of all slices |
| `BitstreamContext.DecodeContext.AppendAv1` | src/av1.c:311-319 | one more slice: bytes, start and end offset |
| `BitstreamContext.DecodeContext.AppendAllAv1` | src/av1.c:309-320 | the loop: all slices appended, and what the buffer can take afterwards |
| `BitstreamContext.DecodeContext.CopyAV1SliceData` | src/av1.c:308-323 | refines the loop, sets the length to the buffer size, and says what the buffer can take afterwards |
| `BitstreamContext.DecodeContext.EndPicture` | src/vabackend.c:3088-3091 | hands over memory that starts with stream and table, then empties both buffers keeping their allocations |
| `ObjectModel.ReverseSweepDrains` | src/list.h:15 | remove-while-iterating in reverse visits every element once, last first, and leaves none, also for the empty array |
| `ObjectModel.ReverseStopsByWrap` | src/list.h:15 | the index left after element 0 is not below any size |
| `ObjectModel.ForwardSweepExact` | src/vabackend.c:554-578 | remove-while-iterating forward visits the even positions and leaves the odd ones; nothing is left exactly below two elements |
| `ObjectModel.LookupAgrees` | src/vabackend.c:450-463 | typed lookup in an ordered array is lookup in the map, the invalid id included |
| `ObjectModel.WithoutIsRemoval` | src/vabackend.c:490-506 | deletion removes exactly the first entry with the id, or nothing, and keeps the order |
| `ObjectModel.DeleteAgrees` | src/vabackend.c:490-506 | deletion in the array is deletion in the map and keeps the order |
| `ObjectModel.RunRefines` | src/vabackend.c:433-506 | over every run of fewer than 2^32 allocations ids increase along the array and the array stands for the reference map |
| `ObjectModel.RunLookups` | src/vabackend.c:450-463 | after every such run each typed lookup answers as the reference map does |
| `ObjectModel.RunDeletes` | src/vabackend.c:490-506 | a delete shortens the array by one exactly when the id is live |
| `ObjectModel.IdWrapBreaksOrder` | src/vabackend.c:443 | the allocation after the last id keeps the order exactly when the table is empty |
| `ObjectStore.PtrArray.EnsureCapacity` | src/list.c:7-28 | room for one more, elements kept, unused part NULL; 16 at first, then half as much again |
| `ObjectStore.PtrArray.Add` | src/list.c:30-34 | contents grow by the element at the end |
| `ObjectStore.PtrArray.RemoveAt` | src/list.c:44-57 | exactly the indexed element goes, order kept, freed place NULL; out of range changes nothing |
| `ObjectStore.PtrArray.GetAt` | src/list.c:69-74 | the element, or NULL out of range |
| `ObjectStore.PtrArray.DrainReverse` | src/export-buf.c:358-367 | the unsigned reverse loop visits all elements in reverse and empties the array |
| `ObjectStore.ShiftDown` | src/list.c:49-56 | the tail moves down by one place |
| `ObjectStore.ObjectTable.constructor` | src/vabackend.c:433-448 | an empty table |
| `ObjectStore.ObjectTable.AllocateObject` | src/vabackend.c:433-448 | appends an object with the next 32-bit id; until ids wrap the id is fresh and the map gains exactly this object |
| `ObjectStore.ObjectTable.FindObject` | src/vabackend.c:450-463 | the linear search answers as the map does |
| `ObjectStore.ObjectTable.RemoveObject` | src/vabackend.c:490-506 | the map loses exactly this id |
| `ObjectStore.ObjectTable.FindIndex` | src/vabackend.c:496-503 | the first entry with the id, or the size |
| `ObjectStore.ObjectTable.DeleteAllObjects` | src/vabackend.c:554-578 | leaves every second object, and the one with the invalid id where the loop comes by it |
| `ObjectModel.LeftoverEmpty` | src/vabackend.c:554-578 | nothing is left exactly for an empty table or a single object with a valid id |
| `PoolModel.LinksAreInverses` | src/export-buf.c:325-328 | over every run surface-to-image and image-to-surface links undo each other |
| `PoolModel.AttachedExact` | src/export-buf.c:516-561 | over every run exactly the surfaces realised with success and not detached since have an image, of their own size |
| `PoolModel.OwnedIsBacking` | src/export-buf.c:343-350 | the search of a detach ends at the image the surface points to |
| `PoolModel.PoolIsPeak` | src/export-buf.c:325-383 | over every run the images of a size number exactly the peak of simultaneously attached surfaces of that size |
| `PoolModel.RealiseFailsExactly` | src/export-buf.c:516-561 | realise fails exactly when allocation does, the surface has no image and all images of its size are in use; a failure changes nothing |
| `ImagePool.BackingImages.RealiseSurface` | src/export-buf.c:516-561 | refines realise with reuse, allocation and failure |
| `ImagePool.BackingImages.DetachImage` | src/export-buf.c:330-356 | refines detach |
| `ImagePool.BackingImages.FindFreeImage` | src/export-buf.c:369-383 | the first free image of the size, or none |
| `ImagePool.BackingImages.FindImageOf` | src/export-buf.c:343-350 | the first image naming the surface, or none |
| `ImagePool.BackingImages.Attach` | src/export-buf.c:325-328 | sets both links together |
| `ImagePool.BackingImages.DestroyAllImages` | src/export-buf.c:358-367 | no image and no link is left |
| `Av1SkipMode.LowBits` | src/av1.c:11 | masking with m - 1 is the remainder, for negative differences too |
| `Av1SkipMode.OneBit` | src/av1.c:11 | masking with m is the parity of the quotient times m |
| `Av1SkipMode.DistIsRepresentative` | src/av1.c:5-12 | the distance is the one value of [-m, m) congruent to the difference modulo 2m |
| `Av1SkipMode.DistNotTransitive` | src/av1.c:5-12 | the order is cyclic: three hints where it is not transitive |
| `Av1SkipMode.SameSideCompares` | src/av1.c:108-121 | on one side of a common hint, comparing two hints directly is comparing their distances to it |
| `Av1SkipMode.NearestStep` | src/av1.c:108-121 | one more reference: the update keeps the first index of the nearest |
| `Av1SkipMode.RefHints` | src/av1.c:101-106 | the hint of each reference, 0 for a missing or unused surface |
| `Av1SkipMode.NearestBothSides` | src/av1.c:96-121 | the loop finds the first index of the nearest forward and of the nearest backward reference, or -1 |
| `Av1SkipMode.SecondForward` | src/av1.c:129-139 | the loop finds the first index nearest forward of the nearest forward hint |
| `Av1SkipMode.SelectSkipMode` | src/av1.c:95-148 | the frames are, counted from 1, the first nearest forward and the first nearest backward index, or the nearest forward and the first nearest forward of it, the smaller one first; (0,0) if there are none |
| `Av1SkipMode.ChosenUnique` | src/av1.c:95-148 | the declared choice is determined by the hints |
| `Av1SkipMode.NearestOnBothSides` | src/av1.c:124-127 | seven-bit hints [7, 4, 4, 4, 9, 9, 9] around 8: the frames are 1 and 5 |
| `Av1SkipMode.SecondForwardExact` | src/av1.c:129-139 | a hint counts as second forward exactly when strictly farther back, or equal to the current one while the nearest is a full half-range away |
| `Av1SkipMode.CurrentCountsAsSecond` | src/av1.c:129-139 | hints for which a reference with the current hint counts as second forward |
| `Av1SkipMode.NoOrderNoSkip` | src/av1.c:6-8 | without order hints no frames are chosen |

## Left out

- JpegWriter.Reconstruct: requires that the worst-case size does not wrap 64 bits, exactly when its buffer has room for the slice data (`MaxSizeWraps`) and always for fewer than 2^32 - 21 slices (`MaxSizeFits`); the comparison with `SIZE_MAX` and the outcome of `malloc` are one input.
- JpegContext.Context.CopySliceData: has the same requirement, and stops before the finished JPEG is appended to the bitstream buffer with its own 32-bit bound; the append is `AppendableBuffer.Append`.
- EncoderContext.EncodeContext.EndPicture: does not copy the produced bitstream into the coded buffer, set the surface status, or write debug dumps and health logs.
- EncoderTheorems.SizesNeverGrow: takes it that the encoder's reconfigure call leaves the parameters it is given unchanged.
- EncoderGeometry.CopyInsideSurface: takes it that the edges of the content rectangle fit 32 bits, as those of every rectangle inside its surface do.
- Staging.StageFrame: requires a source rectangle inside the host buffer, which `ReachableCopyStageable` supplies for the surfaces `CopyInsideSurface` admits; the luma and chroma row loops, which the source runs alternately, are run plane by plane, on disjoint targets.
- SurfaceImage.PutImage: requires of a request that gets as far as the copy that the clipped region lies inside image and surface, in the form a caller can check (`PutInsideExactly`); otherwise the source copies bytes outside the pictures.
- SurfaceImage.GetImage: the branch without a decode context only, with the same requirement (`GetInsideExactly`).
- SurfaceImage.Image.constructor: does not model the overflow of the 32-bit product of width and height.
- ResolveFlag.FlagMeansInFlight: for clients that do not begin a surface in flight (`FlagExactUntilReuse` is for those that do), with at most 15 outstanding and successful CUDA context calls; an End before the first Begin of a context is not modelled.
- BitstreamContext.AppendableBuffer.Append: requires that growth can end (`GrowthReaches`) and that sizes stay addressable; allocation failure, which the source does not test, is not modelled.
- BitstreamContext.DecodeContext.CopyAV1SliceData: requires slices whose appends end (`NeverStuckExactly`), and slice extents inside the data buffer.
- BitstreamContext.DecodeContext.CopyH264SliceData: requires slice extents inside the data buffer, since the source reads outside it otherwise.
- Av1SkipMode.RefHints: requires reference indices below 8, since the source reads outside its table otherwise.
- ObjectStore.ObjectTable.AllocateObject: fewer than 2^31 live objects, from where the growth of the capacity can wrap; so do PtrArray.EnsureCapacity and PtrArray.Add.
- ObjectStore.ObjectTable.DeleteAllObjects: the table only, not the destruction of contexts and buffers on the way.
- PoolModel.PoolIsPeak: for calls that run one after the other; two threads that search and add at the same time may add an image another thread is about to free.
- ImagePool.BackingImages.RealiseSurface: without the NV21 work-around.
- ImagePool.BackingImages.DetachImage: without the NV21 branch, which leaves the destroyed image in the list.
- Bit masks of table numbers are sets of numbers.
- Failure to allocate the JPEG context, and dangling slice-parameter pointers of destroyed buffers.
- Derived images that share a surface's memory, and `nvGetImage` from decoded surfaces.
- Shutdown of the resolve thread in `destroyContext`, which rests on a timed join and an unlocked flag.
- `getObjectByPtr`, `alloc_and_add_element` and `remove_and_free_element_at`: variants of members that are modelled.
- Picture parameters of the codecs, and the slice assembly of HEVC, MPEG-2, MPEG-4, VC-1, VP8 and VP9: field copies, or variants of the assembly modelled.
- Profile, entrypoint and attribute queries, environment parsing, logging, GPU discovery, the direct backend's allocation and descriptors.

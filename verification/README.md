# Floral codec service: verified models

Models, in Dafny, of the bookkeeping and bitstream code of an Android Codec2 service, with proofs about
every input, every run or every reachable state. The kernel driver, Vulkan, VA-API and the block pools are
nondeterministic: every answer they could give is covered.

| part | files |
|---|---|
| Annex B, length-prefixed, avcC/hvcC and raw streams | `Nal`, `AnnexBNormalizer`, `LengthPrefixed`, `ConfigRecord`, `Normalize`, `PrefixedUnits`, `CodecConfig` |
| H.264 level selection | `H264Level`, `Integers` |
| V4L2 encoder session | `EncoderMetadata`, `CaptureLedger`, `EncoderDevice`, `EncoderSession`, `V4l2` |
| V4L2 decoder session | `DecoderDevice`, `DecoderSession` |
| Output monitor thread | `OutputMonitor` |
| Vulkan import caches and conversion | `Recency`, `VulkanDevice`, `VulkanCaches`, `VulkanConverter`, `Nv12` |
| Component | `SurfacePool`, `ConfigReplay`, `EncoderDrain`, `Nv12Cpu` |

Objects that the source updates in place are classes; their ghost fields record the history that the
invariants speak about. Each loop of the source is a loop here, proved against a function or a grammar.
Protocols between threads are state machines whose steps are the critical sections. `dafny verify
dfyconfig.toml` checks the project.

## What is assumed of the environment

- The encoder's driver dequeues only buffers it owns and writes only to capture slots it owns
  (`EncoderDevice`). The decoder's driver is trusted with nothing.
- A Vulkan object is created under a handle that no live object has; a destroyed object's value may come back.
- `vaCreateSurfaces` returns an id that is not in use, an allocator an address that is not in use.
- One thread acquires decoder surfaces, as the decoder does.

## Where the code does less than its claim

- A four-byte length prefix `00 00 01 xx` can be read as a start code. `Normalize.FourBytePrefixExact` and, for
  lists, `PrefixedUnits.FourBytePrefixesExact` say exactly when; `Normalize.HijackedExample` is an instance.
- `ParseAvcc` returns false without clearing its output when the SPS list is cut short: `ConfigRecord.ResidueExact`.
- The macroblock rounding adds 15 in 32 bits. `H264Level.FindMinimumLevelExact` says exactly when the result
  is still right, and `H264Level.MonotoneExact` when the level still grows with the stream;
  `H264Level.WrapExample` is an instance.
- Only a Venus session has a bitrate peak. Elsewhere a later bitrate can exceed what the advertised level admits:
  `EncoderSession.SessionLevelHolds` says exactly when.
- No check compares an NV12 stride with the width or keeps the planes apart: `Nv12.StrideNeeded`,
  `Nv12.ChromaStrideNeeded` and `Nv12.PlanesCollideExact` say exactly when that matters; `Nv12.ShortStrideExample`
  and `Nv12.CollidingExample` are instances.
- A drain to the end of the stream empties the decoder without arming its configuration again: `ConfigReplay.EmptiedExact`.
- `DequeueDecoderFrame` does not check its pool. A call without one uses the null pointer if and only if it takes
  a buffer whose slot is to be refilled, which the driver decides: `nullPool` in `DecoderSession`, from `PumpOne` to
  `AnyRun`. Passing a pool is sufficient for the caller.
- A negotiation that fails while a capture setup is pending leaves it pending with no slots, and streaming
  can then start without any: `stale` in `DecoderSession` marks exactly that case.
- A decoder slot whose refill fails is not queued again before the next setup: `lost` in `DecoderSession`,
  and `PumpOne` says exactly when one is lost.
- An empty last decoder buffer is published with its block, so conservation by payload is stated for the encoder only.
- An error inside a drain loop drops the output that is held back, and the frame that could not be wrapped:
  `unwrapped` in `EncoderDrain`. The configuration can go with it: `EncoderDrain.ConfigDropped`.
- A call that reports corruption can drop a dequeued buffer: `faulted` in `EncoderSession` marks that, and the
  driver's frames are accounted for without loss until then. Frame indices are conserved in any case.
- `ResetDecoderOutputState` releases references that a frame or a waiting callback still owns: `SurfacePool.ResetExact`.

The CPU conversion compares sizes without rounding them up to whole blocks. That is no fault of the component, since
its settings accept even sizes only: `Nv12Cpu.ReadsInsideExact` and `Nv12Cpu.SettableReadsInside`.

## Model

| member | source | states |
|---|---|---|
| Nal.ParseAnnexBExact | src/BitstreamUtils.cpp:78-103 | a buffer is accepted with exactly these NAL units if and only if it is a byte stream (anything before the first start code, then units with trailing zeros) of canonical units, and their Annex B form fits `size_t` |
| Nal.FindPrefixIsFirst | src/BitstreamUtils.cpp:32-52 | the search position is a start code prefix and no earlier position is one; it is the end of the data only if there is none |
| Nal.TrimExact | src/BitstreamUtils.cpp:89-92 | stripping removes all trailing zero bytes and nothing else |
| Nal.SplitStream | src/BitstreamUtils.cpp:85-102 | splitting a written byte stream gives back its NAL units, whatever their trailing zeros |
| Nal.DecomposeCovers | src/BitstreamUtils.cpp:85-102 | every tail of a buffer is the written form of its units followed by padding, so the loop skips no byte |
| Nal.SplitCanonical | src/BitstreamUtils.cpp:93-97 | units with valid headers that were split off contain no `00 00 01` and do not end in zero |
| Nal.AnnexBRoundTrip | src/BitstreamUtils.cpp:66-103 | the Annex B form of canonical NAL units parses to those units |
| Nal.NormalizeIdempotent | src/BitstreamUtils.cpp:78-103 | normalised output is canonical and normalises to itself |
| Nal.CanonicalConcat | src/BitstreamUtils.cpp:78-103 | two canonical streams back to back parse to the units of the first followed by those of the second |
| Nal.AnnexBInjective | src/BitstreamUtils.cpp:66-76 | different lists of canonical units have different Annex B forms |
| AnnexBNormalizer.FindStartCode | src/BitstreamUtils.cpp:32-52 | the loop reports the first start code at or after the offset, with the zero byte of a four-byte code included, and nothing when there is none or the offset is past the end |
| AnnexBNormalizer.AppendNal | src/BitstreamUtils.cpp:66-76 | one start code and one NAL are appended exactly when the header is valid and the size fits; otherwise the output is unchanged |
| AnnexBNormalizer.TrimEnd | src/BitstreamUtils.cpp:89-92 | the loop ends at the trimmed NAL |
| AnnexBNormalizer.NormalizeAnnexB | src/BitstreamUtils.cpp:78-103 | the loop terminates, succeeds exactly when the buffer parses, and then outputs the Annex B form of the parsed units; on failure the output is empty |
| LengthPrefixed.DecodeExact | src/BitstreamUtils.cpp:113-131 | for every prefix size the decoder accepts a buffer with these units if and only if the buffer is their length-prefixed encoding, they are not empty and their headers are valid; the units are unique |
| LengthPrefixed.AnnexBSize | src/BitstreamUtils.cpp:105-132 | the converted output is longer than the input by (4 - n) bytes a unit |
| LengthPrefixed.ConvertedIsNormalized | src/BitstreamUtils.cpp:105-132 | canonical units converted from length prefixes are already normalised |
| LengthPrefixed.ReadWriteBE | src/BitstreamUtils.cpp:119-122 | a size written in n big-endian bytes reads back |
| LengthPrefixed.WriteReadBE | src/BitstreamUtils.cpp:119-122 | the bytes read for a size are the ones that write it |
| LengthPrefixed.ReadSize | src/BitstreamUtils.cpp:119-122 | the shift loop computes the big-endian value of the prefix |
| LengthPrefixed.ConvertLengthPrefixed | src/BitstreamUtils.cpp:105-132 | the loop succeeds exactly when the decoder accepts, outputs the Annex B form, and leaves the output empty when it fails, or untouched for a bad prefix size |
| ConfigRecord.AvccRoundTrip | src/BitstreamUtils.cpp:139-188 | an avcC record built from SPS and PPS parses to them in order, with the encoded length size |
| ConfigRecord.AvccExact | src/BitstreamUtils.cpp:139-188 | a record is accepted with these units and this length size if and only if it is some avcC record of them, followed by any bytes |
| ConfigRecord.ResidueExact | src/BitstreamUtils.cpp:149-162 | a rejected avcC record leaves bytes in the output if and only if its SPS list is cut short after at least one unit |
| ConfigRecord.ResidueExample | src/BitstreamUtils.cpp:149-152 | a nine-byte record that is rejected with its first SPS left in the output |
| ConfigRecord.HvccRoundTrip | src/BitstreamUtils.cpp:190-231 | an hvcC record built from arrays of units parses to all of them in order, with the encoded length size |
| ConfigRecord.HvccExact | src/BitstreamUtils.cpp:190-231 | a record is accepted with these units and this length size if and only if it is some hvcC record of them, followed by any bytes |
| ConfigRecord.AppendNalList | src/BitstreamUtils.cpp:149-182 | the counted list loop never reads past the end (the subtraction never wraps) and appends the listed units, the part before a truncation, or reports a bad one |
| ConfigRecord.ParseAvcc | src/BitstreamUtils.cpp:139-188 | the method agrees with the grammar in every outcome, including the truncation inside the SPS list that returns false with the output not cleared |
| ConfigRecord.ParseHvcc | src/BitstreamUtils.cpp:190-231 | the nested loops agree with the grammar and clear the output on every failure after the header |
| Normalize.TryLengthSizes | src/BitstreamUtils.cpp:239-262 | the first candidate in order that decodes gives output and size; with none the call fails and the output is empty |
| Normalize.NormalizeStream | src/BitstreamUtils.cpp:264-317 | the dispatch agrees with the parse of records, byte streams, length prefixes and raw units; a caller without a place for the length size cannot have a record parsed; what a failed call leaves in the output is stated for every form |
| Normalize.ParsedIsValid | src/BitstreamUtils.cpp:264-317 | whatever form was recognised, the result is a non-empty list of units with valid headers and a length size in 1..4 |
| Normalize.LengthPrefixedAccessUnit | src/BitstreamUtils.cpp:264-335 | a length-prefixed access unit of any prefix size is normalised to its units with that size if and only if the byte stream parser rejects it or finds the same units |
| Normalize.FourBytePrefixExact | src/BitstreamUtils.cpp:264-335 | one canonical NAL with a four-byte prefix normalises to itself if and only if it is not `Hijacked`: its size bytes, alone or with its first bytes, do not form a start code followed by a valid header |
| Normalize.HijackedExample | src/BitstreamUtils.cpp:264-335 | a 260-byte NAL that does not come back, as its length prefix is read as a start code |
| PrefixedUnits.SentVerdict | src/BitstreamUtils.cpp:78-103 | what the byte stream parser finds in a list of NAL units with four-byte prefixes, told from their sizes and first bytes |
| PrefixedUnits.UnitsValid | src/BitstreamUtils.cpp:54-64 | what it finds is valid if and only if each NAL whose prefix holds a start code leaves a valid unit behind it |
| PrefixedUnits.FourBytePrefixesExact | src/BitstreamUtils.cpp:264-335 | a list of canonical NAL units with four-byte prefixes normalises to itself if and only if it is not `Misread`: some prefix holds a start code, each that does leaves a valid unit, and the result is not the same list by coincidence |
| PrefixedUnits.ShortUnitsSafe | src/BitstreamUtils.cpp:264-335 | units of 2 to 255 bytes always come back |
| CodecConfig.FindNalEnd | src/BitstreamUtils.cpp:352-360 | the second scan ends at the next NAL boundary of the normalised stream |
| CodecConfig.KeepParameterSets | src/BitstreamUtils.cpp:348-382 | the scan loop outputs exactly the ordered filter of the parameter sets and finds exactly their types |
| CodecConfig.ExtractCodecConfig | src/BitstreamUtils.cpp:337-383 | extraction succeeds if and only if the stream normalises and every required type is present, and then outputs the Annex B form of the parameter sets in order |
| CodecConfig.ParameterSetsAre | src/BitstreamUtils.cpp:361-374 | a unit is kept if and only if it is one of the input and a parameter set |
| CodecConfig.ParameterSetsOrdered | src/BitstreamUtils.cpp:351-376 | kept units keep their order |
| CodecConfig.ExtractIdempotent | src/BitstreamUtils.cpp:337-383 | extracting from extracted configuration changes nothing |
| H264Level.TableExact | src/H264Level.cpp:34-54 | each dimension limit of the table is floor(sqrt(8 MaxFS)) of its row, and the levels ascend in every column (section A.3.1 and Table A-1 of ITU-T H.264) |
| H264Level.LeastLevel | src/H264Level.cpp:62-90 | the unbounded-integer specification returns the least level that meets all four limits; every higher one meets them too |
| H264Level.FindMinimumLevelExact | src/H264Level.cpp:62-90 | the wrapping 32- and 64-bit code equals the unbounded specification if and only if neither dimension is within 15 of 2^32, or an argument is zero, or what does not wrap already exceeds every level |
| H264Level.WrapExample | src/H264Level.cpp:70-71 | a frame of 2^32 - 1 columns is given a level although no level admits it |
| H264Level.MonotoneExact | src/H264Level.cpp:62-90 | no smaller, slower or poorer stream gets a higher level than this one, or none, if and only if neither dimension of this one is within 15 of 2^32 or it gets no level itself |
| H264Level.MinimumLevelMonotone | src/H264Level.cpp:62-90 | the level that the code chooses never decreases when width, height, frame rate or bitrate grow, as long as the larger frame does not wrap |
| H264Level.ChosenLevelAdmits | src/H264Level.cpp:62-90 | the level chosen for a bitrate bound admits a bitrate if and only if no dimension wrapped and the level's own limit allows the bitrate, which it does up to the bound |
| H264Level.LevelCovers | src/H264Level.cpp:62-90 | the level specified for a bound admits every smaller bitrate |
| EncoderMetadata.TimestampExact | src/V4l2EncoderMetadata.h:33-43 | a timestamp is made exactly for 0 <= t <= INT64_MAX/1000, and its seconds and microseconds give t back |
| EncoderMetadata.TimestampInjective | src/V4l2EncoderMetadata.h:33-43 | two times that get the same timestamp are equal |
| EncoderMetadata.TakeIsFifo | src/V4l2EncoderMetadata.h:45-59 | taking an index removes the oldest entry of that time and no other entry, in multiset and in per-time order |
| EncoderMetadata.TakeFrameIndex | src/V4l2EncoderMetadata.h:45-59 | the search loop finds the first entry of the time, or reports that there is none |
| CaptureLedger.ConservedPush | src/V4l2CodecSession.cpp:823-874 | a dequeued buffer moves one entry from the metadata list to the produced frames and loses none |
| CaptureLedger.KeptPush | src/V4l2CodecSession.cpp:823-874 | the entries produced are exactly the buffers worth keeping, in the driver's order |
| CaptureLedger.SlotsPush | src/V4l2CodecSession.cpp:823-874 | a kept buffer's slot passes from the kernel to exactly one queue entry |
| CaptureLedger.SlotsPop | src/V4l2CodecSession.cpp:1080-1127 | copying out the front entry returns its slot to the kernel, or retires it at the end of the stream; no other slot moves |
| CaptureLedger.QueueBounded | src/V4l2CodecSession.cpp:823-874 | the driver's buffers in the pending queue never outnumber the capture slots, with or without a synthetic end of stream among them |
| EncoderSession.Session.SetEncoderBitrate | src/V4l2CodecSession.cpp:519-585 | an accepted bitrate leaves the effective bitrate within the Venus peak, which does not change once the session runs; a refused one changes nothing |
| EncoderSession.Session.AdvertiseLevel | src/V4l2CodecSession.cpp:712-749 | for a frame that covers the settings and the stride, the level set is the least one for that frame, the frame rate and the larger of effective and peak bitrate |
| EncoderSession.Session.NegotiateLayout | src/V4l2CodecSession.cpp:624-721 | the size for which the level is chosen is at least the settings' size, and its width at least the raw stride |
| EncoderSession.SessionLevelHolds | src/V4l2CodecSession.cpp:519-742 | in every state of a running AVC session the level it advertised was chosen for a frame that covers the settings and the stride, and on Venus the bitrate in force is within its bound; it admits that frame and bitrate on unbounded integers if and only if no reported dimension wrapped and the bitrate is within the level's own limit, which on Venus it always is |
| EncoderSession.Session.ConfigureEncoder | src/V4l2CodecSession.cpp:624-787 | configuration either starts both queues with every capture slot in the kernel, the raw stride being the input's and the level the least one for a frame that covers settings and stride and for the larger of effective and peak bitrate, or leaves the session not started with its books intact |
| EncoderSession.Session.PumpEncoderCapture | src/V4l2CodecSession.cpp:823-874 | every dequeue keeps conservation, slot ownership and payload integrity; entries are only appended; success means the driver has nothing more |
| EncoderSession.Session.DequeueEncoderInputs | src/V4l2CodecSession.cpp:803-821 | exactly the slots the driver returned become free and drop their buffers; the others keep theirs |
| EncoderSession.Session.Backpressure | src/V4l2CodecSession.cpp:917-945 | a free slot is offered only when fewer frames are in flight than there are slots; blocking is reported only when that is not so after the driver was pumped dry |
| EncoderSession.Session.QueueEncoderFrame | src/V4l2CodecSession.cpp:898-1078 | success records exactly this index under this time; any other outcome records nothing; the metadata list never exceeds the input slots |
| EncoderSession.Session.Submit | src/V4l2CodecSession.cpp:1045-1078 | the chosen slot is queued holding exactly one of the two owners, together with its metadata entry |
| EncoderSession.Session.CopyEncoderFrame | src/V4l2CodecSession.cpp:1080-1127 | the frame handed out has the bytes the driver wrote, the front entry's index and flags; on failure the entry and its slot stay |
| EncoderSession.Session.DequeueEncoderFrame | src/V4l2CodecSession.cpp:1129-1162 | the frame handed out is the oldest produced one not handed out yet; on failure nothing is handed out or dropped |
| EncoderSession.Session.StartEncoderDrain | src/V4l2CodecSession.cpp:1164-1183 | draining a session that never started queues exactly one synthetic end of stream |
| EncoderSession.Session.Close | src/V4l2CodecSession.cpp:306-342 | nothing of the epoch is left and every buffer is back |
| EncoderSession.Session.Open | src/V4l2CodecSession.cpp:259-304 | an epoch starts with empty books whatever went before, and only with usable settings |
| EncoderSession.Session.Flush | src/V4l2CodecSession.cpp:344-350 | a flush closes and reopens with the same settings |
| EncoderSession.SessionAccounts | src/V4l2CodecSession.cpp:823-1127 | a session's own lists: index conservation, for each time the indices taken are a prefix of those queued, and the queues fit their slots |
| EncoderSession.AnyRun | src/V4l2CodecSession.cpp:259-1183 | whatever the sequence of calls and the driver's answers, all session invariants hold after every call, the session accounts for every frame index, its advertised level means what `SessionLevelHolds` says of the bitrate in force, and unless a call of the epoch reported corruption nothing the driver gave in it was dropped or reordered |
| EncoderSession.IndexConservation | src/V4l2CodecSession.cpp:823-1127 | the multiset of queued frame indices is that of the metadata list, the non-empty pending frames and the delivered frames together, and the counts add up |
| DecoderSession.Session.BeginDecoderCaptureSetup | src/V4l2CodecSession.cpp:1297-1344 | success leaves fresh, unqueued slots and a pending setup; failure leaves no slots and does not clear a setup that was pending, and `stale` holds afterwards in exactly that case |
| DecoderSession.Session.QueueDecoderCapture | src/V4l2CodecSession.cpp:1362-1385 | a slot is queued only with a block of the negotiated layout, and then holds exactly it |
| DecoderSession.Session.ProgressDecoderCaptureSetup | src/V4l2CodecSession.cpp:1387-1424 | an interrupted setup keeps every slot it had queued, with its block, and goes on with the others; streaming starts only with all slots queued |
| DecoderSession.QueuedExactlyOnce | src/V4l2CodecSession.cpp:1395-1421 | between allocation and the start of streaming each slot is queued exactly once, however often the setup was interrupted |
| DecoderSession.Session.TakeBuffer | src/V4l2CodecSession.cpp:1476-1494 | a dequeued slot gives up its block to at most one frame; an empty buffer is published only as the last one, with its block |
| DecoderSession.Session.PumpOne | src/V4l2CodecSession.cpp:1462-1501 | one round takes at most one buffer; a slot is lost if and only if the buffer taken was not the last and its refill failed |
| DecoderSession.Session.PumpDecoderCapture | src/V4l2CodecSession.cpp:1460-1503 | every buffer the driver gives is taken in order, except one that a call refuses as corrupt; only a call that fails loses a slot, and at most one; queued slots never grow, and with none queued nothing more comes out; a null pool is used if and only if the call came without one and took a buffer that was not the last |
| DecoderSession.Session.QueueDecoderPacket | src/V4l2CodecSession.cpp:1244-1282 | a packet is accepted into a free slot large enough for it, refused when empty or oversized, and reported as blocking only if every slot is queued and the driver has none to return |
| DecoderSession.Session.HandleDecoderEvents | src/V4l2CodecSession.cpp:1426-1445 | each resolution change begins one setup, and success means none is pending and no event waits |
| DecoderSession.Session.PumpDecoder | src/V4l2CodecSession.cpp:1505-1518 | success means no setup is pending and the driver has nothing more on any queue; a setup that blocks still lets the inputs be reclaimed; only a call that reports corruption refuses a buffer; a null pool is used if and only if the call came without one and took a buffer that was not the last |
| DecoderSession.Session.DequeueDecoderFrame | src/V4l2CodecSession.cpp:1553-1578 | frames are handed out one by one in the order the driver's buffers were taken, with or without a pool; a null pool is used if and only if the call came without one and took a buffer that was not the last |
| DecoderSession.Session.StartDecoderDrain | src/V4l2CodecSession.cpp:1580-1598 | draining without input publishes one end-of-stream frame without a block |
| DecoderSession.AnyRun | src/V4l2CodecSession.cpp:1226-1598 | in every reachable state a slot is queued exactly while its block is held, configured equals streaming and excludes a pending setup, and delivered plus pending frames are those of the buffers taken, which are all the driver gave unless a call of the epoch reported corruption; a null pool was used if and only if some call came without one and took a buffer that was not the last |
| OutputMonitor.RunKeeps | src/V4l2OutputMonitor.h:41-120 | the protocol invariant survives every interleaving of the monitor thread with callers |
| OutputMonitor.NotificationsBounded | src/V4l2OutputMonitor.h:77-92 | ordinary notifications never exceed one plus the number of calls to rearm |
| OutputMonitor.NoLostWakeup | src/V4l2OutputMonitor.h:77-109 | when disarmed and rearmed since the last notification, the wake counter is non-zero and poll returns |
| OutputMonitor.OncePerRearm | src/V4l2OutputMonitor.h:85-92 | after a notification whose earlier rearms were consumed nothing more is notified until a rearm |
| OutputMonitor.StoppingProgress | src/V4l2OutputMonitor.h:58-67 | once the stop flag is set every step of the thread takes it closer to its exit |
| OutputMonitor.StopNeverBlocks | src/V4l2OutputMonitor.h:111-120 | once Stop has written, a thread that has not exited has an enabled step even if no device event, error or signal comes; it cannot sleep in poll on an empty counter |
| OutputMonitor.StopBounded | src/V4l2OutputMonitor.h:111-120 | the thread takes a bounded number of steps after the stop flag |
| OutputMonitor.SilentAfterStop | src/V4l2OutputMonitor.h:111-120 | nothing is notified after Stop returned, until the next start |
| Recency.OldestIsFirst | src/VulkanFrameConverter.cpp:655-668 | the entry with the smallest use counter is the front of the recency list, so the victim does not depend on the map's order |
| Recency.AgreesUse | src/VulkanFrameConverter.cpp:576-603 | a use gives an entry a counter above every other |
| Recency.RequestTruncates | src/VulkanFrameConverter.cpp:595-597 | one request on the bounded list is the truncation of the request on the unbounded list |
| Recency.ServeIsTruncatedHistory | src/VulkanFrameConverter.cpp:576-683 | a cache of any capacity holds exactly the most recently used ids of its history |
| VulkanCaches.AddSource | src/VulkanFrameConverter.cpp:599-604 | a new source's generation is one that no destination can remember, whatever handle values Vulkan reuses |
| VulkanCaches.BindKeeps | src/VulkanFrameConverter.cpp:385-399 | rewriting binding 0 makes the destination fresh for the source and disturbs no other destination |
| VulkanCaches.FreshAcross | src/VulkanFrameConverter.cpp:382-385 | creating and destroying other objects leaves remembered bindings valid |
| VulkanCaches.DescriptorSetsCount | src/VulkanFrameConverter.cpp:471-486 | live descriptor sets are as many as cached destinations |
| VulkanCaches.BindableBySignature | src/VulkanFrameConverter.cpp:81-95 | the layout checks of an import depend on the signature alone, so a hit need not repeat them |
| VulkanConverter.Converter.ImportSource | src/VulkanFrameConverter.cpp:685-790 | every object created belongs to the entry, complete on success, partial on failure; nothing older changes |
| VulkanConverter.Converter.ImportDestination | src/VulkanFrameConverter.cpp:792-926 | as for sources, after the range and alignment checks; the descriptor set is allocated only when the pool has room |
| VulkanConverter.Converter.EvictOldestSource | src/VulkanFrameConverter.cpp:655-668 | exactly the least recently used source is destroyed and erased |
| VulkanConverter.Converter.EvictOldestDestination | src/VulkanFrameConverter.cpp:670-683 | exactly the least recently used destination is destroyed and erased |
| VulkanConverter.Converter.GetSourceResource | src/VulkanFrameConverter.cpp:576-613 | a hit returns an entry whose signature is the request's and creates nothing; anything else imports anew; the recency list follows the LRU request exactly, a failed import included |
| VulkanConverter.Converter.GetDestinationResource | src/VulkanFrameConverter.cpp:615-653 | the same for destinations, with ten entries |
| VulkanConverter.Converter.BindIfStale | src/VulkanFrameConverter.cpp:382-399 | afterwards binding 0 is the live view of the source, although it is rewritten only when generations differ |
| VulkanConverter.Converter.Convert | src/VulkanFrameConverter.cpp:356-402 | what is dispatched reads the live view imported for this source in this layout and writes a destination that passed the checks; a destination that fails them changes no cache |
| VulkanConverter.Converter.Reset | src/VulkanFrameConverter.cpp:302-354 | every imported object is destroyed once and nothing is left |
| VulkanConverter.AnyRun | src/VulkanFrameConverter.cpp:356-402 | over any sequence of conversions, failures and resets, every dispatch read the cached view, and that was imported for its own source's buffer and layout |
| VulkanConverter.ConvertAll | src/VulkanFrameConverter.cpp:576-683 | after conversions that all succeed each cache holds the 8 or 10 most recently used buffers |
| Nv12.PlaneRangeExact | src/VulkanFrameConverter.cpp:156-167 | the 64-bit range check accepts a plane if and only if it is non-empty and ends inside the buffer on unbounded integers |
| Nv12.CheckedDestinationTiles | src/VulkanFrameConverter.cpp:803-816 | the parameters of a checked destination fit 32 bits and its bound ranges are the planes, for every device limit |
| Nv12.LumaTiled | src/RgbToNv12.comp:47-68 | every visible luma texel is stored by exactly one invocation and one of its four stores |
| Nv12.LumaOnlyVisible | src/RgbToNv12.comp:47-68 | nothing but visible texels is stored, all of it inside the bound range |
| Nv12.ChromaTiled | src/RgbToNv12.comp:70-75 | every chroma texel is stored by exactly one invocation, inside its range |
| Nv12.ChromaStrideNeeded | src/RgbToNv12.comp:70-75 | each chroma texel is stored by exactly one invocation if and only if the stride is at least the width, or there is a single row of them and the group count does not wrap |
| Nv12.StrideNeeded | src/RgbToNv12.comp:47-68 | each visible texel is stored by exactly one store of all invocations if and only if the stride is at least the width and the last position fits an `int`, neither of which is checked |
| Nv12.ShortStrideExample | src/VulkanFrameConverter.cpp:551-564 | a destination that passes every check and whose rows share a texel |
| Nv12.PlanesCollideExact | src/VulkanFrameConverter.cpp:551-564 | some luma byte is also a chroma byte if and only if the distance of the offsets, in rows and a rest, is one that two samples can have |
| Nv12.CollidingExample | src/VulkanFrameConverter.cpp:551-564 | a destination whose planes collide passes every check |
| Nv12.BytesInside | src/VulkanFrameConverter.cpp:803-816 | wherever the planes lie, every byte stored lies in the buffer |
| Nv12Cpu.InVideoRange | src/FloralCodecComponent.cpp:1190-1224 | luma lies in 16..235 and chroma in 16..240, so ClampByte never changes a value |
| Nv12Cpu.AverageBlock | src/FloralCodecComponent.cpp:1206-1218 | the nested loops compute the mean pixel of a block |
| Nv12Cpu.CopyRgbToNv12 | src/FloralCodecComponent.cpp:1153-1226 | for even and odd sizes the loops fill every sample of both planes, rounded up to whole blocks, write nothing else, and read exactly the pixels of those blocks; a view smaller than the frame is refused, nothing is read and nothing written |
| Nv12Cpu.ReadsInsideExact | src/FloralCodecComponent.cpp:1155-1213 | what the loops read lies inside the view if and only if the frame is empty or the view holds its sizes rounded up to even ones |
| Nv12Cpu.SettableIsEven | src/FloralCodecComponent.cpp:219-232 | whatever sizes were asked for, the size in force is even and not empty |
| Nv12Cpu.SettableReadsInside | src/FloralCodecComponent.cpp:1153-1226 | for every size that can be set, a conversion that passes the size check reads inside the view |
| Nv12Cpu.OddSizeExample | src/FloralCodecComponent.cpp:1203-1213 | a 3 by 3 frame in a view of its size would be read outside; no sequence of requests sets it |
| Nv12Cpu.ConvertedInRange | src/FloralCodecComponent.cpp:1195-1224 | after the conversion each sample holds its unclamped value in video range |
| SurfacePool.ScanInPlace | src/FloralCodecComponent.cpp:842-856 | the loop that erases while it walks takes the first block of the right size whose buffer is not in use and drops those of another size |
| SurfacePool.StepKeeps | src/FloralCodecComponent.cpp:829-1052 | every critical section, in any interleaving, keeps the pool's invariant |
| SurfacePool.SameReferences | src/FloralCodecComponent.cpp:965-1032 | both maps always index the same references; none is used after its release or released twice |
| SurfacePool.BuffersExclusive | src/FloralCodecComponent.cpp:829-907 | a block on its way to the decoder has the requested size and its buffer stays unused until it is published; two frames never share a buffer or a surface |
| SurfacePool.ResetKeeps | src/FloralCodecComponent.cpp:1034-1052 | when no frame is outstanding and no callback is about to enter its critical section, Reset finds nothing to release, and every surface left belongs to a release that will destroy it |
| SurfacePool.ResetExact | src/FloralCodecComponent.cpp:1034-1052 | whatever releases are under way, everything after a Reset is safe if and only if no frame is outstanding and no callback waits for its critical section |
| ConfigReplay.Component.StoreDecoderConfig | src/FloralCodecComponent.cpp:2236-2262 | a configuration is appended to the waiting ones or replaces those already sent; failures change nothing |
| ConfigReplay.Component.SubmitAccessUnit | src/FloralCodecComponent.cpp:1812-1858 | an accepted access unit's packet is the waiting configuration followed by its units, and only a packet that was taken stops the waiting |
| ConfigReplay.Component.Process | src/FloralCodecComponent.cpp:1364-1387 | work is refused after an error or the end of the stream; work that succeeds has stored all its configuration updates in order and then its buffer, as a configuration or as one submitted access unit |
| ConfigReplay.Component.Flush | src/FloralCodecComponent.cpp:1344-1362 | a successful flush makes a configuration in force wait again; a failed one empties the session only |
| ConfigReplay.Component.DrainWithEos | src/FloralCodecComponent.cpp:1417-1427 | a drain to the end of the stream flushes the session and leaves the configuration as it is |
| ConfigReplay.Component.Stop | src/FloralCodecComponent.cpp:2285-2289 | stopping forgets the configuration and the length size |
| ConfigReplay.ConfigIsGroup | src/FloralCodecComponent.cpp:2249-2258 | the configuration in force is the ordered concatenation of those stored since the last one that found nothing waiting |
| ConfigReplay.WaitingExact | src/FloralCodecComponent.cpp:1833-1858 | an access unit carries the configuration if and only if a configuration, or a flush with one in force, came after the last accepted access unit |
| ConfigReplay.EmptiedExact | src/FloralCodecComponent.cpp:1417-1427 | after a drain emptied the session, the next access unit carries the configuration if and only if it was still waiting then, or a configuration or flush came afterwards |
| ConfigReplay.EmptiedExample | src/FloralCodecComponent.cpp:1417-1427 | a configuration that was sent, then a drain: the next access unit goes without it |
| ConfigReplay.PacketReparses | src/FloralCodecComponent.cpp:1833-1847 | for canonical input the packet parses back to the configuration's units followed by the access unit's |
| ConfigReplay.AnyRun | src/FloralCodecComponent.cpp:1364-1387 | the history is what the commands and their results make it, the configuration bytes, the waiting flag and every packet are those it calls for, and the length size is in 1..4 |
| EncoderDrain.Component.MakeEncodedBuffer | src/FloralCodecComponent.cpp:1492-1535 | the output is the frame's; the first complete parameter sets go out as configuration; a key frame before them is an error |
| EncoderDrain.Component.DrainV4l2Encoder | src/FloralCodecComponent.cpp:1537-1585 | a call that returns OK publishes exactly the non-empty frames the session handed out, in order, the last one flagged with what was seen of the end of the stream; when the session fails, exactly the output held back is dropped; when a frame cannot be wrapped, exactly that frame and the output held back are |
| EncoderDrain.FlaggedExact | src/FloralCodecComponent.cpp:1578-1583 | at most one output is flagged, it is the last, and it is flagged if and only if the end of the stream was seen; indices and payloads are the frames' |
| EncoderDrain.ConfigOnce | src/FloralCodecComponent.cpp:1506-1533 | an output carries the configuration if and only if it is the first whose frame holds all parameter sets |
| EncoderDrain.ConfigDropped | src/FloralCodecComponent.cpp:1546-1571 | when the output held back is dropped, the configuration counts as sent without being published if and only if the last wrapped frame is the first that holds all parameter sets |
| EncoderDrain.BatchesCompose | src/FloralCodecComponent.cpp:1537-1585 | where one drain stops and the next goes on makes no difference to the outputs |

## Left out

- Raw `ioctl`, `mmap`, `poll`, Vulkan, VA-API and FFmpeg calls: their results are nondeterministic values.
- Timeouts, deadlines and fences, and the liveness of devices and pools: loops that wait for them end after any number of rounds.
- The shader's floating-point colour arithmetic and its SPIR-V words; the YUV branch of `CopyGraphicViewToNv12`, which only copies.
- `cache_use_counter_` wrapping at 2^64: the counter is unbounded, as 2^64 cache uses do not happen in one epoch.
- The order of insertion and import in a Vulkan cache: an entry is stored once its import succeeded, so the partial entry is a local value here.
- `VkImageLayout` tracking and queue family ownership barriers, and the cache hit statistics.
- A 32-bit `time_t`: seconds are 64-bit, so its range check never fires.
- `std::vector::erase` and queue pops are updates of a `seq` field; iterator invalidation and aliasing are not modelled.
- Exceptions from allocation failures.
- The separate critical section that disables direct output after a failed acquisition: it is part of the failing step in `SurfacePool`.
- Decoders without bitstream normalisation (VP8, VP9, MPEG-2), whose packets are the raw input, and the FFmpeg decoder's copy of the configuration logic.
- EncoderDrain.Component.DrainV4l2Encoder: `rounds` bounds the frames one call takes, because the hardware could go on for ever; running out is as if the session had no more.
- Work items of other frames in `FinishOutput`, the empty end-of-stream work and the flags of the current work.
- `VaapiFrameConverter`, the VA descriptor builder, `GetMinigbmDmaBuf`, `NegotiateV4l2DecoderCapture` and the decoder's timestamp round trip: they would only add easy members.
- Codec2 parameters, component store, capability probing, sandbox and SELinux start-up, logging and tracing.

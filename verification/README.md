# librsua media path: a Dafny model

The project models the parts of librsua, a SIP user agent, that number, cut, queue and rebuild
media data, and proves what they are for.

- **Video over RTP** (`StartCode`, `Nal`, `Reassembly`, `Decoders`, `Stream`, `Transport`,
  `LossSafety`, `Splicing`, `RoundTrip`, `Recovery`, `Packets`): the H.264 and H.265 packetizers with their
  word-at-a-time start-code search, and the two reassembly state machines (RFC 6184 sections
  5.6 to 5.8, RFC 7798 section 4.4). The decoders are classes over a mutable buffer; each
  packet is proved to act as a step of one shared specification, and `Packets` says for every
  kind of payload, aggregates and refusals included, what that step does. A second decoder that only
  knows unit numbers is then shown to be followed, packet by packet, by the byte-level one.
  From it come loss safety (only whole sent units, in order, whatever is lost, repeated or
  reordered) under a condition on the 16-bit sequence numbers that is exact over whole runs,
  concrete runs that splice units where it fails, and that no intact unit is thrown away. With
  nothing lost a third decoder, which takes whole units and knows no packets, is matched frame
  by frame in every run; from it come the exact conditions under which one frame and all frames
  survive, and under which the next complete frame survives after any loss.
- **AV1** (`Av1`, `Av1Transport`): the same questions for the frame-wise packetizer and decoder.
- **RTP numbering** (`Timestamp`, `LossCount`): 64-bit extension of timestamps with the exact
  condition under which a comparison can be trusted, and conservation of sequence numbers
  (RFC 3550 section 5.1 and appendix A.1).
- **Queues and buffers** (`SendQueue`, `PingPong`, `Tone`): the paced send queue under all
  interleavings of encoder and timer, the two-block conversion buffer, the tone player.
- **Lists and indexes** (`Contacts`, `CallLines`): the contact hash table against the contact
  list, call line numbers and their listing.
- **Codecs in place** (`RtpExt`, `PlaneFlip`): RTP header extensions (RFC 5285 section 4.2) and
  turning picture planes over.

`Bytes` holds the byte type, the error codes and the message buffer. Several proofs use `hide`
to keep definitions they do not need away from the solver.

What the environment decides is a parameter: which packets arrive, the codec library's answer to
a buffer, clock readings, the hash function, the address of a buffer modulo 4 and the byte order
of the machine. Foreign calls are modelled as recording what they are given.

Where the code differs from its own words the model follows the code. The comment at
src/video.c:251 divides the burst by 8, the code by 4. The header field `len` of an RTP
extension has four bits (src/rtpext.h:32), so a length of 16 is stored as 0. The start-code
search does not see a start code with nothing after it.

Properties that do not hold without a condition, each with the exact condition and, where the
failure is not plain from it, a concrete run:

- loss safety: `LossSafety.NothingSplicedExactlyWhen` with `Splicing.Shown`, and the same in
  `Av1Transport`. Bursts of at most 65535 lost packets always meet the condition for AV1, for
  H.265, and for H.264 once a keyframe was seen (`ShortBursts`). Before that they need not: an
  unsplit slice is refused before the fragment state is looked at
  (modules/avcodec/decode.c:334-344), so it does not end a fragment (`Splicing.GatedShown`);
- the round trip: `RoundTrip.NothingLost` for all frames, `RoundTrip.FrameByFrame` for each;
- timestamps: `Timestamp.WrapExact` with `Timestamp.TooFarApart`;
- loss counts: `LossCount.CallMeaning`, `LossCount.FirstPacket`, `LossCount.EveryNumberAccounted`;
- header extensions: `RtpExt.RoundTrip`;
- repeated tones: `Tone.PlaysNTimes` with `Tone.CopyLost`;
- the conversion buffer's capacity test: `PingPong.CapacityTestExact`;
- turning a whole plane over: `PlaneFlip.WholePlaneExactlyWhen`.

Verify with `dafny verify dfyconfig.toml`.

## Model

| member | source | states |
|---|---|---|
| StartCode.FindIs | src/h264.c:42-75 | The naive scan has one answer: the least position of 00 00 01 with a byte after it, or the end. |
| StartCode.MaskFindsZero | src/h264.c:51-53 | The mask test on a 32-bit word is nonzero exactly when one of its four bytes is zero, on either byte order. |
| StartCode.ScanBytes | src/h264.c:46-49 | The byte loops stop at the first start code below their limit, or with none below it. |
| StartCode.ScanWord | src/h264.c:54-65 | The four tests inside a word that has a zero byte report the first start code among the four positions, or none. |
| StartCode.FindStartcode | src/h264.c:42-75 | The word-at-a-time search returns what the naive scan returns, for every buffer, start, address alignment and byte order, reading only inside the buffer. |
| StartCode.UnitsRejoin | src/h264.c:137-152 | Joining the units cut from any buffer, each behind 00 00 01, gives back every byte from the first start code on. |
| StartCode.UnitsSplittable | src/h264.c:137-152 | No cut unit hides a start code, and the last unit is not empty. |
| StartCode.SplitInvertsAnnexB | src/h264.c:137-152 | Cutting the Annex B form of a list of units gives the list back if and only if no unit hides a start code and the last is not empty. |
| StartCode.AnnexBInvertsSplit | src/h264.c:137-152 | Cutting any buffer and joining again drops exactly what precedes the first start code. |
| Nal.H265Decode | modules/avcodec/h265.c:54-77 | An accepted header is rebuilt by the encoder from its type and temporal id; a set forbidden bit or a nonzero layer id is refused. |
| Nal.H265HdrRoundTrip | modules/avcodec/h265.c:33-77 | Encoding and decoding a header keeps six bits of type and three of temporal id. |
| Nal.ChopFacts | src/h264.c:108-115 | Pieces of a body join to the body, all but the last are full size, none is empty unless the body is. |
| Nal.FuPacketsAre | src/h264.c:105-122 | The fragment loop in closed form: start bit on the first packet, end bit and marker on the last. |
| Nal.FragmentShape | src/h264.c:95-122 | A unit that does not fit gives at least two packets of at most pktsize bytes, start bit exactly on the first, end bit exactly on the last, marker at most on the last, the unit's type in each, bodies joining to the unit after its header; for H.264 and H.265. |
| Nal.H264FuBits | src/h264.c:101-106 | Indicator and fragment header carry NRI, type, start and end without overlap. |
| Nal.H265FuBits | modules/avcodec/h265.c:230-247 | The H.265 fragment headers carry type 49, the temporal id, the unit's type, start and end without overlap. |
| Nal.H264PartShape | src/h264.c:95-122 | The fragments for every combination of first and last, read off their bytes: start bit on the first packet of a first part, end bit on the last of a last part, marker with the end bit, bodies joining to the part. |
| Nal.H265Sends | modules/avcodec/h265.c:209-228 | A unit that fits goes out as it is; a longer one is not sent, and reported, exactly when its forbidden bit or layer id is not zero. |
| Nal.H264NalSend | src/h264.c:87-126 | Whole unit or fragments, for every combination of first and last. |
| Nal.SendFragments | src/h264.c:108-122 | The loop that walks the body and clears the start bit in place produces the fragments of the specification. |
| Nal.SkipZeros | src/h264.c:142-144 | The zero-skipping loop stops right after the start code. |
| Nal.H264Packetize | src/h264.c:129-155 | One run of packets per unit in order, marker on the last unit only. |
| Nal.H265NalSend | modules/avcodec/h265.c:209-254 | Whole unit or fragments; a long unit with a bad header sends nothing and reports EBADMSG. |
| Nal.H265Packetize | modules/avcodec/h265.c:257-285 | As above for H.265; an error is reported exactly when some unit was refused, and the other units still go out. |
| Reassembly.AggregateUnpacks | modules/avcodec/decode.c:418-441 | An aggregation payload unpacks to its units, empty ones included, each behind a start code, whatever follows; a malformed rest is reported but the units before it stay. |
| Reassembly.EveryAggregate | modules/avcodec/decode.c:418-441 | Every payload is some units and a rest from which no unit can be read. |
| Reassembly.AggregateIntoAppends | modules/avcodec/decode.c:418-441 | Unpacking onto a buffer only appends. |
| Reassembly.NextSeqIs | modules/avcodec/decode.c:75-78 | The 16-bit difference is 1 exactly for packets a whole number of 2^16 from the next one; so it singles out the next packet if and only if the other is no such packet. |
| Decoders.ViddecState.constructor | modules/avcodec/decode.c:179-187 | A new decoder is empty and has seen no keyframe. |
| Decoders.ViddecState.FragmentRewind | modules/avcodec/decode.c:81-85 | The buffer goes back to where the open fragment began, and is unchanged when none is open. |
| Decoders.ViddecState.Reset | modules/avcodec/decode.c:467-471 | The buffer is emptied and no fragment is open. |
| Decoders.ViddecState.Finish | modules/avcodec/decode.c:447-472 | Size check without marker, EPROTO on an open fragment, otherwise the buffer is handed over and the keyframe flag may be set. |
| Decoders.ViddecState.TakeUnit | modules/avcodec/decode.c:352-363 | A whole unit is appended behind a start code. |
| Decoders.ViddecState.BeginFragment | modules/avcodec/decode.c:372-390 | A first fragment drops an unfinished one, remembers the place and writes the rebuilt header. |
| Decoders.ViddecState.EndFragment | modules/avcodec/decode.c:408-416 | The fragment's bytes are appended, its number kept, the flag cleared by the end bit. |
| Decoders.ViddecState.TakeFragment | modules/avcodec/decode.c:364-417 | First fragment, continuation, stray continuation and broken sequence, as the specification step. |
| Decoders.ViddecState.TakeAggregated | modules/avcodec/decode.c:434-439 | One unit of an aggregation packet is appended and the position moves past it. |
| Decoders.ViddecState.TakeAggregate | modules/avcodec/decode.c:418-441 | The aggregation loop appends exactly what the packet unpacks to and returns its error. |
| Decoders.ViddecState.TakeH264 | modules/avcodec/decode.c:339-445 | The switch on the H.264 type, as the specification step. |
| Decoders.ViddecState.DecodeH264 | modules/avcodec/decode.c:309-472 | One packet changes buffer, flags and record exactly as the specification step, keyframe gate and every error return included. |
| Decoders.ViddecState.TakeH265 | modules/avcodec/decode.c:649-748 | The switch on the H.265 type, as the specification step. |
| Decoders.ViddecState.DecodeH265 | modules/avcodec/decode.c:637-775 | One packet changes buffer, flags and record exactly as the specification step. |
| Packets.H264Aggregate | modules/avcodec/decode.c:418-472 | A STAP-A packet of any units, in any state, whatever the keyframe flag: an unfinished fragment is dropped and the units come behind the complete ones, handed over with the marker and kept without it; with a malformed rest they stay, EBADMSG or ENOENT is returned and nothing is handed over. |
| Packets.H265Aggregate | modules/avcodec/decode.c:726-775 | The same for an H.265 aggregation packet with any temporal id. |
| Packets.H264Single | modules/avcodec/decode.c:344-363 | A single unit comes behind the complete units, behind 00 00 01, and every end of the packet: hand-over, keyframe flag, size limit, error codes. |
| Packets.H265Single | modules/avcodec/decode.c:665-676 | The same for H.265. |
| Packets.StepFragment | modules/avcodec/decode.c:364-417 | Every fragment: one that begins a unit, also with the end bit; a stray one; the next one; one out of sequence. |
| Packets.H264Fragment | modules/avcodec/decode.c:364-417 | The unit header is put together from NRI and the type of the fragment header, for all byte values. |
| Packets.H265Fragment | modules/avcodec/decode.c:678-724 | The two-byte header is put together from the type of the fragment header and the temporal id, for all byte values. |
| Packets.H264Refused | modules/avcodec/decode.c:322-342 | An empty packet, a slice at the shut gate, the forbidden bit and a fragment cut short change nothing and return their error; reserved types drop an unfinished fragment and return EBADMSG. |
| Packets.H265Refused | modules/avcodec/decode.c:649-660 | A forbidden bit, a layer id and a fragment cut short change nothing and return EBADMSG; reserved types drop an unfinished fragment and return EPROTO. |
| Stream.SendIsPacketize | src/h264.c:129-155 | The packets of a run are those of the packetizer, frame after frame. |
| Stream.H264FragmentView | modules/avcodec/decode.c:364-417 | The decoder rebuilds the original H.264 header from the two headers of a first fragment. |
| Stream.H265FragmentView | modules/avcodec/decode.c:678-724 | The decoder rebuilds the original two-byte H.265 header, because forbidden bit and layer are zero. |
| Stream.UnitCut | src/h264.c:87-126 | The packets of a unit carry consecutive byte ranges of it, from its first byte to its last. |
| Stream.AddUnitsGood | src/h264.c:139-152 | Adding a frame's units keeps every packet tied to its byte range and the ranges consecutive. |
| Stream.Send | src/h264.c:129-155 | For any frames of legal units the whole run is a chain of consecutive byte ranges, one per packet, markers at frame ends. |
| Transport.ViewIs | modules/avcodec/decode.c:334-445 | What the decoder makes of any sent packet: its byte range as whole unit, first fragment or continuation, or nothing when the keyframe gate is shut. |
| Transport.SettleFollows | modules/avcodec/decode.c:447-472 | At the end of a packet the byte-level and the unit-level decoder treat size limit, marker and hand-over alike. |
| Transport.WholeFollows | modules/avcodec/decode.c:344-363 | A whole unit completes one more unit and drops an open one. |
| Transport.BeginFollows | modules/avcodec/decode.c:372-390 | A first fragment opens its unit and drops an open one. |
| Transport.ContinueFollows | modules/avcodec/decode.c:391-416 | The next fragment extends the open unit or completes it. |
| Transport.DropFollows | modules/avcodec/decode.c:399-405 | A fragment that does not come next, and whose number can tell, closes the open unit and leaves the complete ones. |
| Transport.StepFollows | modules/avcodec/decode.c:309-472 | One packet keeps the byte-level decoder in step with the decoder that thinks in units. |
| Transport.OpenIsLast | modules/avcodec/decode.c:413-416 | While a unit is open its last accepted fragment is the last fragment that arrived. |
| Transport.RunFollows | modules/avcodec/decode.c:309-472 | The same over whole runs, under loss, repetition and reordering, as long as no continuation that arrives while a unit is open is a nonzero multiple of 2^16 away from the next one. |
| Transport.WindowTells | modules/avcodec/decode.c:75-78 | A condition on the order of arrival alone that is enough: every fragment that continues a unit is the one after the fragment that arrived last, or not a whole number of 2^16 packets off. |
| LossSafety.OnlyWholeUnits | modules/avcodec/decode.c:344-416 | Loss safety for H.264 and H.265: after any packets in any order, as long as no continuation that arrives while a unit is open is a nonzero multiple of 2^16 away from the next one, the buffer is complete sent units behind start codes and then a proper nonempty prefix of one more exactly when frag is set; everything handed over was complete sent units. |
| LossSafety.ShortRuns | modules/avcodec/decode.c:75-78 | In a run of at most 2^16 packets every pattern of arrival meets that condition. |
| LossSafety.ShortGapsTell | modules/avcodec/decode.c:75-78 | In a run of any length it is met when packets arrive in the order sent and each at most 2^16 after the last one that was not a slice held back before the first keyframe. |
| LossSafety.ShortBursts | modules/avcodec/decode.c:75-78 | For H.265, and for H.264 once a keyframe was seen, it is met in a run of any length in the order sent with at most 65535 packets lost in a row. |
| LossSafety.DroppedExactlyWhen | modules/avcodec/decode.c:399-416 | A continuation other than the next is dropped, and the unfinished unit with it, if and only if it is not a whole number of 2^16 packets off; otherwise its bytes are spliced on. |
| LossSafety.NothingSplicedExactlyWhen | modules/avcodec/decode.c:391-416 | Over whole runs: no continuation is ever taken in behind a fragment that it does not follow if and only if the condition is met. |
| LossSafety.ChunksAscend | src/h264.c:139-152 | Later packets belong to later units, or to the same one while it is unfinished. |
| LossSafety.NumbersStep | modules/avcodec/decode.c:309-472 | A packet adds at most the number of the unit it ends. |
| LossSafety.InOrder | modules/avcodec/decode.c:309-472 | When packets arrive in the order sent, units come out in the order sent, each at most once, however many packets are missing. |
| LossSafety.UnitArrives | modules/avcodec/decode.c:334-456 | All packets of a unit one after the other, whatever happened before: nothing changes if it is an unsplit slice before the first keyframe, the frame so far is thrown away if it is too large before the last packet, otherwise the unit is complete. |
| LossSafety.IntactUnitKept | modules/avcodec/decode.c:344-416 | So an intact unit is taken in unless the keyframe gate or the size limit stops it. |
| Splicing.Spliced | modules/avcodec/decode.c:372-416 | From a new decoder: a first fragment, any slices that are held back, and then a continuation a nonzero multiple of 2^16 off the next one leave, or with a marker hand over, the two pieces put together. |
| Splicing.Shown | modules/avcodec/decode.c:372-416 | A concrete unit of 65540 bytes and two of its packets after which the buffer is no prefix of what was sent. |
| Splicing.GatedShown | modules/avcodec/decode.c:334-416 | A concrete run before the first H.264 keyframe, no more than three packets lost in a row, in which pieces of two units are put together because the slices between them are held back. |
| RoundTrip.UnitChunkBounds | src/h264.c:108-122 | Only the last packet of a unit reaches into its last bytes. |
| RoundTrip.InSequenceWindow | modules/avcodec/decode.c:75-78 | Packets in order meet the condition of loss safety. |
| RoundTrip.UnitReceived | modules/avcodec/decode.c:334-456 | With nothing lost the packets of one unit act on the decoder as one step of the receiver of whole units. |
| RoundTrip.ReceivesUnits | modules/avcodec/decode.c:309-472 | Refinement: with nothing lost, after any number of whole frames, buffer, keyframe flag and everything handed over are exactly those of the receiver of whole units, for every run, frames that are held back or too large included. |
| RoundTrip.UnitsSoFar | modules/avcodec/decode.c:344-456 | Before the last unit of a frame the receiver has all units, or one was held back, or it was emptied. |
| RoundTrip.OneFrame | modules/avcodec/decode.c:334-472 | The receiver hands a frame over as it is if and only if nothing was left before it, no unit is an unsplit slice before the first keyframe, and all but the last packet is within DECODE_MAXSZ. |
| RoundTrip.Boundary | modules/avcodec/decode.c:334-472 | At a frame boundary nothing is left in the buffer for H.265, or once a keyframe was seen. |
| RoundTrip.AllHandedOver | modules/avcodec/decode.c:309-472 | The receiver hands over exactly the frames if and only if every frame survives, the keyframe flag being what the earlier frames made it. |
| RoundTrip.NothingLost | modules/avcodec/decode.c:309-472 | Round trip for any number of frames, H.264 and H.265, from any keyframe flag: the library gets exactly each frame's bytes from its first start code on if and only if no unsplit slice comes before the library has answered with a key picture and every frame without its last packet is within DECODE_MAXSZ; then the decoder ends empty. |
| RoundTrip.KeyPictureFirst | modules/avcodec/decode.c:295-299 | For a new decoder and a first frame without unsplit slices that is answered with a key picture, only the size limit can lose a frame. |
| RoundTrip.FrameByFrame | modules/avcodec/decode.c:309-472 | In any run each frame is handed over as it is if and only if the buffer was empty before it, its units pass the keyframe gate and it fits; for H.265 and once a keyframe was seen the buffer is always empty there, so frames do not disturb each other. |
| Recovery.SendParcels | src/h264.c:129-155 | A packet carries a whole unit exactly when the unit goes out unsplit, and only the last unit of a frame, whose end is marked, may end with a start code. |
| Recovery.RunTidy | modules/avcodec/decode.c:334-472 | After any packets in any order the unit-level decoder is within the size limit, and its complete units are ones that pass the keyframe gate. |
| Recovery.FrameAfterLoss | modules/avcodec/decode.c:309-472 | After any run that meets the condition of loss safety, with no fragment open: a frame all of whose packets arrive is handed over as it is if and only if the buffer was empty before it, its units pass the keyframe gate and it fits. |
| Av1.HdrRoundTrip | modules/av1/decode.c:107-177 | The decoder reads back start, noref, three bits of partition id and fifteen of picture id, and consumes exactly the four header bytes. |
| Av1.AnyHdr | modules/av1/decode.c:107-177 | Every header of any sender is read back field by field: picture ids of one or two bytes, all optional parts, any reserved bits. |
| Av1.TruncatedHdr | modules/av1/decode.c:107-177 | A header cut short anywhere is refused. |
| Av1.FrameShape | modules/av1/encode.c:130-167 | The packets of a frame, read off their bytes, whatever the marker: header fields, start bit on the first, marker at most on the last, pieces joining to the frame. |
| Av1.AnyPacket | modules/av1/decode.c:217-299 | What any packet does, read off its header: ignored, collecting ended, bytes added, handed over or too many, with the error of each; a header cut short changes nothing. |
| Av1.Packetize | modules/av1/encode.c:140-167 | The loop produces the frame's packets, start flag on the first, marker on the last. |
| Av1.Decoder.DecodeHdr | modules/av1/decode.c:107-177 | The header is read field by field as the specification says, with every short-read error. |
| Av1.Decoder.Decode | modules/av1/decode.c:203-299 | One packet changes buffer, started and seq exactly as the specification step. |
| Av1.Decoder.Finish | modules/av1/decode.c:251-299 | Size check without marker, otherwise the buffer is handed over and emptied whatever the library answers. |
| Av1Transport.SendGood | modules/av1/encode.c:130-167 | The packets of any frames carry consecutive byte ranges, one frame after the other. |
| Av1Transport.StepFollows | modules/av1/decode.c:230-264 | One packet keeps the byte-level decoder in step with the one that thinks in frames. |
| Av1Transport.OnlyWholeFrames | modules/av1/decode.c:230-268 | Loss safety: as long as no packet that arrives while a frame is collected, and starts none, is a nonzero multiple of 2^16 away from the next one, every buffer handed to the codec is exactly one whole sent frame of partition 0, and in between the buffer is empty or a proper prefix of one. |
| Av1Transport.AtIsLast | modules/av1/decode.c:240-252 | While a frame is collected its last packet is the last one that arrived. |
| Av1Transport.ShortBursts | modules/av1/decode.c:197-200 | That condition is met in a run of any length in the order sent with at most 65535 packets lost in a row. |
| Av1Transport.DroppedExactlyWhen | modules/av1/decode.c:240-266 | A packet that neither starts a frame nor comes next is dropped with what was collected if and only if it is not a whole number of 2^16 packets off; otherwise its bytes are put behind those of another packet. |
| Av1Transport.NothingSplicedExactlyWhen | modules/av1/decode.c:240-266 | Over whole runs: every packet that neither starts a frame nor comes next is dropped if and only if the condition is met. |
| Av1Transport.Spliced | modules/av1/decode.c:230-266 | From a new decoder: the first packet of a frame and then such a packet leave, or with a marker hand over, the two pieces put together. |
| Av1Transport.SpliceShown | modules/av1/decode.c:230-266 | A concrete frame of 65539 bytes and two of its packets after which the buffer is no prefix of it. |
| Av1Transport.InSequenceRun | modules/av1/decode.c:230-268 | With nothing lost the decoder is after each packet exactly where the sender was. |
| Av1Transport.NothingLost | modules/av1/decode.c:230-268 | Round trip: the codec gets exactly the frames with partition id 0 modulo 8 that fit, byte for byte and in order, and no others. |
| Timestamp.WrapExact | src/timestamp.c:23-40 | The reported wrap is the true difference of epochs if and only if the timestamps are less than 2^31 apart, or in one epoch and at most 2^31 apart. |
| Timestamp.WrapIs | src/timestamp.c:27-37 | The comparison without the detour through signed arithmetic. |
| Timestamp.TimestampRecv.Set | src/timestamp.c:43-52 | First and last take the timestamp; the wrap count stays. |
| Timestamp.TimestampRecv.UpdateRtp | src/video.c:564-596 | Discard on a backward wrap, count a forward one, otherwise take the timestamp. |
| Timestamp.UpdateTracks | src/video.c:564-596 | One packet: the wrap count follows the epoch, and exactly packets of an earlier epoch are discarded. |
| Timestamp.Tracks | src/timestamp.c:64-85 | Over any trackable run the extension is the true 64-bit timestamp from the first packet's epoch and the duration the true distance to the first packet, across wraps and reordering. |
| Timestamp.NothingYet | src/timestamp.c:64-73 | Before the first packet the duration is 0. |
| Timestamp.TooFarApart | src/timestamp.c:23-40 | A concrete run that shows the condition cannot be dropped. |
| LossCount.Stream.Arrive | src/stream.c:287-302 | A first packet or a new source makes its own number the next expected; the subtraction is stored unsigned. |
| LossCount.Stream.Lost | src/stream.c:153-172 | The loss and the new state are those of the specification. |
| LossCount.CallMeaning | src/stream.c:153-172 | In true numbers: up to 100 behind and duplicates are ignored and change nothing, 1 to 2999 ahead reports the gap, anything else is a jump that reports nothing; the 16-bit test does this if and only if the step is one of the first kinds or is no such step modulo 2^16 (a step of 1 reports nothing either way). |
| LossCount.FirstPacket | src/stream.c:158-159 | The value stored before number 0 reads as no packet yet: the first count is right if and only if, modulo 2^16, the source did not start at 0, or its first packet is counted first, or it jumps. |
| LossCount.CallAccounts | src/stream.c:153-172 | One call: the losses, the packet and the numbers of a jump it books are its true step, but for the whole wraps in a step counted as 1 to 2999. |
| LossCount.EveryNumberAccounted | src/stream.c:153-172 | Conservation over any run: reported losses, accepted packets and numbers skipped by jumps agree with the total advance modulo 2^16, and exactly if and only if the wraps hidden in steps counted as 1 to 2999 cancel out, as they do when every such step is as long as it looks; without jumps losses and accepted packets alone account for every number. |
| SendQueue.PollDetermined | src/video.c:235-278 | The stopping rule of a poll leaves no choice of how many packets are sent. |
| SendQueue.BurstMeans | src/video.c:250-257 | What a burst allows: four times the bytes at most the elapsed milliseconds (plus one) times kilobits per second, modulo 2^64, and at most 8192. |
| SendQueue.Vtx.PacketHandler | src/video.c:344-375 | One packet is appended with the offset timestamp modulo 2^32; the state machine's Emit. |
| SendQueue.Vtx.MayEncode | src/video.c:397-404 | A frame is encoded exactly when the queue is empty and counted as skipped otherwise; the state machine's Frame. |
| SendQueue.Vtx.VidqueuePoll | src/video.c:235-278 | The loop moves the first n packets, n at least 1 for a nonempty queue: all but the last are within a quarter of milliseconds (plus one) times kilobits per second and within 8192 bytes, and it stops only when these are exceeded; 64-bit wrap included; the state machine's Poll. |
| SendQueue.FramesInOrder | src/video.c:235-278 | In every interleaving of encoder and timer: sent, then queued, then pending packets are the accepted frames in order; what is not sent belongs to the last frame; every frame offered is accepted or counted. |
| SendQueue.KeepsOrder | src/video.c:344-404 | One event keeps that order. |
| SendQueue.PacedAlways | src/video.c:235-278 | In every interleaving of encoder and timer the bytes sent are at most the bursts of the polls that found a packet and one packet for each of them. |
| SendQueue.Paced | src/video.c:250-274 | As many polls as packets drain a queue, and their bytes are at most the bursts plus one packet each. |
| RtpExt.DecodeEncoded | src/rtpext.c:41-112 | An element of up to fifteen bytes is read back whole and the padding skip does not touch what follows. |
| RtpExt.SixteenIsLost | src/rtpext.c:86 | An element of sixteen bytes is read back with length zero. |
| RtpExt.RoundTrip | src/rtpext.c:41-112 | A list of elements is read back if and only if there is room for it and none is sixteen bytes long. |
| RtpExt.ReadsAny | src/rtpext.c:70-112 | Elements laid out with any padding are all read back; when there is room for no more, what follows is not looked at. |
| RtpExt.FirstOnes | src/stream.c:220-228 | Of more elements than there is room for exactly the first are read. |
| RtpExt.DecodeRefuses | src/rtpext.c:75-96 | EBADMSG exactly for no byte or an id outside 1 to 14, ENODATA exactly for data cut short. |
| RtpExt.BadExactlyWhen | src/stream.c:220-228 | A block is refused exactly when one of its first elements, as many as there is room for, is malformed. |
| RtpExt.SkipZerosIs | src/rtpext.c:101-109 | Exactly the zeros in front are skipped. |
| RtpExt.HdrEncode | src/rtpext.c:21-38 | The four header bytes, or EINVAL and nothing written unless the size is a nonzero multiple of four. |
| RtpExt.EncodeInto | src/rtpext.c:41-67 | One element is written over the buffer at its position, padded to a multiple of four; EINVAL writes nothing. |
| RtpExt.PadOut | src/rtpext.c:62-64 | The padding loop adds zeros up to the next multiple of four. |
| RtpExt.DecodeFrom | src/rtpext.c:70-112 | One element is read and the position is after its padding, or the specified error. |
| RtpExt.SkipPadding | src/rtpext.c:101-109 | The skip loop stops at the first nonzero byte. |
| RtpExt.ReadExts | src/stream.c:220-228 | The loop reads up to eight elements as the specification says. |
| RtpExt.HandleRtp | src/stream.c:186-237 | Without an extension, or one of another type, the packet passes with no elements and unchanged; it is dropped exactly when the extension does not fit before the payload or one of its first eight elements is malformed; otherwise the elements are delivered and position and end are restored. |
| RtpExt.Delivered | src/stream.c:186-237 | End to end: up to eight elements of at most fifteen bytes between any header and any payload are delivered unchanged. |
| Tone.Player.CheckRestart | src/play.c:94-115 | Waiting, restarting, counting a copy and ending, as the specification. |
| Tone.Player.Read | src/play.c:135-140 | As many bytes as there are and are wanted are copied; nothing else in the buffer changes. |
| Tone.Player.Fill | src/play.c:134-148 | The loop ends after at most one restart with the state and bytes of the specification. |
| Tone.Player.WriteHandler | src/play.c:121-155 | Copied bytes first; the rest is silence once the last copy has ended and otherwise what was in the buffer. |
| Tone.CheckPlays | src/play.c:94-115 | At the end of a copy the check counts it exactly once; a restart time of 0 makes the next check count one more. |
| Tone.CallbackPlays | src/play.c:121-155 | A callback of any size at any time keeps the count of copies, and of copies lost, right. |
| Tone.PlaysNTimes | src/play.c:94-155 | Over any callbacks and any clock the bytes copied are a prefix of n copies, and the end is reached exactly when the count is zero; then n copies were played if and only if no restart time that was computed is 0 modulo 2^64, each such time costing one copy. |
| Tone.PlaysForever | src/play.c:94-155 | A negative count never ends, whatever the clock, and plays whole copies and the start of one more. |
| Tone.PauseKept | src/play.c:94-148 | When a copy that is not the last ends at some clock, no callback before that clock plus the delay copies a byte or changes anything, and the first one from then on that wants a byte starts the tone from its beginning. |
| Tone.RunLess | src/play.c:94-148 | What is left to play never grows, and every callback that wants a byte and does not come before the restart time makes it less. |
| Tone.ReachesEnd | src/play.c:94-155 | Progress: as many such callbacks as there are bytes, and one more for each copy, always reach the end, all copies played but those lost to a restart time of 0; a repeat count of 0 means once. |
| Tone.NoCopyLost | src/play.c:98-112 | One restart: the next check leaves the count alone if and only if the computed restart time is not 0. |
| Tone.CopyLost | src/play.c:98-112 | A concrete run, clock at 0 and no delay, in which one of two copies is lost. |
| Contacts.FirstWithIs | src/contact.c:387-410 | What looking through the whole list for a URI means: the first entry that has it, or none. |
| Contacts.BucketSuffices | src/contact.c:403-410 | Looking in one bucket finds what looking through the whole list would, for any hash function. |
| Contacts.BucketWithout | src/contact.c:153-154 | Unlinking from the list and unlinking from the bucket agree. |
| Contacts.Contacts.Add | src/contact.c:73-136 | A new entry at the tail of list and bucket, or EINVAL and nothing changed; every bucket stays the list filtered by hash. |
| Contacts.Contacts.Remove | src/contact.c:145-160 | The entry is gone from list, bucket and current; every bucket stays the list filtered by hash. |
| Contacts.Contacts.Find | src/contact.c:403-410 | The first list entry with the URI, or none. |
| Contacts.Contacts.BlockAccess | src/contact.c:424-437 | The documented rule on the list, whatever the hash table looks like. |
| Contacts.Contacts.SetCurrent | src/contact.c:446-453 | The current contact is replaced unless none is given. |
| Contacts.FindAfterAdd | src/contact.c:123-124 | A new entry is found only when no earlier one has its URI. |
| Contacts.FindAfterRemove | src/contact.c:145-160 | Removing an entry hides nothing else, and uncovers the first entry with its URI after it. |
| Contacts.RemoveUndoesAdd | src/contact.c:123-154 | Adding and removing again leaves the list as it was. |
| Contacts.ExactBeatsWildcard | src/contact.c:413-437 | An entry with a rule of its own decides whatever the wildcard says; without one the wildcard alone decides. |
| PingPong.CapacityTestExact | modules/audiounit/audiounit.c:85-87 | The capacity test is right if and only if the 32-bit sum does not wrap. |
| PingPong.ConvBuf.GetNbFrames | modules/audiounit/audiounit.c:69-77 | The number of frames waiting. |
| PingPong.ConvBuf.InitDataWrite | modules/audiounit/audiounit.c:80-95 | A refused write changes nothing; an accepted one reserves the place behind the frames waiting. |
| PingPong.ConvBuf.Put | modules/audiounit/audiounit.c:80-95 | Frames are appended to those waiting if they fit; nothing but the reserved part of one block changes. |
| PingPong.ConvBuf.MoveOver | modules/audiounit/audiounit.c:111-116 | What is left over is copied to the front of the other block and to no other place. |
| PingPong.ConvBuf.InitDataRead | modules/audiounit/audiounit.c:98-122 | A short read changes nothing; a successful one lends the filled block and goes on in the other, every frame of both blocks accounted for. |
| PingPong.ReadMeans | modules/audiounit/audiounit.c:98-122 | The frames read are the oldest, at the front of the lent block, and the younger ones go on waiting in order. |
| PingPong.Fifo | modules/audiounit/audiounit.c:80-122 | First in, first out over any calls. |
| PingPong.LentBlockStays | modules/audiounit/audiounit.c:80-122 | A lent block keeps every frame until the next successful read, whatever is written in between. |
| PlaneFlip.SwapLines | modules/avfilter/util.c:15-21 | Two disjoint lines change places and nothing else changes. |
| PlaneFlip.SwapRows | modules/avfilter/util.c:31-35 | One turn of the loop: two rows change places, all others and all bytes outside the rows stay. |
| PlaneFlip.ReverseLines | modules/avfilter/util.c:24-39 | Row r ends up with what row h-1-r held, for any stride, and no byte outside the rows is touched. |
| PlaneFlip.TurnedRound | modules/avfilter/util.c:61-63 | Reading the reversed rows from the other end with the stride turned round gives the original picture. |
| PlaneFlip.Frame.Flip | modules/avfilter/util.c:58-63 | One plane: same logical rows, positive stride, no byte outside the rows touched. |
| PlaneFlip.WholePlaneExactlyWhen | modules/avfilter/util.c:41-63 | With row 0 last in the buffer, the whole plane is turned right if and only if it is luma or the height is even: an odd height leaves out the last chroma row and no other. |
| PlaneFlip.Frame.EnsureTopdown | modules/avfilter/util.c:47-83 | Afterwards every stride is nonnegative and each of the logical rows that the code counts (height, height/2 for chroma) is what it was; bytes outside the rows and planes with a nonnegative stride are untouched; other formats are refused when a stride is negative, unchanged. |
| CallLines.Pigeonhole | src/call.c:613-626 | With distinct numbers in range there are at most 255 calls, and all numbers are taken exactly when there are 255. |
| CallLines.WithoutAt | src/call.c:391 | Unlinking takes one call out of its place and leaves the others where they are. |
| CallLines.Ua.FindLinenum | src/call.c:2264-2276 | The call with the number, or none exactly when no call has it. |
| CallLines.Ua.AssignLinenum | src/call.c:613-626 | The least free number, or ENOENT exactly when all are taken. |
| CallLines.Ua.Alloc | src/call.c:794-803 | A new call at the tail with the least free number; fails exactly when 255 calls exist; numbers stay distinct and in range. |
| CallLines.Ua.Unlink | src/call.c:391 | A call leaves the list and the others keep their numbers and order, so the current call stays current unless it is the one that ends. |
| CallLines.Ua.SetCurrent | src/call.c:2308-2315 | The call moves to the tail; the same calls with the same numbers, the others in their order. |
| CallLines.Ua.PrintCalls | src/ept.c:1930-1950 | Every call is printed exactly once in ascending order of number, early exit included, and the mark is on the tail of the list. |
| CallLines.EarlyExit | src/ept.c:1948-1949 | As many lines as calls means all calls are out. |

## Left out

- Stream.Legal: units with the forbidden bit set, of types the decoders refuse (0 and 24 up for H.264, 41 up for H.265) or with a nonzero H.265 layer id are not part of the transport theorems; `Decoders` covers every packet, theirs included.
- Decoders.ViddecState.DecodeH265: requires two bytes, because the code reads two bytes of header without looking at the length (modules/avcodec/decode.c:649).
- Nal.H264Packetize: requires that no unit is empty and pktsize > 2, because the code subtracts the header byte and the fragment headers without looking (src/h264.c:103, 149).
- Nal.H265Packetize: requires pktsize > 3, for the same reason (modules/avcodec/h265.c:221).
- Timestamp.Tracks: the true timestamps are natural numbers, so a first packet has no earlier epoch before 0.
- Recovery.FrameAfterLoss: requires that no fragment is open before the frame; with one open, `LossSafety.UnitArrives` says unit by unit what happens.
- PlaneFlip.Frame.EnsureTopdown: speaks of the height/2 chroma rows the code counts; for odd heights libav has one more (`PlaneFlip.WholePlaneExactlyWhen`).
- PingPong.ConvBuf.Put: requires that the 32-bit frame count does not wrap; `InitDataWrite` covers the case where it does.
- CallLines.Ua.SetCurrent: requires the call to be in the list, as its callers ensure.
- The packet handler always succeeds; allocation failure, memory reference counts, logging, statistics counters and the `intra` out-parameter are not modelled.
- The codec libraries: their answer to a buffer is a parameter, picture contents are not modelled.
- `h264_fu_hdr_encode` (src/h264.c:12-16), which the packetizer does not use and which writes the start bit twice.
- H.263, MPEG-4 and VP8/VP9 packetizing, and the audio receiver's copy of the wrap logic.
- The jitter buffer: the order in which it hands packets on is a parameter of `LossCount` and of the transport theorems.
- The file player's second audio path through a ring buffer (src/play.c:334-352).
- A `size_t` of fewer than 64 bits, which would cut the burst of a poll (src/video.c:255).
- Plane strides in `int` arithmetic: overflow of `linesize * row` is not modelled.
- Parsing of SIP addresses and access words in `contact_add`: the parsed result is a parameter.
- Clock conversion in src/vidutil.c: two divisions by constants, easy members.
- SIP, SDP, STUN, TLS, configuration, user interface and sound drivers.
